/** The secured container: its layout (IV first, then ciphertext), the
    loop of `Access` that reads the IV back, and the loop that collects the
    decrypted bytes. AES-CBC itself is an abstract pair of functions. */
module Container {
  import opened Common
  import opened Streams

  /** Length of the AES initialisation vector (`aes.IV.Length`). */
  const IvLength: nat := 16

  /** The block cipher in CBC mode with padding, as a pair of functions of
      (key, IV, input). Decryption yields the bytes of the blocks it
      decrypted and whether the padding check of the last block passed. */
  datatype Cipher = Cipher(
    encrypt: (seq<byte>, seq<byte>, seq<byte>) -> seq<byte>,
    decrypt: (seq<byte>, seq<byte>, seq<byte>) -> Decryption)

  /** Decryption undoes encryption under the same 16-byte key and IV. */
  ghost predicate Inverts(cipher: Cipher)
  {
    forall key, iv, plaintext ::
      |key| == 16 && |iv| == IvLength ==>
        cipher.decrypt(key, iv, cipher.encrypt(key, iv, plaintext)) == Decryption(plaintext, true)
  }

  /** What `Secure` writes (Main.cs:141-151): the IV, then the ciphertext. */
  function Seal(cipher: Cipher, key: seq<byte>, iv: seq<byte>, plaintext: seq<byte>): (container: seq<byte>)
    ensures |container| == |iv| + |cipher.encrypt(key, iv, plaintext)|
    ensures container[..|iv|] == iv
    ensures container[|iv|..] == cipher.encrypt(key, iv, plaintext)
  {
    iv + cipher.encrypt(key, iv, plaintext)
  }

  /** The IV `Access` recovers from a container: its first 16 bytes, with
      the positions a short container does not reach left at zero. */
  function IvOf(container: seq<byte>): (iv: seq<byte>)
    ensures |iv| == IvLength
    ensures |container| >= IvLength ==> iv == container[..IvLength]
    ensures |container| < IvLength ==> iv[..|container|] == container
    ensures forall i :: |container| <= i < IvLength ==> iv[i] == 0
  {
    var k := Min(IvLength, |container|);
    container[..k] + Zeros(IvLength - k)
  }

  /** The bytes after the IV, which the decrypting stream consumes. */
  function CiphertextOf(container: seq<byte>): (ciphertext: seq<byte>)
    ensures |container| >= IvLength ==> IvOf(container) + ciphertext == container
    ensures |container| < IvLength ==> ciphertext == []
  {
    container[Min(IvLength, |container|)..]
  }

  /** The outcome of decrypting a container with a key (Main.cs:200-231).
      The decrypted bytes are added to a list one by one before the padding
      check of the last block is reached, so a list that outgrows the
      largest array fails first; then a failed padding check is reported;
      otherwise the bytes are the plaintext. */
  function Unseal(cipher: Cipher, key: seq<byte>, container: seq<byte>): (r: Result<seq<byte>>)
    ensures var d := cipher.decrypt(key, IvOf(container), CiphertextOf(container));
            r.Ok? <==> d.intact && |d.plaintext| <= MaxArrayLength
    ensures r.Ok? ==> r.value == cipher.decrypt(key, IvOf(container), CiphertextOf(container)).plaintext
    ensures r == Err(ArrayTooLarge) <==>
              |cipher.decrypt(key, IvOf(container), CiphertextOf(container)).plaintext| > MaxArrayLength
    ensures r.Err? ==> r.error == DecryptionFailed || r.error == ArrayTooLarge
  {
    var d := cipher.decrypt(key, IvOf(container), CiphertextOf(container));
    if |d.plaintext| > MaxArrayLength then Err(ArrayTooLarge)
    else if d.intact then Ok(d.plaintext)
    else Err(DecryptionFailed)
  }

  /** The IV read back from a container is the IV written at its head, and
      what follows it is exactly the cipher output. */
  lemma SealLayout(cipher: Cipher, key: seq<byte>, iv: seq<byte>, plaintext: seq<byte>)
    requires |iv| == IvLength
    ensures IvOf(Seal(cipher, key, iv, plaintext)) == iv
    ensures CiphertextOf(Seal(cipher, key, iv, plaintext)) == cipher.encrypt(key, iv, plaintext)
  {
  }

  /** Decrypting a container made with the same 16-byte key gives back the
      plaintext, whenever it fits in one array. */
  lemma UnsealSeal(cipher: Cipher, key: seq<byte>, iv: seq<byte>, plaintext: seq<byte>)
    requires Inverts(cipher) && |key| == 16 && |iv| == IvLength
    ensures Unseal(cipher, key, Seal(cipher, key, iv, plaintext)) ==
              if |plaintext| <= MaxArrayLength then Ok(plaintext) else Err(ArrayTooLarge)
  {
  }

  /** A container shorter than the IV is not rejected: the IV is its bytes
      followed by zeros, and the ciphertext is empty. */
  lemma TruncatedContainer(container: seq<byte>)
    requires |container| < IvLength
    ensures IvOf(container) == container + Zeros(IvLength - |container|)
    ensures CiphertextOf(container) == []
  {
  }

  /** The IV read loop of Main.cs:200-213. Reads go into a zeroed 16-byte
      buffer until it is full or a read returns 0; every read may be short. */
  method ReadIv(securedFileStream: FileSource) returns (iv: array<byte>, numBytesRead: nat)
    requires securedFileStream.Valid()
    modifies securedFileStream
    ensures securedFileStream.Valid() && fresh(iv)
    ensures iv[..] == IvOf(old(securedFileStream.Remaining()))
    ensures numBytesRead == Min(IvLength, |old(securedFileStream.Remaining())|)
    ensures securedFileStream.Remaining() == CiphertextOf(old(securedFileStream.Remaining()))
  {
    ghost var start := securedFileStream.position;
    ghost var container := securedFileStream.Remaining();
    iv := new byte[IvLength](_ => 0);
    var numBytesToRead := IvLength;
    numBytesRead := 0;
    while numBytesToRead > 0
      invariant securedFileStream.Valid()
      invariant numBytesRead + numBytesToRead == IvLength
      invariant securedFileStream.position == start + numBytesRead
      invariant iv[..numBytesRead] == securedFileStream.contents[start..securedFileStream.position]
      invariant forall i :: numBytesRead <= i < IvLength ==> iv[i] == 0
      decreases numBytesToRead
    {
      ghost var before := iv[..];
      var n := securedFileStream.Read(iv, numBytesRead, numBytesToRead);
      if n == 0 {
        break;
      }
      ghost var p := securedFileStream.position;
      assert iv[..numBytesRead] == before[..numBytesRead];
      assert iv[numBytesRead..numBytesRead + n] == securedFileStream.contents[p - n..p];
      assert iv[..numBytesRead + n] == iv[..numBytesRead] + iv[numBytesRead..numBytesRead + n];
      assert securedFileStream.contents[start..p] ==
             securedFileStream.contents[start..p - n] + securedFileStream.contents[p - n..p];
      numBytesRead := numBytesRead + n;
      numBytesToRead := numBytesToRead - n;
    }
    assert iv[..numBytesRead] == container[..numBytesRead];
  }

  /** The byte loop of Main.cs:219-229: bytes are appended to the list until
      `ReadByte` returns -1; a failed padding check ends it with the error,
      and so does a byte the full list has no room left for. */
  method CollectPlaintext(cryptoStream: DecryptingStream) returns (r: Result<seq<byte>>)
    requires cryptoStream.Valid()
    modifies cryptoStream
    ensures cryptoStream.Valid()
    ensures r == if |old(cryptoStream.Remaining())| > MaxArrayLength then Err(ArrayTooLarge)
                 else if cryptoStream.intact then Ok(old(cryptoStream.Remaining()))
                 else Err(DecryptionFailed)
    ensures r != Err(ArrayTooLarge) ==> cryptoStream.position == |cryptoStream.plaintext|
  {
    var rawSecuredFileBuffer: seq<byte> := [];
    while true
      invariant cryptoStream.Valid()
      invariant rawSecuredFileBuffer + cryptoStream.Remaining() == old(cryptoStream.Remaining())
      invariant |rawSecuredFileBuffer| <= MaxArrayLength
      decreases |cryptoStream.plaintext| - cryptoStream.position
    {
      ghost var before := cryptoStream.Remaining();
      var readByte := cryptoStream.ReadByte();
      if readByte.Err? {
        assert !cryptoStream.intact && cryptoStream.Remaining() == [];
        assert rawSecuredFileBuffer == old(cryptoStream.Remaining());
        return Err(readByte.error);
      }
      if readByte.value == -1 {
        assert cryptoStream.intact && cryptoStream.Remaining() == [];
        assert rawSecuredFileBuffer == rawSecuredFileBuffer + cryptoStream.Remaining();
        break;
      }
      assert before == [readByte.value as byte] + cryptoStream.Remaining();
      if |rawSecuredFileBuffer| == MaxArrayLength {
        assert |old(cryptoStream.Remaining())| > MaxArrayLength;
        return Err(ArrayTooLarge);
      }
      rawSecuredFileBuffer := rawSecuredFileBuffer + [readByte.value as byte];
    }
    r := Ok(rawSecuredFileBuffer);
  }

  /** Main.cs:200-231 after the streams are open: read the IV, decrypt the
      rest byte by byte into a list, copy the list to an array and make the
      final `Read`, which finds the stream at its end. */
  method DecryptContainer(securedFileStream: FileSource, key: seq<byte>, cipher: Cipher)
    returns (decrypted: Result<seq<byte>>)
    requires securedFileStream.Valid()
    modifies securedFileStream
    ensures decrypted == Unseal(cipher, key, old(securedFileStream.Remaining()))
  {
    ghost var container := securedFileStream.Remaining();
    var iv, _ := ReadIv(securedFileStream);
    var outcome := cipher.decrypt(key, iv[..], securedFileStream.Remaining());
    assert outcome == cipher.decrypt(key, IvOf(container), CiphertextOf(container));
    var cryptoStream := new DecryptingStream(outcome);
    decrypted := CollectPlaintext(cryptoStream);
    assert decrypted == Unseal(cipher, key, container) by {
      assert decrypted ==
               if |outcome.plaintext| > MaxArrayLength then Err(ArrayTooLarge)
               else if outcome.intact then Ok(outcome.plaintext)
               else Err(DecryptionFailed);
    }
    if decrypted.Ok? {
      var rawSecuredFileBuffer := decrypted.value;
      var securedFileBuffer := new byte[|rawSecuredFileBuffer|](i requires 0 <= i < |rawSecuredFileBuffer| => rawSecuredFileBuffer[i]);
      ghost var beforeRead := securedFileBuffer[..];
      var trailing := cryptoStream.Read(securedFileBuffer);
      assert trailing == Ok(0) && securedFileBuffer[..] == beforeRead;
      assert beforeRead == rawSecuredFileBuffer;
      decrypted := Ok(securedFileBuffer[..]);
    }
  }
}

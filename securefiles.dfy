/** The cores of `Main.Secure` and `Main.Access` with the prompts taken out:
    each receives what the prompts would have produced (the path, the
    normalised password, the requested extension) and the open streams. */
module SecureFiles {
  import opened Common
  import opened Passphrase
  import opened FileNames
  import opened Streams
  import opened Container

  /** The plaintext buffer of `Secure` after its single `Read` call returned
      `numRead`: the bytes read, then the zeros the buffer was allocated with. */
  function ReadPrefix(contents: seq<byte>, numRead: nat): (buffer: seq<byte>)
    requires numRead <= |contents|
    ensures |buffer| == |contents|
    ensures buffer[..numRead] == contents[..numRead]
    ensures forall i :: numRead <= i < |buffer| ==> buffer[i] == 0
    ensures numRead == |contents| ==> buffer == contents
  {
    contents[..numRead] + Zeros(|contents| - numRead)
  }

  /** Main.cs:122-151: name the container after the stem, open the input,
      create the container, write the random IV (supplied by the caller),
      read the whole file into a buffer with one `Read` call and write the
      cipher output after the IV. When the container name is the input path
      (the input already ends in ".ssf"), creating it while the input is open
      fails and nothing is read or written. An input longer than the largest
      array fails at the buffer allocation of Main.cs:144, after the IV has
      been written. */
  method Secure(rawFilePath: string, originalFileStream: FileSource, passCode: string,
                iv: seq<byte>, cipher: Cipher, securedFileStream: FileSink)
    returns (securedPath: string, outcome: Outcome, ghost numRead: nat)
    requires originalFileStream.Valid() && originalFileStream.position == 0
    requires |passCode| == KeyLength && |iv| == IvLength
    modifies originalFileStream, securedFileStream
    ensures securedPath == SecuredName(rawFilePath)
    ensures outcome == if securedPath == rawFilePath then Fail(FileInUse)
                       else if |originalFileStream.contents| > MaxArrayLength then Fail(ArrayTooLarge)
                       else Pass
    ensures outcome.Fail? ==> originalFileStream.position == 0
    ensures outcome == Fail(FileInUse) ==> securedFileStream.written == old(securedFileStream.written)
    ensures outcome == Fail(ArrayTooLarge) ==> securedFileStream.written == old(securedFileStream.written) + iv
    ensures outcome.Pass? ==>
              numRead <= |originalFileStream.contents| && originalFileStream.position == numRead &&
              (|originalFileStream.contents| > 0 ==> numRead > 0) &&
              securedFileStream.written ==
                old(securedFileStream.written) +
                Seal(cipher, AsciiBytes(passCode), iv, ReadPrefix(originalFileStream.contents, numRead))
  {
    var parts := SplitExtension(rawFilePath);
    securedPath := parts.stem + SecuredExtension;
    numRead := 0;
    if securedPath == rawFilePath {
      return securedPath, Fail(FileInUse), numRead;
    }
    var key := AsciiBytes(passCode);
    securedFileStream.Write(iv);
    if |originalFileStream.contents| > MaxArrayLength {
      return securedPath, Fail(ArrayTooLarge), numRead;
    }
    outcome := Pass;
    var originalFileBuffer := new byte[|originalFileStream.contents|](_ => 0);
    var n := originalFileStream.Read(originalFileBuffer, 0, originalFileBuffer.Length);
    numRead := n;
    assert originalFileBuffer[..] == ReadPrefix(originalFileStream.contents, numRead);
    securedFileStream.Write(cipher.encrypt(key, iv, originalFileBuffer[..]));
  }

  /** Main.cs:170-231: name the output after the container's stem and the
      normalised extension, read the IV, collect the decrypted bytes, and
      make the final `Read` that finds the stream at its end. When the
      output name is the container path (the extension normalises to
      ".ssf"), creating it while the container is open fails and nothing is
      read. */
  method Access(rawFilePath: string, securedFileStream: FileSource, passCode: string,
                rawFileExtension: string, cipher: Cipher)
    returns (newFilePath: string, decrypted: Result<seq<byte>>)
    requires IsSecuredPath(rawFilePath)
    requires securedFileStream.Valid() && |passCode| == KeyLength
    modifies securedFileStream
    ensures newFilePath == rawFilePath[..|rawFilePath| - |SecuredExtension|] + NormalizeExtension(rawFileExtension)
    ensures newFilePath == rawFilePath ==>
              decrypted == Err(FileInUse) && securedFileStream.position == old(securedFileStream.position)
    ensures newFilePath != rawFilePath ==>
              decrypted == Unseal(cipher, AsciiBytes(passCode), old(securedFileStream.Remaining()))
  {
    newFilePath := DecryptedName(rawFilePath, rawFileExtension);
    if newFilePath == rawFilePath {
      return newFilePath, Err(FileInUse);
    }
    decrypted := DecryptContainer(securedFileStream, AsciiBytes(passCode), cipher);
  }

  /** One file through `Secure` and then `Access`, with the same passphrase
      and the original extension asked for. A file already named ".ssf"
      cannot be secured in place, nor can one longer than the largest array.
      Any other file comes back under its
      original path with the bytes `Secure` read (all of them when its read
      was not short). */
  method SecureThenAccess(rawFilePath: string, rawPassword: string, contents: seq<byte>,
                          iv: seq<byte>, cipher: Cipher, rawFileExtension: string)
    returns (secured: Outcome, restoredPath: string, restored: Result<seq<byte>>, ghost numRead: nat)
    requires Inverts(cipher) && |rawPassword| > 0 && |iv| == IvLength
    requires SplitExtension(rawFilePath).extension.Some? ==>
               var ext := SplitExtension(rawFilePath).extension.value;
               rawFileExtension == ext || (|ext| > 1 && rawFileExtension == ext[1..])
    requires SplitExtension(rawFilePath).extension.None? ==> rawFileExtension == []
    ensures secured == if IsSecuredPath(rawFilePath) then Fail(FileInUse)
                       else if |contents| > MaxArrayLength then Fail(ArrayTooLarge)
                       else Pass
    ensures secured.Pass? ==> restoredPath == rawFilePath
    ensures secured.Pass? ==> numRead <= |contents| && restored == Ok(ReadPrefix(contents, numRead))
    ensures secured.Pass? && numRead == |contents| ==> restored == Ok(contents)
  {
    var passCode := NormalizePassword(rawPassword);
    var originalFileStream := new FileSource(contents);
    var securedFileStream := new FileSink();
    var securedPath;
    SecuredNameIsInput(rawFilePath);
    securedPath, secured, numRead := Secure(rawFilePath, originalFileStream, passCode, iv, cipher, securedFileStream);
    if secured.Fail? {
      return secured, rawFilePath, Err(secured.error), numRead;
    }
    var container := new FileSource(securedFileStream.written);
    SecuredNameRoundTrip(rawFilePath);
    // Both sides use the key derived from the passphrase.
    ghost var key := PasswordKey(rawPassword);
    assert AsciiBytes(passCode) == key;
    KeyIsSixteenBytes(rawPassword);
    UnsealSeal(cipher, key, iv, ReadPrefix(contents, numRead));
    assert |ReadPrefix(contents, numRead)| <= MaxArrayLength;
    DecryptedNameRestoresOriginal(rawFilePath, rawFileExtension);
    restoredPath, restored := Access(securedPath, container, passCode, rawFileExtension, cipher);
  }
}

/** The three streams the secure-file transform touches, as objects whose
    position or contents change in place: a file opened for reading, a file
    created for writing, and the decrypting `CryptoStream` of `Access`. */
module Streams {
  import opened Common

  /** The counts a read may return when `available` bytes could be delivered:
      any positive number up to `available`, and 0 only when it is 0. */
  predicate ShortRead(n: nat, available: nat)
  {
    if available == 0 then n == 0 else 0 < n <= available
  }

  /** A `FileStream` opened with `FileMode.Open`: fixed contents, a position. */
  class FileSource {
    const contents: seq<byte>
    var position: nat

    ghost predicate Valid()
      reads this
    {
      position <= |contents|
    }

    /** The bytes not read yet. */
    function Remaining(): seq<byte>
      reads this
      requires Valid()
    {
      contents[position..]
    }

    constructor (contents: seq<byte>)
      ensures this.contents == contents && position == 0 && Valid()
    {
      this.contents := contents;
      position := 0;
    }

    /** `Stream.Read(buffer, offset, count)`: copies the next `n` unread bytes
        into `buffer[offset..offset + n]`. A read may be short: `n` is any
        count from 1 up to what was asked and is available; it is 0 only when
        nothing was asked or the stream is exhausted. */
    method Read(buffer: array<byte>, offset: nat, count: nat) returns (n: nat)
      requires Valid() && offset + count <= buffer.Length
      modifies this, buffer
      ensures Valid()
      ensures n <= count && position == old(position) + n
      ensures n == 0 <==> count == 0 || old(position) == |contents|
      ensures buffer[..offset] == old(buffer[..offset])
      ensures buffer[offset..offset + n] == contents[old(position)..position]
      ensures buffer[offset + n..] == old(buffer[offset + n..])
    {
      var available: nat := Min(count, |contents| - position);
      assert ShortRead(available, available);
      n :| ShortRead(n, available);
      assert ShortRead(n, available);
      forall i | 0 <= i < n {
        buffer[offset + i] := contents[position + i];
      }
      position := position + n;
    }
  }

  /** A `FileStream` created with `FileMode.Create`: everything written to it. */
  class FileSink {
    var written: seq<byte>

    constructor ()
      ensures written == []
    {
      written := [];
    }

    method Write(bytes: seq<byte>)
      modifies this
      ensures written == old(written) + bytes
    {
      written := written + bytes;
    }
  }

  /** What a decryptor delivers for a ciphertext: the bytes of the blocks it
      decrypted, and whether the padding check of the last block passed. A
      wrong key still yields the blocks before the last one. */
  datatype Decryption = Decryption(plaintext: seq<byte>, intact: bool)

  /** A `CryptoStream` in read mode over a decryptor. It yields `plaintext`
      byte by byte; at the end it either reports the end of the stream or,
      when the padding check of the last block fails (`intact` is false),
      raises the decryption error. */
  class DecryptingStream {
    const plaintext: seq<byte>
    const intact: bool
    var position: nat

    ghost predicate Valid()
      reads this
    {
      position <= |plaintext|
    }

    function Remaining(): seq<byte>
      reads this
      requires Valid()
    {
      plaintext[position..]
    }

    /** A stream over what the cipher's decrypt function produced: its
        bytes, then the end of the stream or the error. */
    constructor (decrypted: Decryption)
      ensures Valid() && position == 0
      ensures intact == decrypted.intact
      ensures plaintext == decrypted.plaintext
    {
      intact := decrypted.intact;
      plaintext := decrypted.plaintext;
      position := 0;
    }

    /** `Stream.ReadByte`: the next byte as 0..255, or -1 at the end. */
    method ReadByte() returns (r: Result<int>)
      requires Valid()
      modifies this
      ensures Valid()
      ensures old(position) < |plaintext| ==>
                position == old(position) + 1 && r == Ok(plaintext[old(position)] as int)
      ensures old(position) == |plaintext| ==>
                position == old(position) &&
                r == if intact then Ok(-1) else Err(DecryptionFailed)
    {
      if position < |plaintext| {
        r := Ok(plaintext[position] as int);
        position := position + 1;
      } else {
        r := if intact then Ok(-1) else Err(DecryptionFailed);
      }
    }

    /** `Stream.Read(buffer)`: fills a prefix of `buffer` with the next
        bytes (possibly fewer than fit); at the end it returns 0 and leaves
        `buffer` as it was. */
    method Read(buffer: array<byte>) returns (r: Result<nat>)
      requires Valid()
      modifies this, buffer
      ensures Valid()
      ensures r.Ok? ==> r.value <= buffer.Length && position == old(position) + r.value
      ensures r.Ok? ==> buffer[..r.value] == plaintext[old(position)..position]
      ensures r.Ok? ==> buffer[r.value..] == old(buffer[r.value..])
      ensures (r.Ok? && r.value == 0) <==> ((intact && old(position) == |plaintext|) || buffer.Length == 0)
      ensures r.Err? <==> !intact && old(position) == |plaintext| && buffer.Length > 0
      ensures r.Err? ==> position == old(position) && buffer[..] == old(buffer[..])
    {
      var available: nat := Min(buffer.Length, |plaintext| - position);
      if available == 0 && !intact && buffer.Length > 0 {
        return Err(DecryptionFailed);
      }
      assert ShortRead(available, available);
      var n: nat :| ShortRead(n, available);
      assert ShortRead(n, available);
      forall i | 0 <= i < n {
        buffer[i] := plaintext[position + i];
      }
      position := position + n;
      r := Ok(n);
    }
  }
}

/** Shared vocabulary: bytes, the result wrapper used for the error paths,
    and the error kinds the encrypt/decrypt operations can report. */
module Common {

  /** An unsigned 8-bit value, as stored in a `byte[]`. */
  newtype byte = x: int | 0 <= x < 256

  /** The error kinds of the secure-file transform. */
  datatype Error =
    | DecryptionFailed   // the cipher rejected the padding/format of the ciphertext
    | FileInUse          // the output path is the input path: opening it a second time fails
    | ArrayTooLarge      // a byte array or list would exceed the runtime's largest array length

  /** The most elements a single .NET array (and so a `List<T>`) can hold,
      `Array.MaxLength`; allocating more throws `OutOfMemoryException`. */
  const MaxArrayLength: nat := 0x7FFF_FFC7

  /** Success or failure of an operation that returns nothing else. */
  datatype Outcome = Pass | Fail(error: Error)

  datatype Option<T> = None | Some(value: T)

  datatype Result<T> = Ok(value: T) | Err(error: Error)

  function Min(a: int, b: int): (m: int)
    ensures m <= a && m <= b && (m == a || m == b)
  {
    if a <= b then a else b
  }

  /** `n` zero bytes: what a freshly allocated `byte[n]` holds. */
  function Zeros(n: nat): (z: seq<byte>)
    ensures |z| == n && forall i :: 0 <= i < n ==> z[i] == 0
  {
    seq(n, _ => 0)
  }
}

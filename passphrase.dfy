/** The key normaliser of `GetPasswordFromUser` (Main.cs): a non-empty
    passphrase becomes exactly sixteen characters, and those characters become
    the 128-bit cipher key through a one-byte-per-character ASCII encoding. */
module Passphrase {
  import opened Common

  /** Length of the normalised password, and so of the AES-128 key. */
  const KeyLength: nat := 16

  /** `raw` written `k` times one after another. */
  function Repeat(raw: string, k: nat): string
  {
    if k == 0 then [] else Repeat(raw, k - 1) + raw
  }

  /** Reference definition of the normalised password: the first sixteen
      characters of `raw` repeated without end. */
  function NormalizedPassword(raw: string): (password: string)
    requires |raw| > 0
    ensures |password| == KeyLength
    ensures |raw| <= KeyLength ==> password[..|raw|] == raw
    ensures |raw| >= KeyLength ==> password == raw[..KeyLength]
    ensures forall i :: 0 <= i < KeyLength ==> password[i] == raw[i % |raw|]
  {
    var password := seq(KeyLength, i requires 0 <= i < KeyLength => raw[i % |raw|]);
    assert forall i :: 0 <= i < |raw| && i < KeyLength ==> password[i] == raw[i] by {
      forall i | 0 <= i < |raw| && i < KeyLength ensures password[i] == raw[i] {
        ModUnique(i, |raw|, 0, i);
      }
    }
    password
  }

  lemma MulStep(k: int, n: int)
    ensures (k + 1) * n == k * n + n
  {
  }

  lemma MulSub(a: int, b: int, n: int)
    ensures (a - b) * n == a * n - b * n
  {
  }

  lemma {:induction false} MulAtLeast(k: nat, n: nat)
    requires k >= 1
    ensures k * n >= n
  {
    if k > 1 {
      MulAtLeast(k - 1, n);
      MulStep(k - 1, n);
    }
  }

  /** Euclidean remainder is determined by any quotient/remainder split. */
  lemma ModUnique(x: int, n: int, q: int, r: int)
    requires n > 0 && 0 <= r < n && x == q * n + r
    ensures x % n == r
  {
    var d, m := x / n, x % n;
    assert x == d * n + m;
    MulSub(q, d, n);
    if q > d {
      MulAtLeast(q - d, n);
    } else if q < d {
      MulSub(d, q, n);
      MulAtLeast(d - q, n);
    }
  }

  /** Position `i` of `raw` repeated `k` times holds `raw[i % |raw|]`. */
  lemma {:induction false} RepeatAt(raw: string, k: nat, i: nat)
    requires |raw| > 0
    ensures |Repeat(raw, k)| == k * |raw|
    ensures i < k * |raw| ==> Repeat(raw, k)[i] == raw[i % |raw|]
  {
    if k > 0 {
      RepeatAt(raw, k - 1, i);
      var m := (k - 1) * |raw|;
      MulStep(k - 1, |raw|);
      if m <= i < k * |raw| {
        ModUnique(i, |raw|, k - 1, i - m);
      }
    }
  }

  /** The padding loop of Main.cs:103-114: a password whose length is not 16
      is extended by appending `raw` until it is at least 16 long; the first
      16 characters are kept. */
  method NormalizePassword(raw: string) returns (password: string)
    requires |raw| > 0
    ensures password == NormalizedPassword(raw)
  {
    password := raw;
    ghost var k: nat := 1;
    if |password| != KeyLength {
      while |password| < KeyLength
        invariant k >= 1 && password == Repeat(raw, k)
        decreases KeyLength - |password|
      {
        password := password + raw;
        k := k + 1;
      }
    }
    RepeatAt(raw, k, 0);
    MulAtLeast(k, |raw|);
    password := password[..KeyLength];
    forall i | 0 <= i < KeyLength
      ensures password[i] == raw[i % |raw|]
    {
      RepeatAt(raw, k, i);
    }
  }

  /** A passphrase of exactly sixteen characters is used unchanged. */
  lemma ExactPasswordUnchanged(raw: string)
    requires |raw| == KeyLength
    ensures NormalizedPassword(raw) == raw
  {
  }

  /** A passphrase longer than sixteen characters is cut to its first sixteen. */
  lemma LongPasswordTruncated(raw: string)
    requires |raw| > KeyLength
    ensures NormalizedPassword(raw) == raw[..KeyLength]
  {
  }

  /** A shorter passphrase is repeated, not padded or rotated: the normalised
      password starts with `raw` and repeats with period `|raw|`. */
  lemma {:induction false} ShortPasswordRepeats(raw: string, i: nat)
    requires 0 < |raw| < KeyLength
    requires i + |raw| < KeyLength
    ensures NormalizedPassword(raw)[..|raw|] == raw
    ensures NormalizedPassword(raw)[i + |raw|] == NormalizedPassword(raw)[i]
  {
    var n := |raw|;
    var q, r := i / n, i % n;
    assert i == q * n + r;
    MulStep(q, n);
    ModUnique(i + n, n, q + 1, r);
    forall j | 0 <= j < n ensures NormalizedPassword(raw)[j] == raw[j] {
      ModUnique(j, n, 0, j);
    }
  }

  lemma MulAssoc(a: int, b: int, c: int)
    ensures a * (b * c) == (a * b) * c
  {
  }

  /** Position `i` of the doubled passphrase, read cyclically, is position
      `i` of the passphrase, read cyclically. */
  lemma DoubledAt(raw: string, i: nat)
    requires |raw| > 0
    ensures (raw + raw)[i % (2 * |raw|)] == raw[i % |raw|]
  {
    var n := |raw|;
    var q, r := i / (2 * n), i % (2 * n);
    assert i == q * (2 * n) + r;
    MulAssoc(q, 2, n);
    if r < n {
      ModUnique(i, n, 2 * q, r);
    } else {
      MulStep(2 * q, n);
      ModUnique(i, n, 2 * q + 1, r - n);
    }
  }

  /** A passphrase and the same passphrase typed twice give the same key:
      repetition adds nothing, as the key is periodic in the passphrase. */
  lemma DoubledPasswordSameKey(raw: string)
    requires |raw| > 0
    ensures NormalizedPassword(raw + raw) == NormalizedPassword(raw)
  {
    var doubled, once := NormalizedPassword(raw + raw), NormalizedPassword(raw);
    forall i | 0 <= i < KeyLength
      ensures doubled[i] == once[i]
    {
      DoubledAt(raw, i);
    }
  }

  /** `Encoding.ASCII` applied to one character: ASCII characters keep their
      code, every other character becomes '?'. */
  function AsciiByte(c: char): (b: byte)
    ensures c as int < 128 ==> b as int == c as int
    ensures c as int >= 128 ==> b as int == '?' as int
  {
    if c as int < 128 then c as int as byte else '?' as int as byte
  }

  /** `Encoding.ASCII.GetBytes`: one byte per character. */
  function AsciiBytes(s: string): (bytes: seq<byte>)
    ensures |bytes| == |s|
    ensures forall i :: 0 <= i < |s| ==> bytes[i] == AsciiByte(s[i])
  {
    seq(|s|, i requires 0 <= i < |s| => AsciiByte(s[i]))
  }

  /** The cipher key derived from a passphrase (Main.cs:140, Main.cs:218). */
  function PasswordKey(raw: string): (key: seq<byte>)
    requires |raw| > 0
    ensures |key| == KeyLength
    ensures forall i :: 0 <= i < KeyLength ==> key[i] == AsciiByte(raw[i % |raw|])
  {
    AsciiBytes(NormalizedPassword(raw))
  }

  /** For every non-empty passphrase the key is exactly 16 bytes, and for an
      ASCII passphrase byte `i` is the code of `raw[i % |raw|]`. */
  lemma KeyIsSixteenBytes(raw: string)
    requires |raw| > 0
    ensures |PasswordKey(raw)| == KeyLength
    ensures forall i :: 0 <= i < KeyLength && raw[i % |raw|] as int < 128 ==>
              PasswordKey(raw)[i] as int == raw[i % |raw|] as int
  {
  }
}

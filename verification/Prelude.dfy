/** Vocabulary shared by every component: bytes, fixed-width encodings and the two result types. */
module Prelude {

  type Byte = b: int | 0 <= b < 256

  type Bytes = seq<Byte>

  datatype Option<+T> = None | Some(value: T)

  datatype Result<+T, +E> = Ok(value: T) | Err(error: E)

  const U16_MAX := 65535
  const U32_MAX := 0xFFFF_FFFF

  /** `(n as u16).to_be_bytes()`: the cast keeps the low sixteen bits. */
  function U16Be(n: nat): (r: Bytes)
    ensures |r| == 2
  {
    [n / 256 % 256, n % 256]
  }

  /** `u16::from_be_bytes`. */
  function U16From(b: Bytes): nat
    requires |b| == 2
  {
    b[0] as int * 256 + b[1] as int
  }

  lemma U16RoundTrip(n: nat)
    requires n <= U16_MAX
    ensures U16From(U16Be(n)) == n
  {
  }

  lemma U16Inverse(b: Bytes)
    requires |b| == 2
    ensures U16Be(U16From(b)) == b
    ensures U16From(b) <= U16_MAX
  {
  }

  /** Big-endian digits of `n` on `width` bytes, low digits only when `n` is too large. */
  function BigEndian(n: nat, width: nat): (r: Bytes)
    ensures |r| == width
  {
    if width == 0 then [] else BigEndian(n / 256, width - 1) + [n % 256]
  }

  function FromBigEndian(b: Bytes): nat {
    if b == [] then 0 else FromBigEndian(b[..|b| - 1]) * 256 + b[|b| - 1]
  }

  function Pow256(width: nat): (r: nat)
    ensures r >= 1
  {
    if width == 0 then 1 else 256 * Pow256(width - 1)
  }

  lemma {:induction false} BigEndianRoundTrip(n: nat, width: nat)
    requires n < Pow256(width)
    ensures FromBigEndian(BigEndian(n, width)) == n
  {
    if width > 0 {
      BigEndianRoundTrip(n / 256, width - 1);
      assert BigEndian(n, width)[..width - 1] == BigEndian(n / 256, width - 1);
    }
  }

  lemma {:induction false} BigEndianInverse(b: Bytes)
    ensures BigEndian(FromBigEndian(b), |b|) == b
    ensures FromBigEndian(b) < Pow256(|b|)
  {
    if b != [] {
      BigEndianInverse(b[..|b| - 1]);
    }
  }

  lemma Append<T>(a: seq<T>, b: seq<T>, c: seq<T>)
    ensures a + (b + c) == (a + b) + c
  {
  }

  lemma Slices<T>(s: seq<T>, i: nat, j: nat, k: nat)
    requires i <= j <= k <= |s|
    ensures s[i..j] + s[j..k] == s[i..k]
  {
  }

  /** A prefix is a common beginning and a prefix of what follows. */
  lemma PrefixJoins<T>(a: seq<T>, b: seq<T>, k: nat)
    requires k <= |a| && k <= |b| && a[..k] == b[..k] && a[k..] <= b[k..]
    ensures a <= b
  {
    assert a == a[..k] + a[k..] && b == b[..k] + b[k..];
  }

  /** Two concatenations whose first parts have one length split the same way. */
  lemma SplitConcat<T>(a: seq<T>, b: seq<T>, c: seq<T>, d: seq<T>)
    requires a + b == c + d
    requires |a| == |c|
    ensures a == c && b == d
  {
    assert a == (a + b)[..|a|] == (c + d)[..|c|] == c;
    assert b == (a + b)[|a|..] == (c + d)[|c|..] == d;
  }
}

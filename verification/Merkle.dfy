/** The Merkle tree of RFC 6962 (section 2.1) and its provers (sections 2.1.1 and 2.1.2), over an
    arbitrary hash function `H` with 32-byte outputs. */
module Merkle {
  import opened Prelude

  type Digest = d: Bytes | |d| == 32 witness seq(32, _ => 0)

  /** SHA-256 is never opened: every result below holds for any function of this type. */
  type Hasher = Bytes -> Digest

  const LEAF_PREFIX: Byte := 0x00
  const NODE_PREFIX: Byte := 0x01

  datatype LogError = OutOfRange | BadProof | BadRange

  function LeafHash(H: Hasher, contents: Bytes): Digest {
    H([LEAF_PREFIX] + contents)
  }

  function NodeInput(left: Digest, right: Digest): Bytes {
    [NODE_PREFIX] + left + right
  }

  function NodeHash(H: Hasher, left: Digest, right: Digest): Digest {
    H(NodeInput(left, right))
  }

  /** Collision freedom on the inputs named by `S` and nothing else. A hash with 32-byte outputs
      cannot be injective on all inputs, so a statement about a proof always says **which** inputs
      its computation hashed: an attacker who defeats it has found two of those that collide. */
  ghost predicate NoCollision(H: Hasher, S: set<Bytes>) {
    forall x, y | x in S && y in S && H(x) == H(y) :: x == y
  }

  lemma NodeInjective(H: Hasher, S: set<Bytes>, a: Digest, b: Digest, c: Digest, d: Digest)
    requires NoCollision(H, S)
    requires NodeInput(a, b) in S && NodeInput(c, d) in S
    requires NodeHash(H, a, b) == NodeHash(H, c, d)
    ensures a == c && b == d
  {
    assert [NODE_PREFIX] + a + b == [NODE_PREFIX] + c + d;
    SplitConcat([NODE_PREFIX] + a, b, [NODE_PREFIX] + c, d);
    SplitConcat([NODE_PREFIX], a, [NODE_PREFIX], c);
  }

  // ------------------------------------------------------------------ split point

  ghost predicate IsPow2(p: nat) {
    p == 1 || (p > 1 && p % 2 == 0 && IsPow2(p / 2))
  }

  lemma {:induction false} Pow2Unique(p: nat, q: nat, n: nat)
    requires IsPow2(p) && IsPow2(q)
    requires p < n <= 2 * p && q < n <= 2 * q
    ensures p == q
  {
    if p > 1 && q > 1 {
      Pow2Unique(p / 2, q / 2, (n + 1) / 2);
    }
  }

  /** The power of two strictly below `n` and at least half of it. */
  function SplitPoint(n: nat): (k: nat)
    requires n > 1
    ensures 1 <= k < n <= 2 * k
  {
    if n == 2 then 1 else 2 * SplitPoint((n + 1) / 2)
  }

  lemma SplitIsPow2(n: nat)
    requires n > 1
    ensures IsPow2(SplitPoint(n))
  {
  }

  /** `split_point` as written: doubling until the next double would reach `n`. */
  method ComputeSplitPoint(n: nat) returns (k: nat)
    requires n > 1
    ensures k == SplitPoint(n)
  {
    k := 1;
    while k * 2 < n
      invariant IsPow2(k) && k < n
    {
      k := k * 2;
    }
    SplitIsPow2(n);
    Pow2Unique(k, SplitPoint(n), n);
  }

  /** A prefix reaching past the split of the whole splits at the same place: the left part of the
      tree is never reorganised by an append. */
  lemma {:induction false} SplitStable(m: nat, n: nat)
    requires 1 < m <= n && SplitPoint(n) < m
    ensures SplitPoint(m) == SplitPoint(n)
  {
    SplitIsPow2(m);
    SplitIsPow2(n);
    Pow2Unique(SplitPoint(m), SplitPoint(n), m);
  }

  // ------------------------------------------------------------------ tree and proofs

  function Root(H: Hasher, leaves: seq<Digest>): Digest {
    if |leaves| == 0 then H([])
    else if |leaves| == 1 then leaves[0]
    else
      var k := SplitPoint(|leaves|);
      NodeHash(H, Root(H, leaves[..k]), Root(H, leaves[k..]))
  }

  /** Every input hashed while computing `Root(H, leaves)` is in `S`. */
  ghost predicate TreeHashedIn(H: Hasher, S: set<Bytes>, leaves: seq<Digest>) {
    |leaves| > 1 ==>
      var k := SplitPoint(|leaves|);
      && NodeInput(Root(H, leaves[..k]), Root(H, leaves[k..])) in S
      && TreeHashedIn(H, S, leaves[..k]) && TreeHashedIn(H, S, leaves[k..])
  }

  function InclusionProof(H: Hasher, leaves: seq<Digest>, index: nat): (r: Result<seq<Digest>, LogError>)
    ensures r.Ok? <==> index < |leaves|
    ensures r.Err? ==> r.error == OutOfRange
  {
    if index >= |leaves| then Err(OutOfRange)
    else if |leaves| == 1 then Ok([])
    else
      var k := SplitPoint(|leaves|);
      if index < k then
        Ok(InclusionProof(H, leaves[..k], index).value + [Root(H, leaves[k..])])
      else
        Ok(InclusionProof(H, leaves[k..], index - k).value + [Root(H, leaves[..k])])
  }

  function ConsistencyProof(H: Hasher, leaves: seq<Digest>, from: nat): (r: Result<seq<Digest>, LogError>)
    ensures r.Ok? <==> 0 < from <= |leaves|
    ensures r.Err? ==> r.error == BadRange
  {
    if from == 0 || from > |leaves| then Err(BadRange)
    else if from == |leaves| then Ok([])
    else Ok(SubtreeProof(H, leaves, from, true))
  }

  function SubtreeProof(H: Hasher, leaves: seq<Digest>, from: nat, complete: bool): seq<Digest>
    requires 0 < from <= |leaves|
    decreases |leaves|
  {
    if from == |leaves| then
      if complete then [] else [Root(H, leaves)]
    else
      var k := SplitPoint(|leaves|);
      if from <= k then
        SubtreeProof(H, leaves[..k], from, complete) + [Root(H, leaves[k..])]
      else
        SubtreeProof(H, leaves[k..], from - k, false) + [Root(H, leaves[..k])]
  }

  /** Two lists of one length with one root are one list. */
  lemma {:induction false} RootInjective(H: Hasher, S: set<Bytes>, a: seq<Digest>, b: seq<Digest>)
    requires NoCollision(H, S)
    requires TreeHashedIn(H, S, a) && TreeHashedIn(H, S, b)
    requires |a| == |b| && Root(H, a) == Root(H, b)
    ensures a == b
    decreases |a|
  {
    if |a| > 1 {
      var k := SplitPoint(|a|);
      NodeInjective(H, S, Root(H, a[..k]), Root(H, a[k..]), Root(H, b[..k]), Root(H, b[k..]));
      RootInjective(H, S, a[..k], b[..k]);
      RootInjective(H, S, a[k..], b[k..]);
      assert a == a[..k] + a[k..] && b == b[..k] + b[k..];
    }
  }
}

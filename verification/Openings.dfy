/** What a proof means: a path from one node of a tree up to its root, with the siblings met on the way.

    The provers build a path by recursion over the splits of the tree and the verifiers consume it by
    loops over the bits of two indices. An `Opening` is the shape both are measured against: module
    `Verifier` proves the loops equal to it, `LogTheorems` proves what accepting one guarantees. */
module Openings {
  import opened Prelude
  import opened Merkle

  /** `LeftOf(p, h)`: the path is in the left half and `h` is the root of the right half. */
  datatype Opening = Seed(hash: Digest) | LeftOf(part: Opening, right: Digest) | RightOf(left: Digest, part: Opening)

  /** Root of the whole tree the path belongs to. */
  function Outer(H: Hasher, o: Opening): Digest {
    match o
    case Seed(h) => h
    case LeftOf(p, r) => NodeHash(H, Outer(H, p), r)
    case RightOf(l, p) => NodeHash(H, l, Outer(H, p))
  }

  /** Root of the tree made of the seed and everything to its left: right halves are not there yet. */
  function Inner(H: Hasher, o: Opening): Digest {
    match o
    case Seed(h) => h
    case LeftOf(p, _) => Inner(H, p)
    case RightOf(l, p) => NodeHash(H, l, Inner(H, p))
  }

  function SeedOf(o: Opening): Digest {
    match o
    case Seed(h) => h
    case LeftOf(p, _) => SeedOf(p)
    case RightOf(_, p) => SeedOf(p)
  }

  /** Siblings from the deepest to the topmost, the order every proof uses. */
  function Siblings(o: Opening): seq<Digest> {
    match o
    case Seed(_) => []
    case LeftOf(p, r) => Siblings(p) + [r]
    case RightOf(l, p) => Siblings(p) + [l]
  }

  /** Every input hashed while computing both roots is in `S`. */
  ghost predicate HashedIn(H: Hasher, S: set<Bytes>, o: Opening) {
    match o
    case Seed(_) => true
    case LeftOf(p, r) => NodeInput(Outer(H, p), r) in S && HashedIn(H, S, p)
    case RightOf(l, p) => NodeInput(l, Outer(H, p)) in S && NodeInput(l, Inner(H, p)) in S && HashedIn(H, S, p)
  }

  // ------------------------------------------------------------------ consistency shape

  /** `o` leads to the last complete subtree of the first `m` leaves of a tree of `n`. */
  ghost predicate Fits(o: Opening, m: nat, n: nat)
    requires 0 < m <= n
  {
    if m == n then o.Seed?
    else if m <= SplitPoint(n) then o.LeftOf? && Fits(o.part, m, SplitPoint(n))
    else o.RightOf? && Fits(o.part, m - SplitPoint(n), n - SplitPoint(n))
  }

  /** The first `m` leaves are one complete subtree of the tree of `n`. */
  ghost predicate Complete(m: nat, n: nat)
    requires 0 < m <= n
  {
    m == n || (m <= SplitPoint(n) && Complete(m, SplitPoint(n)))
  }

  ghost function Open(m: nat, n: nat, seed: Digest, siblings: seq<Digest>): (r: Option<Opening>)
    requires 0 < m <= n
    decreases n
  {
    if m == n then
      if siblings == [] then Some(Seed(seed)) else None
    else if siblings == [] then None
    else
      var k, deeper, top := SplitPoint(n), siblings[..|siblings| - 1], siblings[|siblings| - 1];
      if m <= k then
        match Open(m, k, seed, deeper) case None => None case Some(p) => Some(LeftOf(p, top))
      else
        match Open(m - k, n - k, seed, deeper) case None => None case Some(p) => Some(RightOf(top, p))
  }

  lemma {:induction false} OpenExact(m: nat, n: nat, seed: Digest, siblings: seq<Digest>, o: Opening)
    requires 0 < m <= n
    ensures Open(m, n, seed, siblings) == Some(o)
       <==> Fits(o, m, n) && SeedOf(o) == seed && Siblings(o) == siblings
    decreases n
  {
    if m < n && !o.Seed? {
      var k := SplitPoint(n);
      var top := if o.LeftOf? then o.right else o.left;
      assert Siblings(o) == Siblings(o.part) + [top];
      if siblings != [] {
        var deeper := siblings[..|siblings| - 1];
        assert siblings == deeper + [siblings[|siblings| - 1]];
        if m <= k { OpenExact(m, k, seed, deeper, o.part); } else { OpenExact(m - k, n - k, seed, deeper, o.part); }
      }
    }
  }

  /** The opening a consistency proof stands for. The seed of a complete subtree is the old root, which
      the verifier holds already; any other seed is the first element of the proof. */
  ghost function Opened(m: nat, first: Digest, n: nat, proof: seq<Digest>): Option<Opening>
    requires 0 < m <= n
  {
    if Complete(m, n) then Open(m, n, first, proof)
    else if proof == [] then None
    else Open(m, n, proof[0], proof[1..])
  }

  /** The head `(n, second)` is accepted as extending `(m, first)` on the strength of `proof`. */
  ghost predicate Extends(H: Hasher, m: nat, first: Digest, n: nat, second: Digest, proof: seq<Digest>) {
    && 0 < m <= n
    && Opened(m, first, n, proof).Some?
    && Inner(H, Opened(m, first, n, proof).value) == first
    && Outer(H, Opened(m, first, n, proof).value) == second
  }

  /** Every input hashed while checking the proof is in `S`. */
  ghost predicate CheckHashedIn(H: Hasher, S: set<Bytes>, m: nat, first: Digest, n: nat, proof: seq<Digest>) {
    0 < m <= n && Opened(m, first, n, proof).Some? ==> HashedIn(H, S, Opened(m, first, n, proof).value)
  }

  /** The proof an opening is written as. */
  ghost function Written(o: Opening, m: nat, n: nat): seq<Digest>
    requires 0 < m <= n
  {
    if Complete(m, n) then Siblings(o) else [SeedOf(o)] + Siblings(o)
  }

  lemma {:induction false} CompleteSeed(H: Hasher, o: Opening, m: nat, n: nat)
    requires 0 < m <= n && Fits(o, m, n) && Complete(m, n)
    ensures Inner(H, o) == SeedOf(o)
  {
    if m < n { CompleteSeed(H, o.part, m, SplitPoint(n)); }
  }

  /** Acceptance, read off an opening: the proof is the written form of one with those two roots. */
  lemma ExtendsByOpening(H: Hasher, o: Opening, m: nat, n: nat)
    requires 0 < m <= n && Fits(o, m, n)
    ensures Opened(m, Inner(H, o), n, Written(o, m, n)) == Some(o)
    ensures Extends(H, m, Inner(H, o), n, Outer(H, o), Written(o, m, n))
  {
    OpenExact(m, n, SeedOf(o), Siblings(o), o);
    if Complete(m, n) { CompleteSeed(H, o, m, n); }
  }

  lemma OpeningOfExtends(H: Hasher, m: nat, first: Digest, n: nat, second: Digest, proof: seq<Digest>)
    requires Extends(H, m, first, n, second, proof)
    ensures var o := Opened(m, first, n, proof).value;
            Fits(o, m, n) && Written(o, m, n) == proof
  {
    var o := Opened(m, first, n, proof).value;
    if Complete(m, n) {
      OpenExact(m, n, first, proof, o);
    } else {
      OpenExact(m, n, proof[0], proof[1..], o);
    }
  }

  // ------------------------------------------------------------------ inclusion shape

  ghost predicate FitsLeaf(o: Opening, index: nat, size: nat)
    requires index < size
  {
    if size == 1 then o.Seed?
    else if index < SplitPoint(size) then o.LeftOf? && FitsLeaf(o.part, index, SplitPoint(size))
    else o.RightOf? && FitsLeaf(o.part, index - SplitPoint(size), size - SplitPoint(size))
  }

  ghost function OpenLeaf(index: nat, size: nat, leaf: Digest, siblings: seq<Digest>): (r: Option<Opening>)
    requires index < size
    decreases size
  {
    if size == 1 then
      if siblings == [] then Some(Seed(leaf)) else None
    else if siblings == [] then None
    else
      var k, deeper, top := SplitPoint(size), siblings[..|siblings| - 1], siblings[|siblings| - 1];
      if index < k then
        match OpenLeaf(index, k, leaf, deeper) case None => None case Some(p) => Some(LeftOf(p, top))
      else
        match OpenLeaf(index - k, size - k, leaf, deeper) case None => None case Some(p) => Some(RightOf(top, p))
  }

  lemma {:induction false} OpenLeafExact(index: nat, size: nat, leaf: Digest, siblings: seq<Digest>, o: Opening)
    requires index < size
    ensures OpenLeaf(index, size, leaf, siblings) == Some(o)
       <==> FitsLeaf(o, index, size) && SeedOf(o) == leaf && Siblings(o) == siblings
    decreases size
  {
    if size > 1 && !o.Seed? {
      var k := SplitPoint(size);
      var top := if o.LeftOf? then o.right else o.left;
      assert Siblings(o) == Siblings(o.part) + [top];
      if siblings != [] {
        var deeper := siblings[..|siblings| - 1];
        assert siblings == deeper + [siblings[|siblings| - 1]];
        if index < k {
          OpenLeafExact(index, k, leaf, deeper, o.part);
        } else {
          OpenLeafExact(index - k, size - k, leaf, deeper, o.part);
        }
      }
    }
  }

  /** `leaf` is accepted at `index` of the head `(size, root)`. */
  ghost predicate Includes(H: Hasher, leaf: Digest, index: nat, size: nat, root: Digest, proof: seq<Digest>) {
    && index < size
    && OpenLeaf(index, size, leaf, proof).Some?
    && Outer(H, OpenLeaf(index, size, leaf, proof).value) == root
  }

  ghost predicate InclusionHashedIn(H: Hasher, S: set<Bytes>, leaf: Digest, index: nat, size: nat, proof: seq<Digest>) {
    index < size && OpenLeaf(index, size, leaf, proof).Some? ==>
      HashedIn(H, S, OpenLeaf(index, size, leaf, proof).value)
  }
}

/** The two verifiers of the key log as they are written, loops over bits and directions, proved equal to the
    openings of module `Openings`. */
module Verifier {
  import opened Prelude
  import opened Merkle
  import opened Openings

  // ------------------------------------------------------------------ the walk of verify_consistency

  /** The variables of the loop: indices of the last node of either tree at the current level, and the two
      roots being rebuilt. */
  datatype Walk = Walk(fnode: nat, snode: nat, older: Digest, newer: Digest)

  /** Indices once the levels common to both trees are climbed (first inner loop). */
  function StripOnes(f: nat, s: nat): (nat, nat) {
    if f % 2 == 1 then StripOnes(f / 2, s / 2) else (f, s)
  }

  /** Indices once the levels without a left sibling are climbed (second inner loop). */
  function SkipZeros(f: nat, s: nat): (nat, nat) {
    if f != 0 && f % 2 == 0 then SkipZeros(f / 2, s / 2) else (f, s)
  }

  /** One iteration of the loop over the siblings. */
  function Climb(H: Hasher, w: Walk, sibling: Digest): Walk {
    if w.fnode % 2 == 1 || w.fnode == w.snode then
      var (f, s) := SkipZeros(w.fnode, w.snode);
      Walk(f / 2, s / 2, NodeHash(H, sibling, w.older), NodeHash(H, sibling, w.newer))
    else
      Walk(w.fnode / 2, w.snode / 2, w.older, NodeHash(H, w.newer, sibling))
  }

  /** The whole loop: nothing once a sibling is left over at the root. */
  function ClimbAll(H: Hasher, w: Walk, siblings: seq<Digest>): Option<Walk> {
    if siblings == [] then Some(w)
    else
      match ClimbAll(H, w, siblings[..|siblings| - 1])
      case None => None
      case Some(v) => if v.snode == 0 then None else Some(Climb(H, v, siblings[|siblings| - 1]))
  }

  lemma ClimbOne(H: Hasher, w: Walk, lower: seq<Digest>, top: Digest)
    ensures ClimbAll(H, w, lower + [top])
         == match ClimbAll(H, w, lower)
            case None => None
            case Some(v) => if v.snode == 0 then None else Some(Climb(H, v, top))
  {
    assert (lower + [top])[..|lower|] == lower;
  }

  lemma {:induction false} ClimbStopped(H: Hasher, w: Walk, siblings: seq<Digest>, i: nat)
    requires i <= |siblings| && ClimbAll(H, w, siblings[..i]).None?
    ensures ClimbAll(H, w, siblings).None?
    decreases |siblings| - i
  {
    if i < |siblings| {
      assert siblings[..i + 1] == siblings[..i] + [siblings[i]];
      ClimbOne(H, w, siblings[..i], siblings[i]);
      ClimbStopped(H, w, siblings, i + 1);
    } else {
      assert siblings[..i] == siblings;
    }
  }

  // ------------------------------------------------------------------ walks against splits

  /** The walk in a tree beside the walk in its left half, which is full: `s` is all ones below the top
      bit of `s'`. */
  ghost predicate InLeft(f: nat, s': nat, s: nat) {
    IsPow2(s + 1) && s + 1 <= s' < 2 * (s + 1) && f <= s
  }

  /** The walk in a tree beside the walk in its right half: both indices lose the top bit `p`. */
  ghost predicate InRight(f': nat, s': nat, f: nat, s: nat, p: nat) {
    IsPow2(p) && f' == f + p && s' == s + p && f <= s < p
  }

  ghost predicate BesideLeft(w': Walk, w: Walk) {
    InLeft(w.fnode, w'.snode, w.snode) && w' == w.(snode := w'.snode)
  }

  ghost predicate BesideRight(w': Walk, w: Walk, p: nat) {
    InRight(w'.fnode, w'.snode, w.fnode, w.snode, p) && w' == w.(fnode := w'.fnode, snode := w'.snode)
  }

  lemma {:induction false} StripLeft(f: nat, s': nat, s: nat)
    requires InLeft(f, s', s)
    ensures InLeft(StripOnes(f, s).0, StripOnes(f, s').1, StripOnes(f, s).1)
    ensures StripOnes(f, s').0 == StripOnes(f, s).0
    decreases f
  {
    if f % 2 == 1 { StripLeft(f / 2, s' / 2, s / 2); }
  }

  lemma {:induction false} StripRight(f': nat, s': nat, f: nat, s: nat, p: nat) returns (q: nat)
    requires InRight(f', s', f, s, p) && f + 2 <= p
    ensures InRight(StripOnes(f', s').0, StripOnes(f', s').1, StripOnes(f, s).0, StripOnes(f, s).1, q)
    decreases f
  {
    if f % 2 == 1 { q := StripRight(f' / 2, s' / 2, f / 2, s / 2, p / 2); } else { q := p; }
  }

  lemma {:induction false} SkipRight(f': nat, s': nat, f: nat, s: nat, p: nat) returns (q: nat)
    requires InRight(f', s', f, s, p) && f != 0
    ensures InRight(SkipZeros(f', s').0, SkipZeros(f', s').1, SkipZeros(f, s).0, SkipZeros(f, s).1, q)
    ensures SkipZeros(f, s).0 % 2 == 1
    decreases f
  {
    if f % 2 == 0 { q := SkipRight(f' / 2, s' / 2, f / 2, s / 2, p / 2); } else { q := p; }
  }

  lemma {:induction false} SkipPow2(p: nat)
    requires IsPow2(p)
    ensures SkipZeros(p, p) == (1, 1)
  {
    if p > 1 { SkipPow2(p / 2); }
  }

  lemma ClimbBesideLeft(H: Hasher, w': Walk, w: Walk, sibling: Digest)
    requires BesideLeft(w', w)
    ensures w.snode != 0 ==> BesideLeft(Climb(H, w', sibling), Climb(H, w, sibling))
    ensures w.snode == 0 ==> Climb(H, w', sibling) == Walk(0, 0, w.older, NodeHash(H, w.newer, sibling))
  {
    if w.snode != 0 && w.fnode == w.snode { assert w.fnode % 2 == 1; }
  }

  lemma ClimbBesideRight(H: Hasher, w': Walk, w: Walk, p: nat, sibling: Digest) returns (q: nat)
    requires BesideRight(w', w, p)
    ensures w.snode != 0 ==> BesideRight(Climb(H, w', sibling), Climb(H, w, sibling), q)
    ensures w.snode == 0 ==>
              Climb(H, w', sibling) == Walk(0, 0, NodeHash(H, sibling, w.older), NodeHash(H, sibling, w.newer))
  {
    q := p / 2;
    if w.snode == 0 {
      SkipPow2(p);
    } else if w.fnode % 2 == 1 || w.fnode == w.snode {
      var r := SkipRight(w'.fnode, w'.snode, w.fnode, w.snode, p);
      q := r / 2;
    }
  }

  /** A walk in the left half and the walk of the whole tree stay beside each other. */
  lemma {:induction false} WalkLeft(H: Hasher, w': Walk, w: Walk, siblings: seq<Digest>)
    requires BesideLeft(w', w)
    ensures match (ClimbAll(H, w', siblings), ClimbAll(H, w, siblings))
            case (Some(v'), Some(v)) => BesideLeft(v', v)
            case (Some(v'), None) => v'.snode == 0
            case (None, r) => r.None?
  {
    if siblings != [] {
      var lower, top := siblings[..|siblings| - 1], siblings[|siblings| - 1];
      WalkLeft(H, w', w, lower);
      if ClimbAll(H, w', lower).Some? && ClimbAll(H, w, lower).Some? {
        ClimbBesideLeft(H, ClimbAll(H, w', lower).value, ClimbAll(H, w, lower).value, top);
      }
    }
  }

  lemma {:induction false} WalkRight(H: Hasher, w': Walk, w: Walk, p: nat, siblings: seq<Digest>) returns (q: nat)
    requires BesideRight(w', w, p)
    ensures match (ClimbAll(H, w', siblings), ClimbAll(H, w, siblings))
            case (Some(v'), Some(v)) => BesideRight(v', v, q)
            case (Some(v'), None) => v'.snode == 0
            case (None, r) => r.None?
  {
    q := p;
    if siblings != [] {
      var lower, top := siblings[..|siblings| - 1], siblings[|siblings| - 1];
      q := WalkRight(H, w', w, p, lower);
      if ClimbAll(H, w', lower).Some? && ClimbAll(H, w, lower).Some? {
        q := ClimbBesideRight(H, ClimbAll(H, w', lower).value, ClimbAll(H, w, lower).value, q, top);
      }
    }
  }

  /** The state in which the loop over the siblings starts. */
  function Start(m: nat, n: nat, seed: Digest): Walk
    requires 0 < m <= n
  {
    var (f, s) := StripOnes(m - 1, n - 1);
    Walk(f, s, seed, seed)
  }

  /** Where the walk ends, told by the opening: at the root exactly when the siblings are those of an
      opening, and then with its two roots. */
  ghost predicate EndsAs(H: Hasher, end: Option<Walk>, o: Option<Opening>) {
    match o
    case Some(q) => end == Some(Walk(0, 0, Inner(H, q), Outer(H, q)))
    case None => end.None? || end.value.snode != 0
  }

  lemma {:induction false} StripFull(p: nat)
    requires IsPow2(p)
    ensures StripOnes(p - 1, p - 1) == (0, 0)
  {
    if p > 1 { StripFull(p / 2); }
  }

  /** One split of `WalkIsOpening`: what holds of the walk in the half that contains the seed holds of the
      walk in the whole. */
  lemma WalkIntoLeft(H: Hasher, m: nat, n: nat, seed: Digest, lower: seq<Digest>, top: Digest)
    requires 0 < m < n && m <= SplitPoint(n)
    requires EndsAs(H, ClimbAll(H, Start(m, SplitPoint(n), seed), lower), Open(m, SplitPoint(n), seed, lower))
    ensures EndsAs(H, ClimbAll(H, Start(m, n, seed), lower + [top]), Open(m, n, seed, lower + [top]))
  {
    var k := SplitPoint(n);
    SplitIsPow2(n);
    StripLeft(m - 1, n - 1, k - 1);
    var w', w := Start(m, n, seed), Start(m, k, seed);
    WalkLeft(H, w', w, lower);
    ClimbOne(H, w', lower, top);
    assert (lower + [top])[..|lower|] == lower;
    if ClimbAll(H, w', lower).Some? && ClimbAll(H, w, lower).Some? {
      ClimbBesideLeft(H, ClimbAll(H, w', lower).value, ClimbAll(H, w, lower).value, top);
    }
  }

  lemma WalkIntoRight(H: Hasher, m: nat, n: nat, seed: Digest, lower: seq<Digest>, top: Digest)
    requires 0 < m < n && m > SplitPoint(n)
    requires var k := SplitPoint(n);
             EndsAs(H, ClimbAll(H, Start(m - k, n - k, seed), lower), Open(m - k, n - k, seed, lower))
    ensures EndsAs(H, ClimbAll(H, Start(m, n, seed), lower + [top]), Open(m, n, seed, lower + [top]))
  {
    var k := SplitPoint(n);
    SplitIsPow2(n);
    var p := StripRight(m - 1, n - 1, m - 1 - k, n - 1 - k, k);
    var w', w := Start(m, n, seed), Start(m - k, n - k, seed);
    p := WalkRight(H, w', w, p, lower);
    ClimbOne(H, w', lower, top);
    assert (lower + [top])[..|lower|] == lower;
    if ClimbAll(H, w', lower).Some? && ClimbAll(H, w, lower).Some? {
      p := ClimbBesideRight(H, ClimbAll(H, w', lower).value, ClimbAll(H, w, lower).value, p, top);
    }
  }

  /** Before the first sibling the walk of a larger tree is not at its root. */
  lemma StartBelowRoot(m: nat, n: nat, seed: Digest)
    requires 0 < m < n
    ensures Start(m, n, seed).snode != 0
  {
    var k := SplitPoint(n);
    SplitIsPow2(n);
    if m <= k {
      StripLeft(m - 1, n - 1, k - 1);
    } else {
      var p := StripRight(m - 1, n - 1, m - 1 - k, n - 1 - k, k);
    }
  }

  lemma {:induction false} WalkIsOpening(H: Hasher, m: nat, n: nat, seed: Digest, siblings: seq<Digest>)
    requires 0 < m <= n && (m < n || IsPow2(n))
    ensures EndsAs(H, ClimbAll(H, Start(m, n, seed), siblings), Open(m, n, seed, siblings))
    decreases n
  {
    if m == n {
      StripFull(n);
      if siblings != [] { ClimbStoppedAtRoot(H, Start(m, n, seed), siblings); }
    } else if siblings == [] {
      StartBelowRoot(m, n, seed);
    } else {
      var k, lower, top := SplitPoint(n), siblings[..|siblings| - 1], siblings[|siblings| - 1];
      assert siblings == lower + [top];
      if m <= k {
        SplitIsPow2(n);
        WalkIsOpening(H, m, k, seed, lower);
        WalkIntoLeft(H, m, n, seed, lower, top);
      } else {
        WalkIsOpening(H, m - k, n - k, seed, lower);
        WalkIntoRight(H, m, n, seed, lower, top);
      }
    }
  }

  lemma {:induction false} ClimbStoppedAtRoot(H: Hasher, w: Walk, siblings: seq<Digest>)
    requires w.snode == 0 && siblings != []
    ensures ClimbAll(H, w, siblings).None?
  {
    assert siblings[..1] == [] + [siblings[0]];
    ClimbOne(H, w, [], siblings[0]);
    ClimbStopped(H, w, siblings, 1);
  }

  /** `fnode` reaches zero before the loop exactly when the old tree is a complete subtree. */
  lemma {:induction false} StartComplete(m: nat, n: nat)
    requires 0 < m <= n && (m < n || IsPow2(n))
    ensures StripOnes(m - 1, n - 1).0 == 0 <==> Complete(m, n)
    decreases n
  {
    if m == n {
      StripFull(n);
    } else {
      var k := SplitPoint(n);
      SplitIsPow2(n);
      if m <= k {
        StripLeft(m - 1, n - 1, k - 1);
        StartComplete(m, k);
      } else {
        var q := StripRight(m - 1, n - 1, m - 1 - k, n - 1 - k, k);
      }
    }
  }

  method VerifyConsistency(H: Hasher, from: nat, oldRoot: Digest, to: nat, newRoot: Digest, proof: seq<Digest>)
    returns (verdict: Result<(), LogError>)
    ensures verdict.Ok? <==> Extends(H, from, oldRoot, to, newRoot, proof)
    ensures verdict == Err(BadRange) <==> from == 0 || from > to
    ensures verdict.Err? ==> verdict.error in {BadRange, BadProof}
  {
    if from == 0 || from > to {
      return Err(BadRange);
    }
    if from == to {
      return if proof == [] && oldRoot == newRoot then Ok(()) else Err(BadProof);
    }

    var fnode: nat, snode: nat := from - 1, to - 1;
    while fnode % 2 == 1
      invariant StripOnes(fnode, snode) == StripOnes(from - 1, to - 1)
      decreases fnode
    {
      fnode, snode := fnode / 2, snode / 2;
    }
    StartComplete(from, to);

    var seed, rest := oldRoot, proof;
    if fnode != 0 {
      if proof == [] {
        return Err(BadProof);
      }
      seed, rest := proof[0], proof[1..];
    }
    WalkIsOpening(H, from, to, seed, rest);

    var older, newer := seed, seed;
    for i := 0 to |rest|
      invariant ClimbAll(H, Start(from, to, seed), rest[..i]) == Some(Walk(fnode, snode, older, newer))
    {
      var sibling := rest[i];
      assert rest[..i + 1] == rest[..i] + [sibling];
      ClimbOne(H, Start(from, to, seed), rest[..i], sibling);
      if snode == 0 {
        ClimbStopped(H, Start(from, to, seed), rest, i + 1);
        return Err(BadProof);
      }
      if fnode % 2 == 1 || fnode == snode {
        older := NodeHash(H, sibling, older);
        newer := NodeHash(H, sibling, newer);
        ghost var atEntry := (fnode, snode);
        while fnode != 0 && fnode % 2 == 0
          invariant SkipZeros(fnode, snode) == SkipZeros(atEntry.0, atEntry.1)
          decreases fnode
        {
          fnode, snode := fnode / 2, snode / 2;
        }
      } else {
        newer := NodeHash(H, newer, sibling);
      }
      fnode, snode := fnode / 2, snode / 2;
    }
    assert rest[..|rest|] == rest;

    if snode != 0 || older != oldRoot || newer != newRoot {
      return Err(BadProof);
    }
    return Ok(());
  }

  // ------------------------------------------------------------------ verify_inclusion

  /** Top-down: is the leaf in the right half? */
  function Directions(index: nat, size: nat): seq<bool>
    requires index < size
    decreases size
  {
    if size == 1 then []
    else
      var k := SplitPoint(size);
      if index < k then [false] + Directions(index, k) else [true] + Directions(index - k, size - k)
  }

  /** The climb: the deepest sibling goes with the deepest direction. */
  function ClimbPath(H: Hasher, leaf: Digest, proof: seq<Digest>, directions: seq<bool>): Digest
    requires |proof| == |directions|
  {
    if proof == [] then leaf
    else
      var below, top := ClimbPath(H, leaf, proof[..|proof| - 1], directions[1..]), proof[|proof| - 1];
      if directions[0] then NodeHash(H, top, below) else NodeHash(H, below, top)
  }

  lemma {:induction false} PathIsOpening(H: Hasher, leaf: Digest, index: nat, size: nat, proof: seq<Digest>)
    requires index < size
    ensures OpenLeaf(index, size, leaf, proof).Some? <==> |proof| == |Directions(index, size)|
    ensures |proof| == |Directions(index, size)| ==>
              Outer(H, OpenLeaf(index, size, leaf, proof).value) == ClimbPath(H, leaf, proof, Directions(index, size))
    decreases size
  {
    if size > 1 && proof != [] {
      var k := SplitPoint(size);
      var directions := Directions(index, size);
      if index < k {
        PathIsOpening(H, leaf, index, k, proof[..|proof| - 1]);
        assert directions[1..] == Directions(index, k);
      } else {
        PathIsOpening(H, leaf, index - k, size - k, proof[..|proof| - 1]);
        assert directions[1..] == Directions(index - k, size - k);
      }
    }
  }

  lemma DirectionsStep(index: nat, size: nat)
    requires index < size && size > 1
    ensures var k := SplitPoint(size);
            && (index < k ==> Directions(index, size) == [false] + Directions(index, k))
            && (index >= k ==> Directions(index, size) == [true] + Directions(index - k, size - k))
  {
  }

  lemma DirectionsEnd()
    ensures Directions(0, 1) == []
  {
  }

  /** The descent: which way the leaf lies at each level, from the top. */
  method Descend(index: nat, size: nat) returns (directions: seq<bool>)
    requires index < size
    ensures directions == Directions(index, size)
  {
    hide Directions, SplitPoint;
    directions := [];
    var i, n := index, size;
    DirectionsEnd();
    while n > 1
      invariant i < n
      invariant directions + Directions(i, n) == Directions(index, size)
      decreases n
    {
      var k := ComputeSplitPoint(n);
      DirectionsStep(i, n);
      if i < k {
        Append(directions, [false], Directions(i, k));
        directions, n := directions + [false], k;
      } else {
        Append(directions, [true], Directions(i - k, n - k));
        directions, i, n := directions + [true], i - k, n - k;
      }
    }
  }

  /** The climb, from the leaf. */
  method ClimbTo(H: Hasher, leaf: Digest, proof: seq<Digest>, directions: seq<bool>) returns (hash: Digest)
    requires |proof| == |directions|
    ensures hash == ClimbPath(H, leaf, proof, directions)
  {
    hash := leaf;
    for j := 0 to |proof|
      invariant hash == ClimbPath(H, leaf, proof[..j], directions[|proof| - j..])
    {
      var sibling, fromRight := proof[j], directions[|proof| - 1 - j];
      assert proof[..j + 1][..j] == proof[..j];
      assert directions[|proof| - 1 - j..][1..] == directions[|proof| - j..];
      hash := if fromRight then NodeHash(H, sibling, hash) else NodeHash(H, hash, sibling);
    }
    assert proof[..|proof|] == proof && directions[0..] == directions;
  }

  method VerifyInclusion(H: Hasher, leaf: Digest, index: nat, size: nat, proof: seq<Digest>, expectedRoot: Digest)
    returns (verdict: Result<(), LogError>)
    ensures verdict.Ok? <==> Includes(H, leaf, index, size, expectedRoot, proof)
    ensures verdict == Err(OutOfRange) <==> index >= size
    ensures verdict.Err? ==> verdict.error in {OutOfRange, BadProof}
  {
    if index >= size {
      return Err(OutOfRange);
    }
    PathIsOpening(H, leaf, index, size, proof);
    var directions := Descend(index, size);
    if |directions| != |proof| {
      return Err(BadProof);
    }
    var hash := ClimbTo(H, leaf, proof, directions);
    if hash != expectedRoot {
      return Err(BadProof);
    }
    return Ok(());
  }
}

/** What an accepted proof of the key log guarantees. */
module LogTheorems {
  import opened Prelude
  import opened Merkle
  import opened Openings
  import opened Entries

  // ------------------------------------------------------------------ consistency against known trees

  /** The honest opening of the first `m` leaves. */
  ghost function OpeningOf(H: Hasher, leaves: seq<Digest>, m: nat): Opening
    requires 0 < m <= |leaves|
    decreases |leaves|
  {
    if m == |leaves| then Seed(Root(H, leaves))
    else
      var k := SplitPoint(|leaves|);
      if m <= k then LeftOf(OpeningOf(H, leaves[..k], m), Root(H, leaves[k..]))
      else RightOf(Root(H, leaves[..k]), OpeningOf(H, leaves[k..], m - k))
  }

  lemma SlicesOfPrefix<T>(s: seq<T>, k: nat, m: nat)
    requires k <= m <= |s|
    ensures s[..m][..k] == s[..k] && s[..m][k..] == s[k..][..m - k]
  {
  }

  lemma RootNode(H: Hasher, leaves: seq<Digest>, k: nat)
    requires |leaves| > 1 && k == SplitPoint(|leaves|)
    ensures Root(H, leaves) == NodeHash(H, Root(H, leaves[..k]), Root(H, leaves[k..]))
  {
  }

  lemma RootOfPrefix(H: Hasher, leaves: seq<Digest>, m: nat)
    requires 1 < m <= |leaves| && SplitPoint(|leaves|) < m
    ensures var k := SplitPoint(|leaves|);
            Root(H, leaves[..m]) == NodeHash(H, Root(H, leaves[..k]), Root(H, leaves[k..][..m - k]))
  {
    var k := SplitPoint(|leaves|);
    SplitStable(m, |leaves|);
    SlicesOfPrefix(leaves, k, m);
    RootNode(H, leaves[..m], k);
  }

  lemma {:induction false} OpeningOfFits(H: Hasher, leaves: seq<Digest>, m: nat)
    requires 0 < m <= |leaves|
    ensures Fits(OpeningOf(H, leaves, m), m, |leaves|)
    ensures Outer(H, OpeningOf(H, leaves, m)) == Root(H, leaves)
    ensures Inner(H, OpeningOf(H, leaves, m)) == Root(H, leaves[..m])
    decreases |leaves|
  {
    hide SplitPoint, NodeHash;
    if m == |leaves| {
      assert leaves[..m] == leaves;
    } else {
      var k := SplitPoint(|leaves|);
      if m <= k {
        OpeningOfFits(H, leaves[..k], m);
        assert leaves[..k][..m] == leaves[..m];
      } else {
        OpeningOfFits(H, leaves[k..], m - k);
        RootOfPrefix(H, leaves, m);
      }
    }
  }

  lemma {:induction false} SubtreeProofIsOpening(H: Hasher, leaves: seq<Digest>, m: nat, complete: bool)
    requires 0 < m <= |leaves|
    ensures SubtreeProof(H, leaves, m, complete)
         == (if complete && Complete(m, |leaves|) then [] else [SeedOf(OpeningOf(H, leaves, m))])
            + Siblings(OpeningOf(H, leaves, m))
    decreases |leaves|
  {
    if m < |leaves| {
      var k := SplitPoint(|leaves|);
      if m <= k {
        SubtreeProofIsOpening(H, leaves[..k], m, complete);
      } else {
        SubtreeProofIsOpening(H, leaves[k..], m - k, false);
      }
    }
  }

  /** The recursive prover writes the honest opening. */
  lemma ConsistencyProofWritten(H: Hasher, leaves: seq<Digest>, m: nat)
    requires 0 < m <= |leaves|
    ensures ConsistencyProof(H, leaves, m).value == Written(OpeningOf(H, leaves, m), m, |leaves|)
  {
    SubtreeProofIsOpening(H, leaves, m, true);
  }

  /** Every tree extends each of its prefixes: the honest proof is always accepted. */
  lemma {:induction false} ConsistencyComplete(H: Hasher, leaves: seq<Digest>, m: nat)
    requires 0 < m <= |leaves|
    ensures Extends(H, m, Root(H, leaves[..m]), |leaves|, Root(H, leaves), ConsistencyProof(H, leaves, m).value)
  {
    OpeningOfFits(H, leaves, m);
    ConsistencyProofWritten(H, leaves, m);
    ExtendsByOpening(H, OpeningOf(H, leaves, m), m, |leaves|);
  }

  lemma {:induction false} OpeningSound(H: Hasher, S: set<Bytes>, older: seq<Digest>, newer: seq<Digest>, o: Opening)
    requires 0 < |older| <= |newer| && Fits(o, |older|, |newer|)
    requires NoCollision(H, S) && TreeHashedIn(H, S, older) && TreeHashedIn(H, S, newer) && HashedIn(H, S, o)
    requires Inner(H, o) == Root(H, older) && Outer(H, o) == Root(H, newer)
    ensures older <= newer && o == OpeningOf(H, newer, |older|)
    decreases |newer|
  {
    hide Root, SplitPoint, NodeHash, NodeInput, NoCollision, TreeHashedIn;
    var m, n := |older|, |newer|;
    if m == n {
      RootInjective(H, S, older, newer);
    } else {
      var k := SplitPoint(n);
      if m <= k {
        OpenedOnTheLeft(H, S, newer, o);
        OpeningSound(H, S, older, newer[..k], o.part);
        assert newer[..k] <= newer;
      } else {
        OpenedOnTheRight(H, S, older, newer, o);
        OpeningSound(H, S, older[k..], newer[k..], o.part);
        PrefixJoins(older, newer, k);
      }
    }
  }

  lemma OpenedOnTheLeft(H: Hasher, S: set<Bytes>, newer: seq<Digest>, o: Opening)
    requires |newer| > 1 && o.LeftOf? && Outer(H, o) == Root(H, newer)
    requires NoCollision(H, S) && TreeHashedIn(H, S, newer) && HashedIn(H, S, o)
    ensures var k := SplitPoint(|newer|);
            && o.right == Root(H, newer[k..]) && Outer(H, o.part) == Root(H, newer[..k])
            && TreeHashedIn(H, S, newer[..k])
  {
    var k := SplitPoint(|newer|);
    RootNode(H, newer, k);
    NodeInjective(H, S, Outer(H, o.part), o.right, Root(H, newer[..k]), Root(H, newer[k..]));
  }

  /** An opening into the right half: the left halves are one tree, the rest is an opening of the right ones. */
  lemma OpenedOnTheRight(H: Hasher, S: set<Bytes>, older: seq<Digest>, newer: seq<Digest>, o: Opening)
    requires 0 < |older| < |newer| && SplitPoint(|newer|) < |older| && o.RightOf?
    requires NoCollision(H, S) && TreeHashedIn(H, S, older) && TreeHashedIn(H, S, newer) && HashedIn(H, S, o)
    requires Inner(H, o) == Root(H, older) && Outer(H, o) == Root(H, newer)
    ensures var k := SplitPoint(|newer|);
            && older[..k] == newer[..k] && o.left == Root(H, newer[..k])
            && TreeHashedIn(H, S, older[k..]) && TreeHashedIn(H, S, newer[k..])
            && Inner(H, o.part) == Root(H, older[k..]) && Outer(H, o.part) == Root(H, newer[k..])
  {
    var k := SplitPoint(|newer|);
    SplitStable(|older|, |newer|);
    RootNode(H, older, k);
    RootNode(H, newer, k);
    NodeInjective(H, S, o.left, Outer(H, o.part), Root(H, newer[..k]), Root(H, newer[k..]));
    NodeInjective(H, S, o.left, Inner(H, o.part), Root(H, older[..k]), Root(H, older[k..]));
    RootInjective(H, S, older[..k], newer[..k]);
  }

  /** Against the roots of two known trees exactly one proof is accepted, and only when the older tree
      is a prefix of the newer one: no rewriting passes, whatever the proof. */
  lemma {:induction false} ConsistencyExact(H: Hasher, S: set<Bytes>, older: seq<Digest>, newer: seq<Digest>,
                                            proof: seq<Digest>)
    requires 0 < |older| <= |newer|
    requires NoCollision(H, S) && TreeHashedIn(H, S, older) && TreeHashedIn(H, S, newer)
    requires CheckHashedIn(H, S, |older|, Root(H, older), |newer|, proof)
    ensures Extends(H, |older|, Root(H, older), |newer|, Root(H, newer), proof)
       <==> older <= newer && proof == ConsistencyProof(H, newer, |older|).value
  {
    var m, n := |older|, |newer|;
    if Extends(H, m, Root(H, older), n, Root(H, newer), proof) {
      OpeningOfExtends(H, m, Root(H, older), n, Root(H, newer), proof);
      OpeningSound(H, S, older, newer, Opened(m, Root(H, older), n, proof).value);
      ConsistencyProofWritten(H, newer, m);
    }
    if older <= newer {
      ConsistencyComplete(H, newer, m);
      assert newer[..m] == older;
    }
  }

  // ------------------------------------------------------------------ heads without their trees

  /** One root is the extension of at most one smaller root of each size. */
  lemma {:induction false} OpeningBinding(H: Hasher, S: set<Bytes>, m: nat, n: nat, o: Opening, q: Opening)
    requires 0 < m <= n && Fits(o, m, n) && Fits(q, m, n)
    requires NoCollision(H, S) && HashedIn(H, S, o) && HashedIn(H, S, q)
    requires Outer(H, o) == Outer(H, q)
    ensures Inner(H, o) == Inner(H, q)
    decreases n
  {
    if m < n {
      var k := SplitPoint(n);
      if m <= k {
        NodeInjective(H, S, Outer(H, o.part), o.right, Outer(H, q.part), q.right);
        OpeningBinding(H, S, m, k, o.part, q.part);
      } else {
        NodeInjective(H, S, o.left, Outer(H, o.part), q.left, Outer(H, q.part));
        OpeningBinding(H, S, m - k, n - k, o.part, q.part);
      }
    }
  }

  lemma ForkNeverHeals(H: Hasher, S: set<Bytes>, m: nat, r1: Digest, r2: Digest, n: nat, head: Digest,
                       p: seq<Digest>, q: seq<Digest>)
    requires NoCollision(H, S)
    requires CheckHashedIn(H, S, m, r1, n, p) && CheckHashedIn(H, S, m, r2, n, q)
    requires Extends(H, m, r1, n, head, p) && Extends(H, m, r2, n, head, q)
    ensures r1 == r2
  {
    OpeningOfExtends(H, m, r1, n, head, p);
    OpeningOfExtends(H, m, r2, n, head, q);
    OpeningBinding(H, S, m, n, Opened(m, r1, n, p).value, Opened(m, r2, n, q).value);
  }

  /** The single opening that two stacked ones amount to. */
  ghost function Compose(H: Hasher, o: Opening, q: Opening): Opening {
    match (o, q)
    case (_, Seed(_)) => o
    case (_, LeftOf(p, r)) => LeftOf(Compose(H, o, p), r)
    case (Seed(_), RightOf(_, _)) => q
    case (LeftOf(p, _), RightOf(_, p')) => LeftOf(p, Outer(H, p'))
    case (RightOf(l, p), RightOf(_, p')) => RightOf(l, Compose(H, p, p'))
  }

  lemma {:induction false} ComposeOpens(H: Hasher, S: set<Bytes>, m: nat, j: nat, n: nat, o: Opening, q: Opening)
    requires 0 < m <= j <= n && Fits(o, m, j) && Fits(q, j, n)
    requires NoCollision(H, S) && HashedIn(H, S, o) && HashedIn(H, S, q)
    requires Outer(H, o) == Inner(H, q)
    ensures Fits(Compose(H, o, q), m, n) && HashedIn(H, S, Compose(H, o, q))
    ensures Inner(H, Compose(H, o, q)) == Inner(H, o)
    ensures Outer(H, Compose(H, o, q)) == Outer(H, q)
    decreases n
  {
    hide SplitPoint, NodeHash, NodeInput, NoCollision;
    if j < n {
      var k := SplitPoint(n);
      if j <= k {
        ComposeOpens(H, S, m, j, k, o, q.part);
      } else if m < j {
        SplitStable(j, n);
        if m <= k {
          NodeInjective(H, S, Outer(H, o.part), o.right, q.left, Inner(H, q.part));
        } else {
          NodeInjective(H, S, o.left, Outer(H, o.part), q.left, Inner(H, q.part));
          ComposeOpens(H, S, m - k, j - k, n - k, o.part, q.part);
        }
      }
    }
  }

  /** Acceptance is transitive, without anybody seeing a tree: the two proofs make one. */
  lemma ExtendsTransitive(H: Hasher, S: set<Bytes>, m: nat, a: Digest, j: nat, b: Digest, n: nat, c: Digest,
                          p: seq<Digest>, q: seq<Digest>) returns (proof: seq<Digest>)
    requires NoCollision(H, S)
    requires CheckHashedIn(H, S, m, a, j, p) && CheckHashedIn(H, S, j, b, n, q)
    requires Extends(H, m, a, j, b, p) && Extends(H, j, b, n, c, q)
    ensures Extends(H, m, a, n, c, proof) && CheckHashedIn(H, S, m, a, n, proof)
  {
    OpeningOfExtends(H, m, a, j, b, p);
    OpeningOfExtends(H, j, b, n, c, q);
    var o, s := Opened(m, a, j, p).value, Opened(j, b, n, q).value;
    ComposeOpens(H, S, m, j, n, o, s);
    ExtendsByOpening(H, Compose(H, o, s), m, n);
    proof := Written(Compose(H, o, s), m, n);
  }

  // ------------------------------------------------------------------ histories of heads

  datatype Head = Head(size: nat, root: Digest)

  /** What one client accepts over its life: each head extends the previous one. */
  ghost predicate Accepted(H: Hasher, heads: seq<Head>, proofs: seq<seq<Digest>>) {
    && |heads| == |proofs| + 1
    && heads[0].size > 0
    && forall i | 0 <= i < |proofs| ::
         Extends(H, heads[i].size, heads[i].root, heads[i + 1].size, heads[i + 1].root, proofs[i])
  }

  ghost predicate HistoryHashedIn(H: Hasher, S: set<Bytes>, heads: seq<Head>, proofs: seq<seq<Digest>>)
    requires |heads| == |proofs| + 1
  {
    forall i | 0 <= i < |proofs| ::
      CheckHashedIn(H, S, heads[i].size, heads[i].root, heads[i + 1].size, proofs[i])
  }

  /** However many heads lie between them, the last one a client accepted extends each earlier one. */
  lemma {:induction false} HistoryCollapses(H: Hasher, S: set<Bytes>, heads: seq<Head>, proofs: seq<seq<Digest>>,
                                            i: nat)
    returns (proof: seq<Digest>)
    requires NoCollision(H, S)
    requires Accepted(H, heads, proofs) && HistoryHashedIn(H, S, heads, proofs)
    requires i <= |proofs|
    ensures Extends(H, heads[i].size, heads[i].root, heads[|proofs|].size, heads[|proofs|].root, proof)
    ensures CheckHashedIn(H, S, heads[i].size, heads[i].root, heads[|proofs|].size, proof)
    decreases |proofs| - i
  {
    var a, c := heads[i], heads[|proofs|];
    if i == |proofs| {
      if i > 0 { assert Extends(H, heads[i - 1].size, heads[i - 1].root, a.size, a.root, proofs[i - 1]); }
      ExtendsByOpening(H, Seed(a.root), a.size, a.size);
      proof := Written(Seed(a.root), a.size, a.size);
    } else {
      var b := heads[i + 1];
      assert Extends(H, a.size, a.root, b.size, b.root, proofs[i]);
      assert CheckHashedIn(H, S, a.size, a.root, b.size, proofs[i]);
      var rest := HistoryCollapses(H, S, heads, proofs, i + 1);
      proof := ExtendsTransitive(H, S, a.size, a.root, b.size, b.root, c.size, c.root, proofs[i], rest);
    }
  }

  /** Two clients that were once shown different heads of one size never both accept a common head
      again, by whatever sequences of heads and proofs each is led there. */
  lemma ForkedHistoriesNeverMeet(H: Hasher, S: set<Bytes>,
                                 heads1: seq<Head>, proofs1: seq<seq<Digest>>, i: nat,
                                 heads2: seq<Head>, proofs2: seq<seq<Digest>>, j: nat)
    requires NoCollision(H, S)
    requires Accepted(H, heads1, proofs1) && HistoryHashedIn(H, S, heads1, proofs1) && i < |heads1|
    requires Accepted(H, heads2, proofs2) && HistoryHashedIn(H, S, heads2, proofs2) && j < |heads2|
    requires heads1[i].size == heads2[j].size && heads1[i].root != heads2[j].root
    ensures heads1[|proofs1|] != heads2[|proofs2|]
  {
    if heads1[|proofs1|] == heads2[|proofs2|] {
      var p := HistoryCollapses(H, S, heads1, proofs1, i);
      var q := HistoryCollapses(H, S, heads2, proofs2, j);
      var last := heads1[|proofs1|];
      ForkNeverHeals(H, S, heads1[i].size, heads1[i].root, heads2[j].root, last.size, last.root, p, q);
    }
  }

  // ------------------------------------------------------------------ inclusion

  ghost function LeafOpening(H: Hasher, leaves: seq<Digest>, index: nat): Opening
    requires index < |leaves|
    decreases |leaves|
  {
    if |leaves| == 1 then Seed(leaves[0])
    else
      var k := SplitPoint(|leaves|);
      if index < k then LeftOf(LeafOpening(H, leaves[..k], index), Root(H, leaves[k..]))
      else RightOf(Root(H, leaves[..k]), LeafOpening(H, leaves[k..], index - k))
  }

  lemma RootOfLeaf(H: Hasher, leaves: seq<Digest>)
    requires |leaves| == 1
    ensures Root(H, leaves) == leaves[0]
  {
  }

  lemma {:induction false} LeafOpeningFits(H: Hasher, leaves: seq<Digest>, index: nat)
    requires index < |leaves|
    ensures var o := LeafOpening(H, leaves, index);
            FitsLeaf(o, index, |leaves|) && SeedOf(o) == leaves[index] && Outer(H, o) == Root(H, leaves)
    decreases |leaves|
  {
    hide SplitPoint, NodeHash, Root;
    if |leaves| == 1 {
      RootOfLeaf(H, leaves);
    } else {
      var k := SplitPoint(|leaves|);
      RootNode(H, leaves, k);
      if index < k {
        LeafOpeningFits(H, leaves[..k], index);
      } else {
        LeafOpeningFits(H, leaves[k..], index - k);
      }
    }
  }

  lemma {:induction false} LeafOpeningWritten(H: Hasher, leaves: seq<Digest>, index: nat)
    requires index < |leaves|
    ensures Siblings(LeafOpening(H, leaves, index)) == InclusionProof(H, leaves, index).value
    decreases |leaves|
  {
    if |leaves| > 1 {
      var k := SplitPoint(|leaves|);
      if index < k {
        LeafOpeningWritten(H, leaves[..k], index);
      } else {
        LeafOpeningWritten(H, leaves[k..], index - k);
      }
    }
  }

  lemma {:induction false} LeafOpeningSound(H: Hasher, S: set<Bytes>, leaves: seq<Digest>, index: nat, o: Opening)
    requires index < |leaves| && FitsLeaf(o, index, |leaves|)
    requires NoCollision(H, S) && TreeHashedIn(H, S, leaves) && HashedIn(H, S, o)
    requires Outer(H, o) == Root(H, leaves)
    ensures o == LeafOpening(H, leaves, index)
    decreases |leaves|
  {
    if |leaves| > 1 {
      var k := SplitPoint(|leaves|);
      if index < k {
        NodeInjective(H, S, Outer(H, o.part), o.right, Root(H, leaves[..k]), Root(H, leaves[k..]));
        LeafOpeningSound(H, S, leaves[..k], index, o.part);
      } else {
        NodeInjective(H, S, o.left, Outer(H, o.part), Root(H, leaves[..k]), Root(H, leaves[k..]));
        LeafOpeningSound(H, S, leaves[k..], index - k, o.part);
      }
    }
  }

  /** Against a known tree exactly one leaf and one path are accepted at each position. */
  lemma {:induction false} InclusionExact(H: Hasher, S: set<Bytes>, leaves: seq<Digest>, leaf: Digest, index: nat,
                                          proof: seq<Digest>)
    requires NoCollision(H, S) && TreeHashedIn(H, S, leaves)
    requires InclusionHashedIn(H, S, leaf, index, |leaves|, proof)
    ensures Includes(H, leaf, index, |leaves|, Root(H, leaves), proof)
       <==> index < |leaves| && leaf == leaves[index] && InclusionProof(H, leaves, index) == Ok(proof)
  {
    if index < |leaves| {
      LeafOpeningFits(H, leaves, index);
      LeafOpeningWritten(H, leaves, index);
      var honest := LeafOpening(H, leaves, index);
      OpenLeafExact(index, |leaves|, leaf, proof, honest);
      if Includes(H, leaf, index, |leaves|, Root(H, leaves), proof) {
        var o := OpenLeaf(index, |leaves|, leaf, proof).value;
        OpenLeafExact(index, |leaves|, leaf, proof, o);
        LeafOpeningSound(H, S, leaves, index, o);
      }
    }
  }

  /** The honest audit path is accepted, whatever the hash. */
  lemma {:induction false} InclusionComplete(H: Hasher, leaves: seq<Digest>, index: nat)
    requires index < |leaves|
    ensures Includes(H, leaves[index], index, |leaves|, Root(H, leaves), InclusionProof(H, leaves, index).value)
  {
    LeafOpeningFits(H, leaves, index);
    LeafOpeningWritten(H, leaves, index);
    var proof := InclusionProof(H, leaves, index).value;
    OpenLeafExact(index, |leaves|, leaves[index], proof, LeafOpening(H, leaves, index));
  }

  lemma {:induction false} LeafBinding(H: Hasher, S: set<Bytes>, index: nat, size: nat, o: Opening, q: Opening)
    requires index < size && FitsLeaf(o, index, size) && FitsLeaf(q, index, size)
    requires NoCollision(H, S) && HashedIn(H, S, o) && HashedIn(H, S, q)
    requires Outer(H, o) == Outer(H, q)
    ensures o == q
    decreases size
  {
    if size > 1 {
      var k := SplitPoint(size);
      if index < k {
        NodeInjective(H, S, Outer(H, o.part), o.right, Outer(H, q.part), q.right);
        LeafBinding(H, S, index, k, o.part, q.part);
      } else {
        NodeInjective(H, S, o.left, Outer(H, o.part), q.left, Outer(H, q.part));
        LeafBinding(H, S, index - k, size - k, o.part, q.part);
      }
    }
  }

  lemma {:induction false} LeafRetained(H: Hasher, S: set<Bytes>, index: nat, m: nat, n: nat,
                                        o: Opening, before: Opening, after: Opening)
    requires index < m <= n && Fits(o, m, n) && FitsLeaf(before, index, m) && FitsLeaf(after, index, n)
    requires NoCollision(H, S) && HashedIn(H, S, o) && HashedIn(H, S, before) && HashedIn(H, S, after)
    requires Outer(H, before) == Inner(H, o) && Outer(H, after) == Outer(H, o)
    ensures SeedOf(before) == SeedOf(after)
    decreases n
  {
    hide SplitPoint, NodeHash, NodeInput, NoCollision;
    if m == n {
      LeafBinding(H, S, index, n, before, after);
    } else {
      var k := SplitPoint(n);
      if m <= k {
        NodeInjective(H, S, Outer(H, after.part), after.right, Outer(H, o.part), o.right);
        LeafRetained(H, S, index, m, k, o.part, before, after.part);
      } else {
        SplitStable(m, n);
        if index < k {
          NodeInjective(H, S, Outer(H, after.part), after.right, o.left, Outer(H, o.part));
          NodeInjective(H, S, Outer(H, before.part), before.right, o.left, Inner(H, o.part));
          LeafBinding(H, S, index, k, before.part, after.part);
        } else {
          NodeInjective(H, S, after.left, Outer(H, after.part), o.left, Outer(H, o.part));
          NodeInjective(H, S, before.left, Outer(H, before.part), o.left, Inner(H, o.part));
          LeafRetained(H, S, index - k, m - k, n - k, o.part, before.part, after.part);
        }
      }
    }
  }

  /** A leaf once accepted at a position is the only one a client can later accept there, in any head
      that extends the one it was accepted in: a published key cannot be replaced in place. */
  lemma AcceptedLeafNeverChanges(H: Hasher, S: set<Bytes>, index: nat, leaf: Digest, p: seq<Digest>,
                                 m: nat, first: Digest, proof: seq<Digest>, n: nat, second: Digest,
                                 leaf': Digest, q: seq<Digest>)
    requires NoCollision(H, S)
    requires InclusionHashedIn(H, S, leaf, index, m, p) && InclusionHashedIn(H, S, leaf', index, n, q)
    requires CheckHashedIn(H, S, m, first, n, proof)
    requires Includes(H, leaf, index, m, first, p) && Includes(H, leaf', index, n, second, q)
    requires Extends(H, m, first, n, second, proof)
    ensures leaf == leaf'
  {
    OpeningOfExtends(H, m, first, n, second, proof);
    var before, after := OpenLeaf(index, m, leaf, p).value, OpenLeaf(index, n, leaf', q).value;
    OpenLeafExact(index, m, leaf, p, before);
    OpenLeafExact(index, n, leaf', q, after);
    LeafRetained(H, S, index, m, n, Opened(m, first, n, proof).value, before, after);
  }

  // ------------------------------------------------------------------ roots and entries

  ghost function LeavesOf(H: Hasher, entries: seq<Entry>): seq<Digest> {
    seq(|entries|, i requires 0 <= i < |entries| => LeafHash(H, EntryBytes(entries[i])))
  }

  /** Every input hashed on the way from the entries to the root is in `S`. */
  ghost predicate LogHashedIn(H: Hasher, S: set<Bytes>, entries: seq<Entry>) {
    && (entries == [] ==> [] in S)
    && TreeHashedIn(H, S, LeavesOf(H, entries))
    && forall e | e in entries :: [LEAF_PREFIX] + EntryBytes(e) in S
  }

  /** The last input hashed while computing the root of a log. */
  ghost function RootInput(H: Hasher, entries: seq<Entry>): (r: Bytes)
    ensures Root(H, LeavesOf(H, entries)) == H(r)
    ensures forall S | LogHashedIn(H, S, entries) :: r in S
    ensures entries == [] ==> r == []
    ensures |entries| == 1 ==> |r| > 0 && r[0] == LEAF_PREFIX
    ensures |entries| > 1 ==> |r| > 0 && r[0] == NODE_PREFIX
  {
    var leaves := LeavesOf(H, entries);
    if |entries| == 0 then []
    else if |entries| == 1 then [LEAF_PREFIX] + EntryBytes(entries[0])
    else
      var k := SplitPoint(|leaves|);
      NodeInput(Root(H, leaves[..k]), Root(H, leaves[k..]))
  }

  lemma LeavesSplit(H: Hasher, entries: seq<Entry>, k: nat)
    requires k <= |entries|
    ensures LeavesOf(H, entries)[..k] == LeavesOf(H, entries[..k])
    ensures LeavesOf(H, entries)[k..] == LeavesOf(H, entries[k..])
  {
  }

  lemma PartHashedIn(H: Hasher, S: set<Bytes>, entries: seq<Entry>, part: seq<Entry>)
    requires LogHashedIn(H, S, entries) && part != [] && TreeHashedIn(H, S, LeavesOf(H, part))
    requires forall e | e in part :: e in entries
    ensures LogHashedIn(H, S, part)
  {
  }

  lemma TreeSplit(H: Hasher, S: set<Bytes>, leaves: seq<Digest>, k: nat)
    requires |leaves| > 1 && k == SplitPoint(|leaves|) && TreeHashedIn(H, S, leaves)
    ensures Root(H, leaves) == NodeHash(H, Root(H, leaves[..k]), Root(H, leaves[k..]))
    ensures NodeInput(Root(H, leaves[..k]), Root(H, leaves[k..])) in S
    ensures TreeHashedIn(H, S, leaves[..k]) && TreeHashedIn(H, S, leaves[k..])
  {
  }

  lemma LogSplit(H: Hasher, S: set<Bytes>, entries: seq<Entry>)
    requires |entries| > 1 && LogHashedIn(H, S, entries)
    ensures var k := SplitPoint(|entries|);
            var left, right := Root(H, LeavesOf(H, entries[..k])), Root(H, LeavesOf(H, entries[k..]));
            && Root(H, LeavesOf(H, entries)) == NodeHash(H, left, right) && NodeInput(left, right) in S
            && LogHashedIn(H, S, entries[..k]) && LogHashedIn(H, S, entries[k..])
  {
    var k := SplitPoint(|entries|);
    LeavesSplit(H, entries, k);
    TreeSplit(H, S, LeavesOf(H, entries), k);
    PartHashedIn(H, S, entries, entries[..k]);
    PartHashedIn(H, S, entries, entries[k..]);
  }

  /** One root commits to one list of entries, **across sizes**: leaf, node and empty-tree inputs never
      coincide, so no tree can be passed off as one of another shape. */
  lemma {:induction false} RootCommitsToEntries(H: Hasher, S: set<Bytes>, a: seq<Entry>, b: seq<Entry>)
    requires NoCollision(H, S) && LogHashedIn(H, S, a) && LogHashedIn(H, S, b)
    requires forall e | e in a :: FieldsFit(e)
    requires Root(H, LeavesOf(H, a)) == Root(H, LeavesOf(H, b))
    ensures a == b
    decreases |a| + |b|
  {
    hide Root, SplitPoint, NodeHash, NodeInput, NoCollision, EntryBytes;
    if |a| > 1 && |b| > 1 {
      var i, j := SplitPoint(|a|), SplitPoint(|b|);
      LogSplit(H, S, a);
      LogSplit(H, S, b);
      NodeInjective(H, S, Root(H, LeavesOf(H, a[..i])), Root(H, LeavesOf(H, a[i..])),
                          Root(H, LeavesOf(H, b[..j])), Root(H, LeavesOf(H, b[j..])));
      RootCommitsToEntries(H, S, a[..i], b[..j]);
      RootCommitsToEntries(H, S, a[i..], b[j..]);
      Slices(a, 0, i, |a|);
      Slices(b, 0, j, |b|);
    } else {
      SameShape(H, S, a, b);
      if a != [] {
        SplitConcat([LEAF_PREFIX], EntryBytes(a[0]), [LEAF_PREFIX], EntryBytes(b[0]));
        EntryInjective(a[0], b[0]);
      }
    }
  }

  lemma SameShape(H: Hasher, S: set<Bytes>, a: seq<Entry>, b: seq<Entry>)
    requires NoCollision(H, S) && LogHashedIn(H, S, a) && LogHashedIn(H, S, b)
    requires Root(H, LeavesOf(H, a)) == Root(H, LeavesOf(H, b))
    requires |a| <= 1 || |b| <= 1
    ensures |a| == |b|
    ensures |a| == 1 ==> [LEAF_PREFIX] + EntryBytes(a[0]) == [LEAF_PREFIX] + EntryBytes(b[0])
  {
    assert RootInput(H, a) == RootInput(H, b);
  }
}

/** What a leaf of the key log is made of, and exactly which entries share their bytes. */
module Entries {
  import opened Prelude

  /** One published key: the account's name and its identity key, as bytes. */
  datatype Entry = Entry(account: Bytes, key: Bytes)

  ghost predicate FieldsFit(e: Entry) {
    |e.account| <= U16_MAX && |e.key| <= U16_MAX
  }

  /** `entry`: both fields behind a length cast to sixteen bits. */
  function EntryBytes(e: Entry): Bytes {
    U16Be(|e.account|) + e.account + U16Be(|e.key|) + e.key
  }

  lemma WrapsAreInvisible(n: nat, d: nat)
    requires d % 65536 == 0
    ensures U16Be(n + d) == U16Be(n)
  {
    assert (n + d) % 65536 == n % 65536;
    LowBits(n + d);
    LowBits(n);
  }

  lemma NothingElseIs(n: nat, d: nat)
    requires U16Be(n + d) == U16Be(n)
    ensures d % 65536 == 0
  {
    LowBits(n + d);
    LowBits(n);
  }

  lemma LowBits(n: nat)
    ensures U16Be(n) == [n % 65536 / 256, n % 65536 % 256]
    ensures n % 65536 == U16From(U16Be(n))
  {
    var q, r := n / 65536, n % 65536;
    assert n == 65536 * q + r;
    assert n / 256 == 256 * q + r / 256;
    assert n % 256 == r % 256;
    assert n / 256 % 256 == r / 256;
  }

  lemma Ends(e: Entry)
    ensures |EntryBytes(e)| == 4 + |e.account| + |e.key| && EntryBytes(e)[..2] == U16Be(|e.account|)
  {
  }

  lemma ByteByByte(e: Entry)
    ensures var b := EntryBytes(e);
            && |b| == 4 + |e.account| + |e.key|
            && b[..2] == U16Be(|e.account|)
            && (forall i | 0 <= i < |e.account| :: b[2 + i] == e.account[i])
            && (forall i | 0 <= i < 2 :: b[2 + |e.account| + i] == U16Be(|e.key|)[i])
            && (forall i | 0 <= i < |e.key| :: b[4 + |e.account| + i] == e.key[i])
  {
  }

  // ------------------------------------------------------------------ second readings

  /** The two bytes of the key's prefix stand in the account, a whole number of wraps from its end. */
  ghost predicate ReadsShorter(e: Entry, d: nat) {
    && 0 < d <= |e.account| && d % 65536 == 0
    && var n := |e.account| - d; [e.account[n], e.account[n + 1]] == U16Be(|e.key|)
  }

  /** They stand in the key, a whole number of wraps past its prefix. */
  ghost predicate ReadsLonger(e: Entry, d: nat) {
    0 < d <= |e.key| && d % 65536 == 0 && [e.key[d - 2], e.key[d - 1]] == U16Be(|e.key|)
  }

  lemma SharedLengths(e: Entry, f: Entry) returns (d: nat)
    requires EntryBytes(e) == EntryBytes(f) && |f.account| <= |e.account|
    ensures |e.account| == |f.account| + d && |f.key| == |e.key| + d && d % 65536 == 0
    ensures U16Be(|e.key|) == U16Be(|f.key|)
  {
    hide U16Be;
    Ends(e);
    Ends(f);
    d := |e.account| - |f.account|;
    NothingElseIs(|f.account|, d);
    WrapsAreInvisible(|e.key|, d);
  }

  lemma SharedReadsShorter(e: Entry, f: Entry)
    requires EntryBytes(e) == EntryBytes(f) && |f.account| < |e.account|
    ensures ReadsShorter(e, |e.account| - |f.account|)
  {
    hide U16Be, EntryBytes;
    var d := SharedLengths(e, f);
    ByteByByte(e);
    ByteByByte(f);
    var n := |f.account|;
    assert EntryBytes(e)[2 + n] == e.account[n] && EntryBytes(e)[2 + (n + 1)] == e.account[n + 1];
    assert EntryBytes(f)[2 + n + 0] == U16Be(|f.key|)[0] && EntryBytes(f)[2 + n + 1] == U16Be(|f.key|)[1];
  }

  lemma SharedReadsLonger(e: Entry, f: Entry)
    requires EntryBytes(e) == EntryBytes(f) && |e.account| < |f.account|
    ensures ReadsLonger(e, |f.account| - |e.account|)
  {
    hide U16Be, EntryBytes;
    var d := SharedLengths(f, e);
    ByteByByte(e);
    ByteByByte(f);
    var n := |f.account|;
    assert EntryBytes(e)[4 + |e.account| + (d - 2)] == e.key[d - 2];
    assert EntryBytes(e)[4 + |e.account| + (d - 1)] == e.key[d - 1];
    assert EntryBytes(f)[2 + n + 0] == U16Be(|f.key|)[0] && EntryBytes(f)[2 + n + 1] == U16Be(|f.key|)[1];
  }

  lemma Regroup(l: Bytes, p: Bytes, k: Bytes, q: Bytes, x: Bytes, y: Bytes)
    ensures l + (p + (k + q)) + x + y == l + p + k + (q + (x + y))
  {
  }

  lemma ShorterReading(e: Entry, d: nat) returns (f: Entry)
    requires ReadsShorter(e, d)
    ensures f != e && EntryBytes(f) == EntryBytes(e)
  {
    hide U16Be;
    var n, k := |e.account| - d, U16Be(|e.key|);
    var p, q := e.account[..n], e.account[n + 2..];
    f := Entry(p, q + (k + e.key));
    WrapsAreInvisible(n, d);
    WrapsAreInvisible(|e.key|, d);
    assert e.account == p + (k + q);
    Regroup(U16Be(n), p, k, q, k, e.key);
  }

  lemma LongerReading(e: Entry, d: nat) returns (f: Entry)
    requires ReadsLonger(e, d)
    ensures f != e && EntryBytes(f) == EntryBytes(e)
  {
    hide U16Be;
    var k, q, y := U16Be(|e.key|), e.key[..d - 2], e.key[d..];
    f := Entry(e.account + (k + q), y);
    WrapsAreInvisible(|e.account|, d);
    WrapsAreInvisible(|y|, d);
    assert e.key == q + (k + y);
    Regroup(U16Be(|e.account|), e.account, k, q, k, y);
  }

  lemma SameLengthsSameEntry(e: Entry, f: Entry)
    requires EntryBytes(e) == EntryBytes(f) && |e.account| == |f.account|
    ensures e == f
  {
    hide U16Be, EntryBytes;
    ByteByByte(e);
    ByteByByte(f);
    forall i | 0 <= i < |e.account|
      ensures e.account[i] == f.account[i]
    {
      assert EntryBytes(e)[2 + i] == EntryBytes(f)[2 + i];
    }
    forall i | 0 <= i < |e.key|
      ensures e.key[i] == f.key[i]
    {
      assert EntryBytes(e)[4 + |e.account| + i] == EntryBytes(f)[4 + |e.account| + i];
    }
  }

  /** An entry shares its bytes with another exactly when one of its fields is past sixteen bits and carries, a whole
      number of wraps from its border with the other field, the two bytes of the key's prefix. */
  lemma CollisionsExactly(e: Entry)
    ensures (exists f :: f != e && EntryBytes(f) == EntryBytes(e)) <==>
              exists d :: ReadsShorter(e, d) || ReadsLonger(e, d)
  {
    hide U16Be, EntryBytes;
    if f :| f != e && EntryBytes(f) == EntryBytes(e) {
      if |f.account| < |e.account| {
        SharedReadsShorter(e, f);
      } else if |f.account| > |e.account| {
        SharedReadsLonger(e, f);
      } else {
        SameLengthsSameEntry(e, f);
      }
    }
    if d :| ReadsShorter(e, d) || ReadsLonger(e, d) {
      if ReadsShorter(e, d) {
        var f := ShorterReading(e, d);
      } else {
        var f := LongerReading(e, d);
      }
    }
  }

  /** So an entry whose fields fit is determined by its bytes among all entries, whether the others fit or not. */
  lemma EntryInjective(e: Entry, f: Entry)
    requires FieldsFit(e) && EntryBytes(e) == EntryBytes(f)
    ensures e == f
  {
    hide U16Be, EntryBytes;
    CollisionsExactly(e);
  }

  /** The smallest of the accounts that do not. */
  lemma OversizedEntriesCollide()
    ensures exists e, f :: e != f && EntryBytes(e) == EntryBytes(f)
  {
    hide EntryBytes;
    var zeros: Bytes := seq(65536, _ => 0);
    var e := Entry(zeros, []);
    assert ReadsShorter(e, 65536);
    CollisionsExactly(e);
  }
}

/** The server process that owns the key log: each method is one statement, or one uninterrupted call, and moves the
    state as module `KeyLog` says. */
module LogServer {
  import opened Prelude
  import opened Merkle
  import opened Entries
  import opened LogTheorems
  import opened KeyLog

  /** A `snapshot` call that nothing interrupts. */
  ghost function Uninterrupted(H: Hasher, s: System, c: nat): System
    requires c !in s.calls
  {
    var compared := Next(H, Next(H, s, Probe(c)), Compare(c));
    if compared.calls[c].Returned? then compared else Next(H, Next(H, compared, Rebuild(c)), Publish(c))
  }

  class LogServer {
    const H: Hasher
    var table: Table
    var drawn: nat
    var lock: Option<Tx>
    var pending: map<Tx, seq<Row>>
    var cached: Option<Snapshot>
    ghost var calls: map<nat, Call>
    ghost var history: seq<Table>

    ghost function View(): System
      reads this
    {
      System(table, drawn, lock, pending, cached, calls, history)
    }

    ghost predicate Valid()
      reads this
    {
      LogInv(View()) && CacheInv(H, View())
    }

    constructor (H: Hasher)
      ensures this.H == H && View() == System(map[], 0, None, map[], None, map[], [map[]])
      ensures Valid()
    {
      this.H := H;
      table, drawn, lock, pending, cached, calls, history := map[], 0, None, map[], None, map[], [map[]];
    }

    method TakeAppendLock(tx: Tx)
      requires Valid() && (lock == None || lock == Some(tx))
      modifies this`lock, this`history
      ensures View() == Next(H, old(View()), TakeLock(tx)) && lock == Some(tx)
      ensures Valid()
    {
      StepKeepsBoth(H, View(), TakeLock(tx));
      lock := Some(tx);
      history := history + [table];
    }

    /** The number is drawn by the insert. */
    method InsertEntry(tx: Tx, entry: Entry)
      requires Valid() && lock == Some(tx)
      modifies this`drawn, this`pending, this`history
      ensures View() == Next(H, old(View()), Insert(tx, entry))
      ensures Valid()
    {
      StepKeepsBoth(H, View(), Insert(tx, entry));
      drawn := drawn + 1;
      pending := pending[tx := (if tx in pending then pending[tx] else []) + [Row(drawn, entry)]];
      history := history + [table];
    }

    /** `append`, once its wait for the lock is over. */
    method Append(tx: Tx, entry: Entry)
      requires Valid() && (lock == None || lock == Some(tx))
      modifies this
      ensures View() == Next(H, Next(H, old(View()), TakeLock(tx)), Insert(tx, entry))
      ensures Valid()
    {
      TakeAppendLock(tx);
      InsertEntry(tx, entry);
    }

    /** Rows become visible together, and the lock goes with the transaction. */
    method CommitTransaction(tx: Tx)
      requires Valid()
      modifies this
      ensures View() == Next(H, old(View()), Commit(tx))
      ensures Valid()
    {
      StepKeepsBoth(H, View(), Commit(tx));
      var rows := if tx in pending then pending[tx] else [];
      for i := 0 to |rows|
        invariant table == Publication(old(table), rows[..i])
        invariant unchanged(`drawn) && unchanged(`lock) && unchanged(`pending) && unchanged(`cached)
        invariant unchanged(`calls) && unchanged(`history)
      {
        assert rows[..i + 1][..i] == rows[..i];
        table := table[rows[i].number := rows[i].entry];
      }
      assert rows[..|rows|] == rows;
      pending := pending - {tx};
      if lock == Some(tx) {
        lock := None;
      }
      history := history + [table];
    }

    method RollbackTransaction(tx: Tx)
      requires Valid()
      modifies this
      ensures View() == Next(H, old(View()), Rollback(tx)) && table == old(table)
      ensures Valid()
    {
      StepKeepsBoth(H, View(), Rollback(tx));
      pending := pending - {tx};
      if lock == Some(tx) {
        lock := None;
      }
      history := history + [table];
    }

    /** One ordered read: the leaves, their root, and the fingerprint of the very rows read. */
    method RebuildTree() returns (tree: Snapshot)
      ensures tree == SnapshotOf(H, table)
    {
      var rows := OrderBy(table);
      var fingerprint := Fingerprint(|rows|, if rows == [] then 0 else rows[|rows| - 1].number);
      var leaves: seq<Digest> := [];
      for i := 0 to |rows|
        invariant leaves == Leaves(H, table)[..i]
      {
        leaves := leaves + [LeafHash(H, EntryBytes(rows[i].entry))];
      }
      return Snapshot(leaves, Root(H, leaves), fingerprint);
    }

    /** `snapshot`: uninterrupted, it answers with the table as it stands, hit or miss. */
    method CurrentTree(ghost c: nat) returns (answer: Snapshot)
      requires Valid() && c !in calls
      modifies this`cached, this`calls, this`history
      ensures answer == SnapshotOf(H, table)
      ensures View() == Uninterrupted(H, old(View()), c)
      ensures Valid()
    {
      ghost var before := View();
      UninterruptedKeeps(H, before, c);
      UninterruptedMoves(H, before, c);
      ghost var after := Uninterrupted(H, before, c);
      var current := Fingerprint(|table|, MaxSeq(table));
      if cached.Some? && cached.value.fingerprint == current {
        HitIsTheTable(H, before);
        calls, history := after.calls, after.history;
        assert View() == after;
        return cached.value;
      }
      answer := RebuildTree();
      cached := Some(answer);
      calls, history := after.calls, after.history;
      assert View() == after;
    }
  }

  lemma StepKeepsBoth(H: Hasher, s: System, ev: Event)
    requires LogInv(s) && CacheInv(H, s) && Enabled(s, ev)
    ensures LogInv(Next(H, s, ev)) && CacheInv(H, Next(H, s, ev))
  {
    match ev {
      case Commit(tx) => CommitKeeps(H, s, tx);
      case DeleteAccount(account) => DeleteKeeps(H, s, account);
      case _ => TableStays(H, s, ev);
    }
    CacheKeeps(H, s, ev);
  }

  lemma HitIsTheTable(H: Hasher, s: System)
    requires LogInv(s) && CacheInv(H, s)
    requires s.cached.Some? && s.cached.value.fingerprint == FingerprintOf(s.table)
    ensures s.cached.value == SnapshotOf(H, s.table)
  {
    hide SnapshotOf, FingerprintOf, CallInv, Newer;
    HitIsCurrent(H, s, |s.history| - 1);
  }

  /** Nothing but the cache moves, and only on a miss. */
  lemma UninterruptedMoves(H: Hasher, s: System, c: nat)
    requires c !in s.calls
    ensures var t := Uninterrupted(H, s, c);
            && t == s.(cached := t.cached, calls := t.calls, history := t.history)
            && t.cached == if s.cached.Some? && s.cached.value.fingerprint == FingerprintOf(s.table)
                           then s.cached else Some(SnapshotOf(H, s.table))
  {
  }

  lemma UninterruptedKeeps(H: Hasher, s: System, c: nat)
    requires LogInv(s) && CacheInv(H, s) && c !in s.calls
    ensures LogInv(Uninterrupted(H, s, c)) && CacheInv(H, Uninterrupted(H, s, c))
  {
    hide LogInv, CacheInv, SnapshotOf, FingerprintOf;
    var probed := Next(H, s, Probe(c));
    var compared := Next(H, probed, Compare(c));
    StepKeepsBoth(H, s, Probe(c));
    StepKeepsBoth(H, probed, Compare(c));
    if compared.calls[c].Missed? {
      StepKeepsBoth(H, compared, Rebuild(c));
      StepKeepsBoth(H, Next(H, compared, Rebuild(c)), Publish(c));
    }
  }
}

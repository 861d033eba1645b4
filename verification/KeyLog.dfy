/** The server's side of the key log: appending transactions that interleave, and the snapshot cache that
    answers every request from memory while the table has not moved.

    Every step is one statement the database executes atomically, or one critical section of the cache's mutex.
    `history` keeps the committed table after each step; it exists only to state the properties. */
module KeyLog {
  import opened Prelude
  import opened Merkle
  import opened Openings
  import opened Entries
  import opened LogTheorems

  /** `log_entries` as any other transaction sees it: committed rows by `seq`. */
  type Table = map<nat, Entry>

  type Tx = nat

  datatype Row = Row(number: nat, entry: Entry)

  // ------------------------------------------------------------------ reads

  /** `COALESCE(MAX(seq), 0)`. */
  function MaxSeq(t: Table): (m: nat)
    ensures forall k | k in t :: k <= m
    ensures t != map[] ==> m in t
    ensures t == map[] ==> m == 0
  {
    if t == map[] then 0 else MaxOf(t.Keys)
  }

  function MaxOf(s: set<nat>): (m: nat)
    requires s != {}
    ensures m in s && forall k | k in s :: k <= m
  {
    MaxExists(s);
    var m :| m in s && forall k | k in s :: k <= m;
    m
  }

  lemma {:induction false} MaxExists(s: set<nat>)
    requires s != {}
    ensures exists m :: m in s && forall k | k in s :: k <= m
  {
    var x :| x in s;
    if s != {x} {
      MaxExists(s - {x});
      var y :| y in s - {x} && forall k | k in s - {x} :: k <= y;
      var m := if x <= y then y else x;
      assert s == (s - {x}) + {x};
      assert m in s && forall k | k in s :: k <= m;
    }
  }

  /** `ORDER BY seq`. */
  function OrderBy(t: Table): (rows: seq<Row>)
    ensures |rows| == |t|
    decreases |t|
  {
    if t == map[] then []
    else
      var k := MaxSeq(t);
      assert |t.Keys - {k}| == |t| - 1 && (t - {k}).Keys == t.Keys - {k};
      OrderBy(t - {k}) + [Row(k, t[k])]
  }

  function Leaves(H: Hasher, t: Table): seq<Digest> {
    var rows := OrderBy(t);
    seq(|rows|, i requires 0 <= i < |rows| => LeafHash(H, EntryBytes(rows[i].entry)))
  }

  datatype Fingerprint = Fingerprint(size: nat, lastSeq: nat)

  function FingerprintOf(t: Table): Fingerprint {
    Fingerprint(|t|, MaxSeq(t))
  }

  datatype Snapshot = Snapshot(leaves: seq<Digest>, root: Digest, fingerprint: Fingerprint)

  /** `rebuild`: leaves, root and fingerprint of one read. */
  function SnapshotOf(H: Hasher, t: Table): Snapshot {
    Snapshot(Leaves(H, t), Root(H, Leaves(H, t)), FingerprintOf(t))
  }

  // ------------------------------------------------------------------ the system

  /** Progress of one `snapshot` call; `since` is the moment of its probe, an index into `history`. */
  datatype Call =
    | Probed(since: nat, seen: Fingerprint)
    | Missed(since: nat)
    | Rebuilt(since: nat, rebuilt: Snapshot)
    | Returned(since: nat, answer: Snapshot)

  datatype System = System(
    table: Table,
    drawn: nat,
    lock: Option<Tx>,
    pending: map<Tx, seq<Row>>,
    cached: Option<Snapshot>,
    calls: map<nat, Call>,
    history: seq<Table>)

  const EMPTY: System := System(map[], 0, None, map[], None, map[], [map[]])

  datatype Event =
    | TakeLock(tx: Tx)
    | Insert(tx: Tx, entry: Entry)
    | Commit(tx: Tx)
    | Rollback(tx: Tx)
    | DeleteAccount(account: Bytes)
    | Probe(call: nat)
    | Compare(call: nat)
    | Rebuild(call: nat)
    | Publish(call: nat)

  function Pending(s: System, tx: Tx): seq<Row> {
    if tx in s.pending then s.pending[tx] else []
  }

  /** What a step needs of the calls in flight. */
  predicate Ready(s: System, ev: Event) {
    match ev
    case Probe(c) => c !in s.calls
    case Compare(c) => c in s.calls && s.calls[c].Probed?
    case Rebuild(c) => c in s.calls && s.calls[c].Missed?
    case Publish(c) => c in s.calls && s.calls[c].Rebuilt?
    case _ => true
  }

  /** What the lock asks: `append` inserts only under it, and its transaction keeps it until it ends. */
  predicate Guarded(s: System, ev: Event) {
    match ev
    case TakeLock(tx) => s.lock == None || s.lock == Some(tx)
    case Insert(tx, _) => s.lock == Some(tx)
    case _ => true
  }

  predicate Enabled(s: System, ev: Event) {
    Ready(s, ev) && Guarded(s, ev)
  }

  function Publication(t: Table, rows: seq<Row>): Table {
    if rows == [] then t
    else Publication(t, rows[..|rows| - 1])[rows[|rows| - 1].number := rows[|rows| - 1].entry]
  }

  function Changed(H: Hasher, s: System, ev: Event): System
    requires Ready(s, ev)
  {
    match ev
    case TakeLock(tx) => s.(lock := Some(tx))
    case Insert(tx, entry) =>
      s.(drawn := s.drawn + 1, pending := s.pending[tx := Pending(s, tx) + [Row(s.drawn + 1, entry)]])
    case Commit(tx) =>
      s.(table := Publication(s.table, Pending(s, tx)),
         pending := s.pending - {tx},
         lock := if s.lock == Some(tx) then None else s.lock)
    case Rollback(tx) =>
      s.(pending := s.pending - {tx}, lock := if s.lock == Some(tx) then None else s.lock)
    case DeleteAccount(account) =>
      s.(table := map k | k in s.table && s.table[k].account != account :: s.table[k])
    case Probe(c) =>
      s.(calls := s.calls[c := Probed(|s.history|, FingerprintOf(s.table))])
    case Compare(c) =>
      var call := s.calls[c];
      if s.cached.Some? && s.cached.value.fingerprint == call.seen
      then s.(calls := s.calls[c := Returned(call.since, s.cached.value)])
      else s.(calls := s.calls[c := Missed(call.since)])
    case Rebuild(c) =>
      s.(calls := s.calls[c := Rebuilt(s.calls[c].since, SnapshotOf(H, s.table))])
    case Publish(c) =>
      s.(cached := Some(s.calls[c].rebuilt), calls := s.calls[c := Returned(s.calls[c].since, s.calls[c].rebuilt)])
  }

  function Next(H: Hasher, s: System, ev: Event): System
    requires Ready(s, ev)
  {
    var t := Changed(H, s, ev);
    t.(history := s.history + [t.table])
  }

  ghost predicate IsRun(H: Hasher, ss: seq<System>, evs: seq<Event>) {
    && |ss| == |evs| + 1
    && ss[0] == EMPTY
    && forall i | 0 <= i < |evs| :: Enabled(ss[i], evs[i]) && ss[i + 1] == Next(H, ss[i], evs[i])
  }

  // ------------------------------------------------------------------ what every step keeps

  /** `t` came after `h`: its rows are rows of `h`, or numbered past every one of them. */
  ghost predicate Newer(h: Table, t: Table) {
    forall k | k in t :: (k in h && h[k] == t[k]) || k > MaxSeq(h)
  }

  /** Nothing of `h` is missing from `t`. */
  ghost predicate Keeps(h: Table, t: Table) {
    forall k | k in h :: k in t && t[k] == h[k]
  }

  ghost predicate LogInv(s: System) {
    && s.history != [] && s.history[|s.history| - 1] == s.table
    && (forall i, j | 0 <= i <= j < |s.history| :: Newer(s.history[i], s.history[j]))
    && (forall t | t in s.history :: MaxSeq(t) <= s.drawn)
    && (forall tx | tx in s.pending && s.pending[tx] != [] :: s.lock == Some(tx))
    && (forall tx, t | tx in s.pending && t in s.history :: NumberedPast(s.pending[tx], t))
    && (forall tx, row | tx in s.pending && row in s.pending[tx] :: row.number <= s.drawn)
  }

  ghost predicate NumberedPast(rows: seq<Row>, t: Table) {
    forall row | row in rows :: row.number > MaxSeq(t)
  }

  lemma {:induction false} PublicationNewer(h: Table, t: Table, rows: seq<Row>)
    requires Newer(h, t) && NumberedPast(rows, h) && NumberedPast(rows, t)
    ensures Newer(h, Publication(t, rows)) && Keeps(t, Publication(t, rows))
  {
    if rows != [] { PublicationNewer(h, t, rows[..|rows| - 1]); }
  }

  lemma {:induction false} PublicationBounded(t: Table, rows: seq<Row>, drawn: nat)
    requires MaxSeq(t) <= drawn && forall row | row in rows :: row.number <= drawn
    ensures MaxSeq(Publication(t, rows)) <= drawn
  {
    if rows != [] { PublicationBounded(t, rows[..|rows| - 1], drawn); }
  }

  lemma HistoryGrows(s: System, t: Table)
    requires LogInv(s) && forall h | h in s.history :: Newer(h, t)
    ensures forall i, j | 0 <= i <= j < |s.history| + 1 :: Newer((s.history + [t])[i], (s.history + [t])[j])
  {
    forall i | 0 <= i < |s.history|
      ensures Newer(s.history[i], t)
    {
      assert s.history[i] in s.history;
    }
  }

  lemma TableStays(H: Hasher, s: System, ev: Event)
    requires LogInv(s) && Enabled(s, ev) && !ev.Commit? && !ev.DeleteAccount?
    ensures LogInv(Next(H, s, ev))
  {
    hide SnapshotOf, FingerprintOf, Publication;
    forall h | h in s.history
      ensures Newer(h, s.table)
    {
      var i :| 0 <= i < |s.history| && s.history[i] == h;
      assert Newer(s.history[i], s.history[|s.history| - 1]);
    }
    HistoryGrows(s, s.table);
    assert s.table in s.history;
  }

  lemma CommitKeeps(H: Hasher, s: System, tx: Tx)
    requires LogInv(s)
    ensures LogInv(Next(H, s, Commit(tx)))
    ensures Keeps(s.table, Next(H, s, Commit(tx)).table)
  {
    var rows, t := Pending(s, tx), Next(H, s, Commit(tx)).table;
    assert s.table in s.history;
    forall h | h in s.history
      ensures Newer(h, t)
    {
      var i :| 0 <= i < |s.history| && s.history[i] == h;
      assert Newer(s.history[i], s.history[|s.history| - 1]);
      PublicationNewer(h, s.table, rows);
    }
    PublicationNewer(s.table, s.table, rows);
    PublicationBounded(s.table, rows, s.drawn);
    HistoryGrows(s, t);
    if rows == [] {
      assert t == s.table;
    } else {
      assert forall other | other in s.pending && other != tx :: s.pending[other] == [];
    }
  }

  lemma DeleteKeeps(H: Hasher, s: System, account: Bytes)
    requires LogInv(s)
    ensures LogInv(Next(H, s, DeleteAccount(account)))
  {
    var t := Next(H, s, DeleteAccount(account)).table;
    assert s.table in s.history;
    assert t.Keys <= s.table.Keys;
    assert MaxSeq(t) <= MaxSeq(s.table);
    forall h | h in s.history
      ensures Newer(h, t)
    {
      var i :| 0 <= i < |s.history| && s.history[i] == h;
      assert Newer(s.history[i], s.history[|s.history| - 1]);
    }
    HistoryGrows(s, t);
  }

  lemma {:induction false} RunKeepsLog(H: Hasher, ss: seq<System>, evs: seq<Event>, i: nat)
    requires IsRun(H, ss, evs) && i <= |evs|
    ensures LogInv(ss[i]) && |ss[i].history| == i + 1
  {
    if i > 0 {
      RunKeepsLog(H, ss, evs, i - 1);
      match evs[i - 1]
      case Commit(tx) => CommitKeeps(H, ss[i - 1], tx);
      case DeleteAccount(account) => DeleteKeeps(H, ss[i - 1], account);
      case _ => TableStays(H, ss[i - 1], evs[i - 1]);
    }
  }

  lemma {:induction false} HistoryIsPast(H: Hasher, ss: seq<System>, evs: seq<Event>, i: nat, j: nat)
    requires IsRun(H, ss, evs) && i <= j <= |evs|
    ensures LogInv(ss[j]) && |ss[j].history| == j + 1 && ss[j].history[i] == ss[i].table
    decreases j
  {
    RunKeepsLog(H, ss, evs, j);
    if i < j { HistoryIsPast(H, ss, evs, i, j - 1); }
  }

  // ------------------------------------------------------------------ what is in the log, and why

  /** Step `a` drew the row's number, and its transaction has not ended before step `i`. */
  ghost predicate Drawn(ss: seq<System>, evs: seq<Event>, a: nat, i: nat, tx: Tx, row: Row)
    requires |ss| == |evs| + 1 && i <= |evs|
  {
    && a < i && evs[a] == Insert(tx, row.entry) && row.number == ss[a].drawn + 1
    && forall x | a < x < i :: evs[x] != Commit(tx) && evs[x] != Rollback(tx)
  }

  /** Drawn at step `a`, committed at step `b`, and its account not deleted since. */
  ghost predicate Landed(ss: seq<System>, evs: seq<Event>, a: nat, b: nat, i: nat, tx: Tx, row: Row)
    requires |ss| == |evs| + 1 && i <= |evs|
  {
    && b < i && Drawn(ss, evs, a, b, tx, row) && evs[b] == Commit(tx)
    && forall x | b < x < i :: evs[x] != DeleteAccount(row.entry.account)
  }

  predicate Holds(t: Table, row: Row) {
    row.number in t && t[row.number] == row.entry
  }

  lemma {:induction false} DrawnGrows(H: Hasher, ss: seq<System>, evs: seq<Event>, i: nat, j: nat)
    requires IsRun(H, ss, evs) && i <= j <= |evs|
    ensures ss[i].drawn <= ss[j].drawn
    ensures i < j && evs[i].Insert? ==> ss[i].drawn < ss[j].drawn
    decreases j
  {
    if i < j { DrawnGrows(H, ss, evs, i, j - 1); }
  }

  /** A number is drawn once. */
  lemma NumbersAreDrawnOnce(H: Hasher, ss: seq<System>, evs: seq<Event>, a: nat, b: nat)
    requires IsRun(H, ss, evs) && a < |evs| && b < |evs| && evs[a].Insert? && evs[b].Insert?
    requires ss[a].drawn == ss[b].drawn
    ensures a == b
  {
    if a < b { DrawnGrows(H, ss, evs, a, b); }
    if b < a { DrawnGrows(H, ss, evs, b, a); }
  }

  lemma PendingMoves(H: Hasher, s: System, ev: Event, tx: Tx, row: Row)
    requires Ready(s, ev)
    ensures row in Pending(Next(H, s, ev), tx) <==>
              || (row in Pending(s, tx) && ev != Commit(tx) && ev != Rollback(tx))
              || (ev == Insert(tx, row.entry) && row.number == s.drawn + 1)
  {
    hide SnapshotOf, FingerprintOf, Publication;
  }

  /** The rows a transaction holds back are those it drew and has not ended on. */
  lemma {:induction false} PendingExact(H: Hasher, ss: seq<System>, evs: seq<Event>, i: nat, tx: Tx, row: Row)
    requires IsRun(H, ss, evs) && i <= |evs|
    ensures row in Pending(ss[i], tx) <==> exists a: nat :: Drawn(ss, evs, a, i, tx, row)
  {
    hide Next, Pending, Enabled;
    if i == 0 {
      NothingPending(tx);
    } else {
      PendingExact(H, ss, evs, i - 1, tx, row);
      StepIsReady(H, ss, evs, i - 1);
      PendingMoves(H, ss[i - 1], evs[i - 1], tx, row);
      if row in Pending(ss[i], tx) {
        if row in Pending(ss[i - 1], tx) && evs[i - 1] != Commit(tx) && evs[i - 1] != Rollback(tx) {
          var a: nat :| Drawn(ss, evs, a, i - 1, tx, row);
          assert Drawn(ss, evs, a, i, tx, row);
        } else {
          assert Drawn(ss, evs, i - 1, i, tx, row);
        }
      }
      if a: nat :| Drawn(ss, evs, a, i, tx, row) {
        if a < i - 1 { assert Drawn(ss, evs, a, i - 1, tx, row); }
      }
    }
  }

  lemma NothingPending(tx: Tx)
    ensures Pending(EMPTY, tx) == []
  {
  }

  lemma StepIsReady(H: Hasher, ss: seq<System>, evs: seq<Event>, i: nat)
    requires IsRun(H, ss, evs) && i < |evs|
    ensures Ready(ss[i], evs[i]) && ss[i + 1] == Next(H, ss[i], evs[i])
  {
  }

  lemma {:induction false} PublicationExact(t: Table, rows: seq<Row>, row: Row)
    requires NumberedPast(rows, t) && forall x, y | x in rows && y in rows && x.number == y.number :: x == y
    ensures Holds(Publication(t, rows), row) <==> Holds(t, row) || row in rows
  {
    if rows != [] {
      var before, last := rows[..|rows| - 1], rows[|rows| - 1];
      assert rows == before + [last];
      PublicationExact(t, before, row);
    }
  }

  /** The rows of one transaction bear numbers of their own. */
  lemma PendingDistinct(H: Hasher, ss: seq<System>, evs: seq<Event>, i: nat, tx: Tx, x: Row, y: Row)
    requires IsRun(H, ss, evs) && i <= |evs| && x in Pending(ss[i], tx) && y in Pending(ss[i], tx)
    requires x.number == y.number
    ensures x == y
  {
    hide Pending, Next, Enabled;
    PendingExact(H, ss, evs, i, tx, x);
    PendingExact(H, ss, evs, i, tx, y);
    var a: nat :| Drawn(ss, evs, a, i, tx, x);
    var b: nat :| Drawn(ss, evs, b, i, tx, y);
    NumbersAreDrawnOnce(H, ss, evs, a, b);
  }

  /** Only a commit and a cascade move the table. */
  lemma TableMoves(H: Hasher, ss: seq<System>, evs: seq<Event>, i: nat, row: Row)
    requires IsRun(H, ss, evs) && i < |evs|
    ensures !evs[i].Commit? && !evs[i].DeleteAccount? ==> ss[i + 1].table == ss[i].table
    ensures Holds(ss[i + 1].table, row) <==>
              || (Holds(ss[i].table, row) && evs[i] != DeleteAccount(row.entry.account))
              || (evs[i].Commit? && row in Pending(ss[i], evs[i].tx))
  {
    hide SnapshotOf, FingerprintOf, Publication;
    RunKeepsLog(H, ss, evs, i);
    StepIsReady(H, ss, evs, i);
    if evs[i].Commit? {
      var tx := evs[i].tx;
      forall x, y | x in Pending(ss[i], tx) && y in Pending(ss[i], tx) && x.number == y.number
        ensures x == y
      {
        PendingDistinct(H, ss, evs, i, tx, x, y);
      }
      PendingIsPast(ss[i], tx);
      PublicationExact(ss[i].table, Pending(ss[i], tx), row);
    }
  }

  lemma PendingIsPast(s: System, tx: Tx)
    requires LogInv(s)
    ensures NumberedPast(Pending(s, tx), s.table)
  {
    assert s.table in s.history;
  }

  /** In every run the committed table holds exactly the rows whose transaction drew them, committed and was not rolled
      back in between, less those of accounts deleted since: every row of such a transaction, each under the number it
      drew. */
  lemma {:induction false} TableExact(H: Hasher, ss: seq<System>, evs: seq<Event>, i: nat, row: Row)
    requires IsRun(H, ss, evs) && i <= |evs|
    ensures Holds(ss[i].table, row) <==> exists a: nat, b: nat, tx: Tx :: Landed(ss, evs, a, b, i, tx, row)
  {
    hide Next, Enabled, Pending;
    if i == 0 {
      NothingLogged(H, ss, evs);
    } else {
      TableExact(H, ss, evs, i - 1, row);
      TableMoves(H, ss, evs, i - 1, row);
      if Holds(ss[i].table, row) {
        if evs[i - 1].Commit? && row in Pending(ss[i - 1], evs[i - 1].tx) {
          PendingExact(H, ss, evs, i - 1, evs[i - 1].tx, row);
          var a: nat :| Drawn(ss, evs, a, i - 1, evs[i - 1].tx, row);
          assert Landed(ss, evs, a, i - 1, i, evs[i - 1].tx, row);
        } else {
          var a: nat, b: nat, tx: Tx :| Landed(ss, evs, a, b, i - 1, tx, row);
          assert Landed(ss, evs, a, b, i, tx, row);
        }
      }
      if a: nat, b: nat, tx: Tx :| Landed(ss, evs, a, b, i, tx, row) {
        if b == i - 1 {
          PendingExact(H, ss, evs, i - 1, tx, row);
        } else {
          assert Landed(ss, evs, a, b, i - 1, tx, row);
        }
      }
    }
  }

  lemma NothingLogged(H: Hasher, ss: seq<System>, evs: seq<Event>)
    requires IsRun(H, ss, evs)
    ensures ss[0].table == map[]
  {
  }

  /** A roll-back leaves a hole for ever: no row bears a number drawn in a transaction that was rolled back. */
  lemma RollbackLeavesAHole(H: Hasher, ss: seq<System>, evs: seq<Event>, a: nat, b: nat, tx: Tx, entry: Entry, i: nat)
    requires IsRun(H, ss, evs) && a < b < |evs| && i <= |evs|
    requires Drawn(ss, evs, a, b, tx, Row(ss[a].drawn + 1, entry)) && evs[b] == Rollback(tx)
    ensures ss[a].drawn + 1 !in ss[i].table
  {
    hide Next, Enabled;
    var k := ss[a].drawn + 1;
    if k in ss[i].table {
      var row := Row(k, ss[i].table[k]);
      TableExact(H, ss, evs, i, row);
      var c: nat, d: nat, other: Tx :| Landed(ss, evs, c, d, i, other, row);
      NumbersAreDrawnOnce(H, ss, evs, a, c);
    }
  }

  // ------------------------------------------------------------------ the fingerprint tells tables apart

  lemma FingerprintDecides(h: Table, t: Table)
    requires Newer(h, t) && FingerprintOf(h) == FingerprintOf(t)
    ensures h == t
  {
    assert t.Keys <= h.Keys;
    SameSize(t.Keys, h.Keys);
  }

  lemma SameSize<T>(a: set<T>, b: set<T>)
    requires a <= b && |a| == |b|
    ensures a == b
  {
    assert b == a + (b - a);
  }

  /** Over any history of appends, roll-backs and account deletions, one fingerprint at two moments means one
      table: the cache may trust it. */
  lemma EqualFingerprintsEqualTables(H: Hasher, ss: seq<System>, evs: seq<Event>, i: nat, j: nat)
    requires IsRun(H, ss, evs) && i <= j <= |evs|
    requires FingerprintOf(ss[i].table) == FingerprintOf(ss[j].table)
    ensures ss[i].table == ss[j].table
  {
    HistoryIsPast(H, ss, evs, i, j);
    FingerprintDecides(ss[i].table, ss[j].table);
  }

  // ------------------------------------------------------------------ the cache

  ghost predicate Was(H: Hasher, history: seq<Table>, since: nat, snapshot: Snapshot) {
    exists t: nat :: since <= t < |history| && snapshot == SnapshotOf(H, history[t])
  }

  ghost predicate CallInv(H: Hasher, history: seq<Table>, call: Call) {
    match call
    case Probed(since, seen) => since < |history| && seen == FingerprintOf(history[since])
    case Missed(since) => since < |history|
    case Rebuilt(since, snapshot) => Was(H, history, since, snapshot)
    case Returned(since, snapshot) => Was(H, history, since, snapshot)
  }

  ghost predicate CacheInv(H: Hasher, s: System) {
    && (s.cached.Some? ==> Was(H, s.history, 0, s.cached.value))
    && forall c | c in s.calls :: CallInv(H, s.history, s.calls[c])
  }

  lemma WasStays(H: Hasher, history: seq<Table>, t: Table, since: nat, snapshot: Snapshot)
    requires Was(H, history, since, snapshot)
    ensures Was(H, history + [t], since, snapshot) && Was(H, history + [t], 0, snapshot)
  {
    var i: nat :| since <= i < |history| && snapshot == SnapshotOf(H, history[i]);
    assert (history + [t])[i] == history[i];
  }

  lemma CallStays(H: Hasher, history: seq<Table>, t: Table, call: Call)
    requires CallInv(H, history, call)
    ensures CallInv(H, history + [t], call)
  {
    match call
    case Rebuilt(since, snapshot) => WasStays(H, history, t, since, snapshot);
    case Returned(since, snapshot) => WasStays(H, history, t, since, snapshot);
    case _ =>
  }

  /** A hit hands out the table of the probe itself. */
  lemma {:induction false} HitIsCurrent(H: Hasher, s: System, since: nat)
    requires LogInv(s) && CacheInv(H, s) && s.cached.Some? && since < |s.history|
    requires s.cached.value.fingerprint == FingerprintOf(s.history[since])
    ensures s.cached.value == SnapshotOf(H, s.history[since])
  {
    var t: nat :| t < |s.history| && s.cached.value == SnapshotOf(H, s.history[t]);
    if t <= since {
      FingerprintDecides(s.history[t], s.history[since]);
    } else {
      FingerprintDecides(s.history[since], s.history[t]);
    }
  }

  /** One call moves on, the rest of the cache's state stays. */
  lemma CallMoves(H: Hasher, s: System, t: Table, c: nat, call: Call)
    requires CacheInv(H, s) && CallInv(H, s.history + [t], call)
    ensures CacheInv(H, s.(history := s.history + [t]))
    ensures CacheInv(H, s.(calls := s.calls[c := call], history := s.history + [t]))
  {
    forall d | d in s.calls
      ensures CallInv(H, s.history + [t], s.calls[d])
    {
      CallStays(H, s.history, t, s.calls[d]);
    }
    if s.cached.Some? { WasStays(H, s.history, t, 0, s.cached.value); }
  }

  lemma CompareKeeps(H: Hasher, s: System, c: nat)
    requires LogInv(s) && CacheInv(H, s) && Enabled(s, Compare(c))
    ensures CacheInv(H, Next(H, s, Compare(c)))
  {
    var since, s' := s.calls[c].since, Next(H, s, Compare(c));
    assert CallInv(H, s.history, s.calls[c]);
    assert s'.history[since] == s.history[since];
    if s'.calls[c].Returned? { HitIsCurrent(H, s, since); }
    CallMoves(H, s, s.table, c, s'.calls[c]);
  }

  lemma RebuildKeeps(H: Hasher, s: System, c: nat)
    requires CacheInv(H, s) && Enabled(s, Rebuild(c))
    ensures CacheInv(H, Next(H, s, Rebuild(c)))
  {
    var s' := Next(H, s, Rebuild(c));
    assert CallInv(H, s.history, s.calls[c]);
    assert s'.history[|s.history|] == s.table;
    CallMoves(H, s, s.table, c, s'.calls[c]);
  }

  lemma PublishKeeps(H: Hasher, s: System, c: nat)
    requires CacheInv(H, s) && Enabled(s, Publish(c))
    ensures CacheInv(H, Next(H, s, Publish(c)))
  {
    var call, s' := s.calls[c], Next(H, s, Publish(c));
    assert CallInv(H, s.history, call);
    WasStays(H, s.history, s.table, call.since, call.rebuilt);
    CallMoves(H, s, s.table, c, s'.calls[c]);
  }

  lemma CacheKeeps(H: Hasher, s: System, ev: Event)
    requires LogInv(s) && CacheInv(H, s) && Enabled(s, ev)
    ensures CacheInv(H, Next(H, s, ev))
  {
    match ev
    case Probe(c) =>
      assert (s.history + [s.table])[|s.history|] == s.table;
      CallMoves(H, s, s.table, c, Probed(|s.history|, FingerprintOf(s.table)));
    case Compare(c) => CompareKeeps(H, s, c);
    case Rebuild(c) => RebuildKeeps(H, s, c);
    case Publish(c) => PublishKeeps(H, s, c);
    case _ =>
      CallMoves(H, s, Next(H, s, ev).table, 0, Missed(0));
  }

  lemma {:induction false} RunKeepsCache(H: Hasher, ss: seq<System>, evs: seq<Event>, i: nat)
    requires IsRun(H, ss, evs) && i <= |evs|
    ensures CacheInv(H, ss[i])
  {
    if i > 0 {
      RunKeepsCache(H, ss, evs, i - 1);
      RunKeepsLog(H, ss, evs, i - 1);
      CacheKeeps(H, ss[i - 1], evs[i - 1]);
    }
  }

  /** A call remembers the moment of its own probe. */
  lemma {:induction false} SinceIsTheProbe(H: Hasher, ss: seq<System>, evs: seq<Event>, i: nat, c: nat)
    requires IsRun(H, ss, evs) && i <= |evs| && c in ss[i].calls
    ensures 0 < ss[i].calls[c].since <= i && evs[ss[i].calls[c].since - 1] == Probe(c)
  {
    hide Next, Enabled, LogInv;
    if i == 0 {
      NobodyCalls(c);
    } else {
      RunKeepsLog(H, ss, evs, i - 1);
      StepIsReady(H, ss, evs, i - 1);
      CallsMove(H, ss[i - 1], evs[i - 1], c);
      if c in ss[i - 1].calls { SinceIsTheProbe(H, ss, evs, i - 1, c); }
    }
  }

  lemma NobodyCalls(c: nat)
    ensures c !in EMPTY.calls
  {
  }

  lemma CallsMove(H: Hasher, s: System, ev: Event, c: nat)
    requires Ready(s, ev)
    ensures var t := Next(H, s, ev);
            c in t.calls ==>
              if c in s.calls then t.calls[c].since == s.calls[c].since
              else ev == Probe(c) && t.calls[c].since == |s.history|
  {
    hide SnapshotOf, FingerprintOf, Publication, Pending;
  }

  /** Whatever a `snapshot` call returns, from the cache or rebuilt, with calls racing and overwriting each
      other's trees, was the committed table at one moment between its probe and its answer. */
  lemma SnapshotWasTheTable(H: Hasher, ss: seq<System>, evs: seq<Event>, i: nat, c: nat) returns (t: nat)
    requires IsRun(H, ss, evs) && i <= |evs|
    requires c in ss[i].calls && ss[i].calls[c].Returned?
    ensures 0 < ss[i].calls[c].since <= t <= i && evs[ss[i].calls[c].since - 1] == Probe(c)
    ensures ss[i].calls[c].answer == SnapshotOf(H, ss[t].table)
  {
    SinceIsTheProbe(H, ss, evs, i, c);
    RunKeepsCache(H, ss, evs, i);
    RunKeepsLog(H, ss, evs, i);
    var call := ss[i].calls[c];
    assert CallInv(H, ss[i].history, call);
    t :| call.since <= t < |ss[i].history| && call.answer == SnapshotOf(H, ss[i].history[t]);
    HistoryIsPast(H, ss, evs, t, i);
  }

  // ------------------------------------------------------------------ the log grows at its end

  ghost predicate AppendOnly(evs: seq<Event>) {
    forall ev | ev in evs :: !ev.DeleteAccount?
  }

  lemma StepKeeps(H: Hasher, s: System, ev: Event)
    requires LogInv(s) && Enabled(s, ev) && !ev.DeleteAccount?
    ensures Keeps(s.table, Next(H, s, ev).table)
  {
    if ev.Commit? { CommitKeeps(H, s, ev.tx); }
  }

  lemma KeepsTransitive(a: Table, b: Table, c: Table)
    requires Keeps(a, b) && Keeps(b, c)
    ensures Keeps(a, c)
  {
  }

  lemma NewerLater(H: Hasher, ss: seq<System>, evs: seq<Event>, i: nat, j: nat)
    requires IsRun(H, ss, evs) && i <= j <= |evs|
    ensures Newer(ss[i].table, ss[j].table)
  {
    HistoryIsPast(H, ss, evs, i, j);
  }

  lemma {:induction false} TablesGrow(H: Hasher, ss: seq<System>, evs: seq<Event>, i: nat, j: nat)
    requires IsRun(H, ss, evs) && AppendOnly(evs) && i <= j <= |evs|
    ensures Keeps(ss[i].table, ss[j].table) && Newer(ss[i].table, ss[j].table)
    decreases j
  {
    NewerLater(H, ss, evs, i, j);
    if i < j {
      TablesGrow(H, ss, evs, i, j - 1);
      RunKeepsLog(H, ss, evs, j - 1);
      assert evs[j - 1] in evs;
      StepKeeps(H, ss[j - 1], evs[j - 1]);
      KeepsTransitive(ss[i].table, ss[j - 1].table, ss[j].table);
    }
  }

  /** Rows numbered past all others come after them. */
  lemma {:induction false} OrderByExtends(h: Table, t: Table)
    requires Keeps(h, t) && Newer(h, t)
    ensures OrderBy(h) <= OrderBy(t)
    decreases |t|
  {
    assert h.Keys <= t.Keys;
    if h.Keys == t.Keys {
      assert h == t;
    } else {
      var k := MaxSeq(t);
      assert k !in h by {
        var added :| added in t && added !in h;
      }
      assert (t - {k}).Keys == t.Keys - {k};
      OrderByExtends(h, t - {k});
    }
  }

  lemma LeavesExtend(H: Hasher, h: Table, t: Table)
    requires Keeps(h, t) && Newer(h, t)
    ensures Leaves(H, h) <= Leaves(H, t)
  {
    OrderByExtends(h, t);
  }

  /** Any two heads the server hands out over an append-only run are consistent: the proof it builds for
      them is accepted, whichever call was answered first. */
  lemma ServedHeadsAreConsistent(H: Hasher, ss: seq<System>, evs: seq<Event>, i: nat, c: nat, j: nat, d: nat)
    requires IsRun(H, ss, evs) && AppendOnly(evs) && i <= |evs| && j <= |evs|
    requires c in ss[i].calls && ss[i].calls[c].Returned? && d in ss[j].calls && ss[j].calls[d].Returned?
    requires var a, b := ss[i].calls[c].answer, ss[j].calls[d].answer; 0 < |a.leaves| <= |b.leaves|
    ensures var a, b := ss[i].calls[c].answer, ss[j].calls[d].answer;
            && a.leaves <= b.leaves
            && Extends(H, |a.leaves|, a.root, |b.leaves|, b.root, ConsistencyProof(H, b.leaves, |a.leaves|).value)
  {
    var a, b := ss[i].calls[c].answer, ss[j].calls[d].answer;
    hide Leaves, Keeps, Newer, Extends, Root;
    var t := SnapshotWasTheTable(H, ss, evs, i, c);
    var u := SnapshotWasTheTable(H, ss, evs, j, d);
    if t <= u {
      TablesGrow(H, ss, evs, t, u);
      LeavesExtend(H, ss[t].table, ss[u].table);
    } else {
      TablesGrow(H, ss, evs, u, t);
      LeavesExtend(H, ss[u].table, ss[t].table);
    }
    assert a.leaves <= b.leaves;
    ConsistencyComplete(H, b.leaves, |a.leaves|);
    assert b.leaves[..|a.leaves|] == a.leaves;
  }

  // ------------------------------------------------------------------ a served inclusion answer

  /** `latest`: the account's row of largest `seq`. */
  ghost predicate IsLatest(t: Table, account: Bytes, k: nat) {
    k in t && t[k].account == account && forall j | j in t && t[j].account == account :: j <= k
  }

  /** `index_of`: rows numbered below. */
  function IndexOf(t: Table, k: nat): nat {
    |set j | j in t && j < k|
  }

  lemma {:induction false} IndexLocates(t: Table, k: nat)
    requires k in t
    ensures IndexOf(t, k) < |t| && OrderBy(t)[IndexOf(t, k)] == Row(k, t[k])
    decreases |t|
  {
    var m := MaxSeq(t);
    var rest := t - {m};
    assert rest.Keys == t.Keys - {m};
    if k == m {
      assert (set j | j in t && j < k) == rest.Keys;
    } else {
      assert (set j | j in t && j < k) == (set j | j in rest && j < k);
      IndexLocates(rest, k);
    }
  }

  /** An answer put together from the tree of moment `t`, the latest row of moment `u` and the index of moment `v`. */
  lemma AnswerVerifies(H: Hasher, ss: seq<System>, evs: seq<Event>, t: nat, u: nat, v: nat, account: Bytes, k: nat)
    requires IsRun(H, ss, evs) && AppendOnly(evs) && t <= u <= v <= |evs|
    requires IsLatest(ss[u].table, account, k)
    ensures var tree, index := SnapshotOf(H, ss[t].table), IndexOf(ss[v].table, k);
            var proof := InclusionProof(H, tree.leaves, index);
            && (proof.Ok? <==> k in ss[t].table)
            && (proof.Ok? ==>
                  && IsLatest(ss[t].table, account, k) && k in ss[u].table
                  && Includes(H, LeafHash(H, EntryBytes(ss[u].table[k])), index, |tree.leaves|, tree.root, proof.value))
  {
    TablesGrow(H, ss, evs, t, u);
    TablesGrow(H, ss, evs, u, v);
    TablesGrow(H, ss, evs, t, v);
    OrderByExtends(ss[t].table, ss[v].table);
    IndexLocates(ss[v].table, k);
    var tree, index := SnapshotOf(H, ss[t].table), IndexOf(ss[v].table, k);
    if index < |tree.leaves| {
      assert OrderBy(ss[t].table)[index] == OrderBy(ss[v].table)[index];
      RowInTable(ss[t].table, index);
      InclusionComplete(H, tree.leaves, index);
    }
    if k in ss[t].table {
      var a, b := ss[t].table, ss[v].table;
      assert (set j | j in b && j < k) <= a.Keys - {k};
      SubsetSize((set j | j in b && j < k), a.Keys - {k});
    }
  }

  /** `log_proof`: a snapshot call `c` has returned by moment `i`, the account's latest row is read at `u`, that row's
      index at `v`, with appends landing in between. The route answers exactly when the row is in the tree `c` returned
      (which was the table at one moment `t` of the call), and its answer then verifies against the head of that tree:
      the key served is in it, at the index served, and is the account's newest there. */
  lemma ServedInclusionVerifies(H: Hasher, ss: seq<System>, evs: seq<Event>, i: nat, c: nat, u: nat, v: nat,
                                account: Bytes, k: nat) returns (t: nat)
    requires IsRun(H, ss, evs) && AppendOnly(evs) && i <= u <= v <= |evs|
    requires c in ss[i].calls && ss[i].calls[c].Returned? && IsLatest(ss[u].table, account, k)
    ensures ss[i].calls[c].since <= t <= i && ss[i].calls[c].answer == SnapshotOf(H, ss[t].table)
    ensures var tree, index := ss[i].calls[c].answer, IndexOf(ss[v].table, k);
            var proof := InclusionProof(H, tree.leaves, index);
            && (proof.Ok? <==> k in ss[t].table)
            && (proof.Ok? ==>
                  && IsLatest(ss[t].table, account, k) && k in ss[u].table
                  && Includes(H, LeafHash(H, EntryBytes(ss[u].table[k])), index, |tree.leaves|, tree.root, proof.value))
  {
    t := SnapshotWasTheTable(H, ss, evs, i, c);
    AnswerVerifies(H, ss, evs, t, u, v, account, k);
  }

  lemma SubsetSize<T>(a: set<T>, b: set<T>)
    requires a <= b
    ensures |a| <= |b|
  {
    assert b == a + (b - a);
  }

  lemma {:induction false} RowInTable(t: Table, i: nat)
    requires i < |t|
    ensures OrderBy(t)[i].number in t
    decreases |t|
  {
    var m := MaxSeq(t);
    assert (t - {m}).Keys == t.Keys - {m};
    if i < |t| - 1 { RowInTable(t - {m}, i); }
  }

  // ------------------------------------------------------------------ what the lock buys

  /** A run of the same machine with the lock's guard taken away. */
  ghost predicate IsUnguardedRun(H: Hasher, ss: seq<System>, evs: seq<Event>) {
    && |ss| == |evs| + 1
    && ss[0] == EMPTY
    && forall i | 0 <= i < |evs| :: Ready(ss[i], evs[i]) && ss[i + 1] == Next(H, ss[i], evs[i])
  }

  /** Two transactions draw 1 and 2, the second commits, a head is served, the first commits, a head is served. */
  function RacingAppends(first: Entry, second: Entry): seq<Event> {
    [Insert(1, first), Insert(2, second), Commit(2), Probe(0), Compare(0), Rebuild(0), Publish(0),
     Commit(1), Probe(1), Compare(1), Rebuild(1), Publish(1)]
  }

  ghost predicate Steps(H: Hasher, s: System, ev: Event, t: System) {
    Ready(s, ev) && t == Next(H, s, ev)
  }

  /** A snapshot call that misses, step by step. */
  lemma MissServes(H: Hasher, s: System, c: nat) returns (p: System, q: System, r: System, t: System)
    requires c !in s.calls && (s.cached.Some? ==> s.cached.value.fingerprint != FingerprintOf(s.table))
    ensures Steps(H, s, Probe(c), p) && Steps(H, p, Compare(c), q)
    ensures Steps(H, q, Rebuild(c), r) && Steps(H, r, Publish(c), t)
    ensures t.table == s.table && t.pending == s.pending && t.cached == Some(SnapshotOf(H, s.table))
    ensures t.calls == s.calls[c := Returned(|s.history|, SnapshotOf(H, s.table))]
  {
    hide SnapshotOf, FingerprintOf, Publication, Pending;
    p := Next(H, s, Probe(c));
    q := Next(H, p, Compare(c));
    r := Next(H, q, Rebuild(c));
    t := Next(H, r, Publish(c));
  }

  lemma CommitPublishes(H: Hasher, s: System, tx: Tx)
    ensures Steps(H, s, Commit(tx), Next(H, s, Commit(tx)))
    ensures var t := Next(H, s, Commit(tx));
            && t.table == Publication(s.table, Pending(s, tx)) && t.pending == s.pending - {tx}
            && t.cached == s.cached && t.calls == s.calls
  {
  }

  lemma InsertWaits(H: Hasher, s: System, tx: Tx, entry: Entry)
    requires tx !in s.pending
    ensures Steps(H, s, Insert(tx, entry), Next(H, s, Insert(tx, entry)))
    ensures var t := Next(H, s, Insert(tx, entry));
            && t.table == s.table && t.pending == s.pending[tx := [Row(s.drawn + 1, entry)]]
            && t.drawn == s.drawn + 1 && t.cached == s.cached && t.calls == s.calls
  {
    assert [] + [Row(s.drawn + 1, entry)] == [Row(s.drawn + 1, entry)];
  }

  /** Two inserts side by side and the later number committed first. */
  lemma LaterNumberFirst(H: Hasher, first: Entry, second: Entry) returns (a: System, b: System, c: System)
    ensures Steps(H, EMPTY, Insert(1, first), a) && Steps(H, a, Insert(2, second), b) && Steps(H, b, Commit(2), c)
    ensures c.table == map[2 := second] && c.pending == map[1 := [Row(1, first)]]
    ensures c.cached == None && c.calls == map[]
  {
    hide Steps, Next, Publication;
    a := Next(H, EMPTY, Insert(1, first));
    InsertWaits(H, EMPTY, 1, first);
    b := Next(H, a, Insert(2, second));
    InsertWaits(H, a, 2, second);
    c := Next(H, b, Commit(2));
    CommitPublishes(H, b, 2);
    PublishOne(map[], Row(2, second));
    assert b.pending - {2} == map[1 := [Row(1, first)]];
  }

  lemma PublishOne(t: Table, row: Row)
    ensures Publication(t, [row]) == t[row.number := row.entry]
  {
    assert [row][..0] == [];
  }

  lemma TwelveSteps(H: Hasher, first: Entry, second: Entry, ss: seq<System>)
    requires |ss| == 13 && ss[0] == EMPTY
    requires Steps(H, ss[0], Insert(1, first), ss[1]) && Steps(H, ss[1], Insert(2, second), ss[2])
    requires Steps(H, ss[2], Commit(2), ss[3]) && Steps(H, ss[3], Probe(0), ss[4])
    requires Steps(H, ss[4], Compare(0), ss[5]) && Steps(H, ss[5], Rebuild(0), ss[6])
    requires Steps(H, ss[6], Publish(0), ss[7]) && Steps(H, ss[7], Commit(1), ss[8])
    requires Steps(H, ss[8], Probe(1), ss[9]) && Steps(H, ss[9], Compare(1), ss[10])
    requires Steps(H, ss[10], Rebuild(1), ss[11]) && Steps(H, ss[11], Publish(1), ss[12])
    ensures IsUnguardedRun(H, ss, RacingAppends(first, second))
  {
    hide Next, Ready;
    var evs := RacingAppends(first, second);
    forall i | 0 <= i < 12
      ensures Ready(ss[i], evs[i]) && ss[i + 1] == Next(H, ss[i], evs[i])
    {
      assert Steps(H, ss[i], evs[i], ss[i + 1]);
    }
  }

  lemma EarlierNumberLast(H: Hasher, first: Entry, second: Entry, s: System) returns (t: System)
    requires s.table == map[2 := second] && s.pending == map[1 := [Row(1, first)]] && s.calls.Keys == {0}
    requires s.cached == Some(SnapshotOf(H, s.table))
    ensures Steps(H, s, Commit(1), t)
    ensures t.table == map[2 := second, 1 := first] && t.calls == s.calls
    ensures t.cached.Some? && t.cached.value.fingerprint != FingerprintOf(t.table)
  {
    hide Changed, Next, Leaves, Publication;
    t := Next(H, s, Commit(1));
    CommitPublishes(H, s, 1);
    PublishOne(s.table, Row(1, first));
    SizesDiffer(first, second);
  }

  /** The racing appends are a run of the unguarded machine, and what its two heads are made of. */
  lemma RacingRun(H: Hasher, first: Entry, second: Entry) returns (ss: seq<System>)
    ensures IsUnguardedRun(H, ss, RacingAppends(first, second))
    ensures 0 in ss[12].calls && ss[12].calls[0].Returned? && 1 in ss[12].calls && ss[12].calls[1].Returned?
    ensures ss[12].calls[0].answer == SnapshotOf(H, map[2 := second])
    ensures ss[12].calls[1].answer == SnapshotOf(H, map[2 := second, 1 := first])
  {
    hide Steps, SnapshotOf, FingerprintOf, IsUnguardedRun, RacingAppends;
    var a, b, c := LaterNumberFirst(H, first, second);
    var d, e, f, g := MissServes(H, c, 0);
    var h := EarlierNumberLast(H, first, second, g);
    var i, j, k, l := MissServes(H, h, 1);
    ss := [EMPTY, a, b, c, d, e, f, g, h, i, j, k, l];
    TwelveSteps(H, first, second, ss);
  }

  lemma SizesDiffer(first: Entry, second: Entry)
    ensures FingerprintOf(map[2 := second]) != FingerprintOf(map[2 := second][1 := first])
    ensures map[2 := second][1 := first] == map[2 := second, 1 := first]
  {
    assert 1 in map[2 := second][1 := first] && 1 !in map[2 := second];
    assert |map[2 := second][1 := first]| == 2;
  }

  lemma RacingLeaves(H: Hasher, first: Entry, second: Entry)
    ensures Leaves(H, map[2 := second]) == [LeafHash(H, EntryBytes(second))]
    ensures Leaves(H, map[2 := second, 1 := first]) == [LeafHash(H, EntryBytes(first)), LeafHash(H, EntryBytes(second))]
  {
    var seen: Table := map[2 := second];
    var later: Table := map[2 := second, 1 := first];
    assert 2 in seen && 2 in later && 1 in map[1 := first];
    assert MaxSeq(seen) == 2 && MaxSeq(later) == 2 && MaxSeq(map[1 := first]) == 1;
    assert seen - {2} == map[] && later - {2} == map[1 := first] && map[1 := first] - {1} == map[];
    assert OrderBy(seen) == [Row(2, second)];
    assert OrderBy(later) == [Row(1, first), Row(2, second)];
  }

  /** Without the guard, a run serves two heads of which the later is no extension of the earlier: the leaf a client
      counted has moved, and no proof at all takes it from the one head to the other. */
  lemma WithoutTheLockALeafMoves(H: Hasher, S: set<Bytes>, first: Entry, second: Entry) returns (ss: seq<System>)
    requires first != second && FieldsFit(first) && NoCollision(H, S)
    requires [LEAF_PREFIX] + EntryBytes(first) in S && [LEAF_PREFIX] + EntryBytes(second) in S
    requires TreeHashedIn(H, S, [LeafHash(H, EntryBytes(first)), LeafHash(H, EntryBytes(second))])
    ensures IsUnguardedRun(H, ss, RacingAppends(first, second))
    ensures 0 in ss[12].calls && ss[12].calls[0].Returned? && 1 in ss[12].calls && ss[12].calls[1].Returned?
    ensures var a, b := ss[12].calls[0].answer, ss[12].calls[1].answer;
            && |a.leaves| == 1 && |b.leaves| == 2 && !(a.leaves <= b.leaves)
            && forall proof | CheckHashedIn(H, S, 1, a.root, 2, proof) :: !Extends(H, 1, a.root, 2, b.root, proof)
  {
    ss := RacingRun(H, first, second);
    var a, b := ss[12].calls[0].answer, ss[12].calls[1].answer;
    RacingLeaves(H, first, second);
    if a.leaves[0] == b.leaves[0] {
      SplitConcat([LEAF_PREFIX], EntryBytes(first), [LEAF_PREFIX], EntryBytes(second));
      EntryInjective(first, second);
    }
    forall proof | CheckHashedIn(H, S, 1, a.root, 2, proof)
      ensures !Extends(H, 1, a.root, 2, b.root, proof)
    {
      ConsistencyExact(H, S, a.leaves, b.leaves, proof);
    }
  }
}

/** Stored bytes per account: the four paths that write or delete payloads, and the counter each of them moves.
    Every database transaction is one atomic step; instants are seconds. */
module Storage {
  import opened Prelude

  type Account = string
  type Device = string
  type GroupId = Bytes
  type Instant = int

  const DAY: int := 86400
  const ENVELOPE_RETENTION: int := 30 * DAY
  const ATTACHMENT_RETENTION: int := 90 * DAY
  const MAX_VAULT_ENTRIES: nat := 200

  datatype ApiError = BadRequest | Forbidden | InsufficientStorage | DatabaseFault

  /** `account` is absent on rows older than the counters. */
  datatype Attachment = Attachment(group: GroupId, account: Option<Account>, payload: Bytes, created: Instant)

  /** Primary key: account, group and sequence. */
  datatype VaultRow = VaultRow(account: Account, group: GroupId, sequence: int, payload: Bytes)

  datatype VaultEntry = VaultEntry(sequence: int, payload: Bytes)

  datatype Membership = Membership(group: GroupId, device: Device)

  datatype EnvelopeRow = EnvelopeRow(group: GroupId, sequence: nat, created: Instant)

  /** The tables these transactions touch. `devices` holds the devices that are not revoked. */
  datatype Tables = Tables(
    counters: map<Account, int>,
    attachments: seq<Attachment>,
    vault: seq<VaultRow>,
    groups: set<GroupId>,
    members: set<Membership>,
    envelopes: set<EnvelopeRow>,
    devices: map<Device, Account>)

  // ------------------------------------------------------------------ what an account stores

  function AttachmentBytes(rows: seq<Attachment>, a: Account): nat {
    if rows == [] then 0
    else
      var last := rows[|rows| - 1];
      AttachmentBytes(rows[..|rows| - 1], a) + (if last.account == Some(a) then |last.payload| else 0)
  }

  function VaultBytes(rows: seq<VaultRow>, a: Account): nat {
    if rows == [] then 0
    else
      var last := rows[|rows| - 1];
      VaultBytes(rows[..|rows| - 1], a) + (if last.account == a then |last.payload| else 0)
  }

  ghost predicate Unique(rows: seq<VaultRow>) {
    forall i, j | 0 <= i < j < |rows| ::
      !(rows[i].account == rows[j].account && rows[i].group == rows[j].group && rows[i].sequence == rows[j].sequence)
  }

  /** Foreign keys and the primary key of the vault. */
  ghost predicate WellKeyed(t: Tables) {
    && (forall x | x in t.attachments :: x.group in t.groups && (x.account.Some? ==> x.account.value in t.counters))
    && (forall x | x in t.vault :: x.account in t.counters)
    && (forall d | d in t.devices :: t.devices[d] in t.counters)
    && (forall m | m in t.members :: m.group in t.groups)
    && (forall e | e in t.envelopes :: e.group in t.groups)
    && Unique(t.vault)
  }

  /** What the tables hold in the name of an account. */
  function Held(t: Tables, a: Account): nat {
    AttachmentBytes(t.attachments, a) + VaultBytes(t.vault, a)
  }

  /** The counter of every account is what the tables hold in its name. */
  ghost predicate Conserved(t: Tables) {
    forall a | a in t.counters :: t.counters[a] == Held(t, a)
  }

  /** No account holds more than it was charged for. */
  ghost predicate Covered(t: Tables) {
    forall a | a in t.counters :: t.counters[a] >= Held(t, a)
  }

  ghost predicate WithinCeiling(t: Tables, ceiling: nat) {
    ceiling > 0 ==> forall a | a in t.counters :: t.counters[a] <= ceiling
  }

  ghost predicate Safe(t: Tables, ceiling: nat) {
    WellKeyed(t) && Covered(t) && WithinCeiling(t, ceiling)
  }

  ghost predicate Sound(t: Tables, ceiling: nat) {
    Safe(t, ceiling) && Conserved(t)
  }

  /** What each counter says beyond what is held is the same before and after. */
  ghost predicate SameDrift(t: Tables, next: Tables) {
    && next.counters.Keys == t.counters.Keys
    && forall a | a in t.counters :: next.counters[a] - Held(next, a) == t.counters[a] - Held(t, a)
  }

  // ------------------------------------------------------------------ charge and credit

  predicate Chargeable(counters: map<Account, int>, ceiling: nat, a: Account, bytes: nat) {
    a in counters && (ceiling == 0 || counters[a] + bytes <= ceiling)
  }

  function Moved(counters: map<Account, int>, a: Account, bytes: int): map<Account, int> {
    if a in counters then counters[a := counters[a] + bytes] else counters
  }

  // ------------------------------------------------------------------ deletions

  /** The rows a deletion takes, and those it leaves. */
  function Taken(rows: seq<Attachment>, gone: Attachment -> bool): seq<Attachment> {
    if rows == [] then []
    else
      var before := Taken(rows[..|rows| - 1], gone);
      if gone(rows[|rows| - 1]) then before + [rows[|rows| - 1]] else before
  }

  function Left(rows: seq<Attachment>, gone: Attachment -> bool): seq<Attachment> {
    if rows == [] then []
    else
      var before := Left(rows[..|rows| - 1], gone);
      if gone(rows[|rows| - 1]) then before else before + [rows[|rows| - 1]]
  }

  lemma {:induction false} LeftExact(rows: seq<Attachment>, gone: Attachment -> bool)
    ensures forall x :: x in Left(rows, gone) <==> x in rows && !gone(x)
  {
    if rows != [] {
      LeftExact(rows[..|rows| - 1], gone);
      assert rows == rows[..|rows| - 1] + [rows[|rows| - 1]];
    }
  }

  /** A deletion splits the bytes of every account. */
  lemma {:induction false} DeletionSplits(rows: seq<Attachment>, gone: Attachment -> bool, a: Account)
    ensures AttachmentBytes(rows, a) == AttachmentBytes(Taken(rows, gone), a) + AttachmentBytes(Left(rows, gone), a)
  {
    if rows != [] {
      var last := rows[|rows| - 1];
      DeletionSplits(rows[..|rows| - 1], gone, a);
      var taken, left := Taken(rows[..|rows| - 1], gone), Left(rows[..|rows| - 1], gone);
      if gone(last) {
        assert (taken + [last])[..|taken|] == taken;
      } else {
        assert (left + [last])[..|left|] == left;
      }
    }
  }

  /** Rows of the vault other than one account's archive of one group. */
  function Rest(rows: seq<VaultRow>, a: Account, g: GroupId): seq<VaultRow> {
    if rows == [] then []
    else
      var before, last := Rest(rows[..|rows| - 1], a, g), rows[|rows| - 1];
      if last.account == a && last.group == g then before else before + [last]
  }

  lemma {:induction false} RestExact(rows: seq<VaultRow>, a: Account, g: GroupId)
    requires Unique(rows)
    ensures forall x :: x in Rest(rows, a, g) <==> x in rows && !(x.account == a && x.group == g)
    ensures Unique(Rest(rows, a, g))
  {
    if rows != [] {
      RestExact(rows[..|rows| - 1], a, g);
      assert rows == rows[..|rows| - 1] + [rows[|rows| - 1]];
    }
  }

  /** Another account's bytes stay; this one's shrink by what went. */
  lemma {:induction false} RestBytes(rows: seq<VaultRow>, a: Account, g: GroupId, b: Account)
    ensures b != a ==> VaultBytes(Rest(rows, a, g), b) == VaultBytes(rows, b)
    ensures VaultBytes(Rest(rows, a, g), b) <= VaultBytes(rows, b)
  {
    if rows != [] {
      var last, rest := rows[|rows| - 1], Rest(rows[..|rows| - 1], a, g);
      RestBytes(rows[..|rows| - 1], a, g, b);
      assert (rest + [last])[..|rest|] == rest;
    }
  }

  // ------------------------------------------------------------------ vault insertions

  predicate HasRow(rows: seq<VaultRow>, a: Account, g: GroupId, sequence: int) {
    exists x :: x in rows && x.account == a && x.group == g && x.sequence == sequence
  }

  /** `INSERT … ON CONFLICT DO NOTHING`, entry by entry: a repeated sequence keeps its first payload. */
  function Inserted(rows: seq<VaultRow>, a: Account, g: GroupId, entries: seq<VaultEntry>): seq<VaultRow> {
    if entries == [] then rows
    else
      var before, last := Inserted(rows, a, g, entries[..|entries| - 1]), entries[|entries| - 1];
      if HasRow(before, a, g, last.sequence) then before else before + [VaultRow(a, g, last.sequence, last.payload)]
  }

  lemma {:induction false} InsertedKeeps(rows: seq<VaultRow>, a: Account, g: GroupId, entries: seq<VaultEntry>)
    ensures rows <= Inserted(rows, a, g, entries)
    ensures Unique(rows) ==> Unique(Inserted(rows, a, g, entries))
    ensures forall x | x in Inserted(rows, a, g, entries) :: x in rows || (x.account == a && x.group == g)
    ensures forall e | e in entries :: HasRow(Inserted(rows, a, g, entries), a, g, e.sequence)
  {
    if entries != [] {
      var before, last := Inserted(rows, a, g, entries[..|entries| - 1]), entries[|entries| - 1];
      InsertedKeeps(rows, a, g, entries[..|entries| - 1]);
      var after := Inserted(rows, a, g, entries);
      if !HasRow(before, a, g, last.sequence) {
        assert after[|before|] == VaultRow(a, g, last.sequence, last.payload);
      }
      assert forall x | x in before :: x in after;
      forall e | e in entries
        ensures HasRow(after, a, g, e.sequence)
      {
        if e != last {
          assert e in entries[..|entries| - 1];
        }
      }
    }
  }

  /** The first entry of its sequence, and no row has that sequence yet. */
  predicate Fresh(rows: seq<VaultRow>, a: Account, g: GroupId, entries: seq<VaultEntry>, i: nat)
    requires i < |entries|
  {
    !HasRow(rows, a, g, entries[i].sequence) && forall j | 0 <= j < i :: entries[j].sequence != entries[i].sequence
  }

  /** The row an insert makes of such an entry. */
  predicate FreshRow(rows: seq<VaultRow>, a: Account, g: GroupId, entries: seq<VaultEntry>, x: VaultRow) {
    exists i: nat :: i < |entries| && Fresh(rows, a, g, entries, i)
                     && x == VaultRow(a, g, entries[i].sequence, entries[i].payload)
  }

  lemma FreshRowGrows(rows: seq<VaultRow>, a: Account, g: GroupId, entries: seq<VaultEntry>, x: VaultRow)
    requires entries != []
    ensures var n := |entries| - 1;
            FreshRow(rows, a, g, entries, x) <==>
              || FreshRow(rows, a, g, entries[..n], x)
              || (Fresh(rows, a, g, entries, n) && x == VaultRow(a, g, entries[n].sequence, entries[n].payload))
  {
    hide HasRow;
    var n := |entries| - 1;
    forall i: nat | i < n
      ensures Fresh(rows, a, g, entries, i) <==> Fresh(rows, a, g, entries[..n], i)
    {
      assert forall j | 0 <= j <= i :: entries[..n][j] == entries[j];
    }
    if i: nat :| i < |entries[..n]| && Fresh(rows, a, g, entries[..n], i)
                 && x == VaultRow(a, g, entries[..n][i].sequence, entries[..n][i].payload) {
      assert entries[i] == entries[..n][i] && Fresh(rows, a, g, entries, i);
    }
    if i: nat :| i < n && Fresh(rows, a, g, entries, i)
                 && x == VaultRow(a, g, entries[i].sequence, entries[i].payload) {
      assert entries[i] == entries[..n][i] && Fresh(rows, a, g, entries[..n], i);
    }
  }

  /** The rows of an insert are those that were there, and one for each sequence not stored yet, with the payload of the
      first entry that brings it. */
  lemma {:induction false} InsertedExact(rows: seq<VaultRow>, a: Account, g: GroupId, entries: seq<VaultEntry>,
                                         x: VaultRow)
    ensures x in Inserted(rows, a, g, entries) <==> x in rows || FreshRow(rows, a, g, entries, x)
  {
    if entries != [] {
      var n := |entries| - 1;
      InsertedExact(rows, a, g, entries[..n], x);
      FreshRowGrows(rows, a, g, entries, x);
      StoredAlready(rows, a, g, entries);
    }
  }

  /** An entry finds its sequence taken exactly when it is not the first to bring it. */
  lemma StoredAlready(rows: seq<VaultRow>, a: Account, g: GroupId, entries: seq<VaultEntry>)
    requires entries != []
    ensures var n := |entries| - 1;
            HasRow(Inserted(rows, a, g, entries[..n]), a, g, entries[n].sequence) <==> !Fresh(rows, a, g, entries, n)
  {
    var n := |entries| - 1;
    var before, sequence := Inserted(rows, a, g, entries[..n]), entries[n].sequence;
    InsertedKeeps(rows, a, g, entries[..n]);
    if HasRow(rows, a, g, sequence) {
      var x :| x in rows && x.account == a && x.group == g && x.sequence == sequence;
      assert x in before;
    }
    if j :| 0 <= j < n && entries[j].sequence == sequence {
      assert entries[..n][j] in entries[..n];
    }
    if HasRow(before, a, g, sequence) { InsertedOnly(rows, a, g, entries[..n], sequence); }
  }

  lemma {:induction false} InsertedOnly(rows: seq<VaultRow>, a: Account, g: GroupId, entries: seq<VaultEntry>,
                                        sequence: int)
    requires HasRow(Inserted(rows, a, g, entries), a, g, sequence)
    ensures HasRow(rows, a, g, sequence) || exists j :: 0 <= j < |entries| && entries[j].sequence == sequence
  {
    if entries != [] && entries[|entries| - 1].sequence != sequence {
      InsertedOnly(rows, a, g, entries[..|entries| - 1], sequence);
    }
  }

  /** What those first entries weigh. */
  function FreshBytes(rows: seq<VaultRow>, a: Account, g: GroupId, entries: seq<VaultEntry>): nat {
    if entries == [] then 0
    else
      var n := |entries| - 1;
      FreshBytes(rows, a, g, entries[..n]) + (if Fresh(rows, a, g, entries, n) then |entries[n].payload| else 0)
  }

  lemma {:induction false} InsertedWeighs(rows: seq<VaultRow>, a: Account, g: GroupId, entries: seq<VaultEntry>)
    ensures VaultBytes(Inserted(rows, a, g, entries), a)
         == VaultBytes(rows, a) + FreshBytes(rows, a, g, entries)
  {
    if entries != [] {
      hide Fresh, HasRow;
      var before, last := Inserted(rows, a, g, entries[..|entries| - 1]), entries[|entries| - 1];
      InsertedWeighs(rows, a, g, entries[..|entries| - 1]);
      StoredAlready(rows, a, g, entries);
      assert (before + [VaultRow(a, g, last.sequence, last.payload)])[..|before|] == before;
    }
  }

  lemma {:induction false} InsertedBytes(rows: seq<VaultRow>, a: Account, g: GroupId, entries: seq<VaultEntry>,
                                         b: Account)
    ensures b != a ==> VaultBytes(Inserted(rows, a, g, entries), b) == VaultBytes(rows, b)
    ensures VaultBytes(rows, b) <= VaultBytes(Inserted(rows, a, g, entries), b)
  {
    if entries != [] {
      InsertedBytes(rows, a, g, entries[..|entries| - 1], b);
      var before, last := Inserted(rows, a, g, entries[..|entries| - 1]), entries[|entries| - 1];
      assert (before + [VaultRow(a, g, last.sequence, last.payload)])[..|before|] == before;
    }
  }

  lemma {:induction false} NothingNew(rows: seq<VaultRow>, a: Account, g: GroupId, entries: seq<VaultEntry>)
    requires forall e | e in entries :: HasRow(rows, a, g, e.sequence)
    ensures Inserted(rows, a, g, entries) == rows
  {
    if entries != [] {
      NothingNew(rows, a, g, entries[..|entries| - 1]);
      assert entries[|entries| - 1] in entries;
    }
  }

  lemma {:induction false} InsertedRest(rows: seq<VaultRow>, a: Account, g: GroupId, entries: seq<VaultEntry>)
    ensures Rest(Inserted(rows, a, g, entries), a, g) == Rest(rows, a, g)
  {
    if entries != [] {
      InsertedRest(rows, a, g, entries[..|entries| - 1]);
      var before, last := Inserted(rows, a, g, entries[..|entries| - 1]), entries[|entries| - 1];
      assert (before + [VaultRow(a, g, last.sequence, last.payload)])[..|before|] == before;
    }
  }

  // ------------------------------------------------------------------ the transactions

  datatype Outcome = Outcome(tables: Tables, reply: Result<(), ApiError>)

  predicate MayUse(t: Tables, device: Device, group: GroupId) {
    Membership(group, device) in t.members && device in t.devices
  }

  function Uploaded(t: Tables, ceiling: nat, device: Device, group: GroupId, payload: Bytes, now: Instant): Outcome {
    if !MayUse(t, device, group) then Outcome(t, Err(Forbidden))
    else if payload == [] then Outcome(t, Err(BadRequest))
    else if !Chargeable(t.counters, ceiling, t.devices[device], |payload|) then Outcome(t, Err(InsufficientStorage))
    else
      Outcome(t.(counters := Moved(t.counters, t.devices[device], |payload|),
                 attachments := t.attachments + [Attachment(group, Some(t.devices[device]), payload, now)]),
              Ok(()))
  }

  function Stored(t: Tables, ceiling: nat, device: Device, group: GroupId, entries: seq<VaultEntry>): Outcome {
    if entries == [] || |entries| > MAX_VAULT_ENTRIES then Outcome(t, Err(BadRequest))
    else if !MayUse(t, device, group) then Outcome(t, Err(Forbidden))
    else
      var account := t.devices[device];
      var vault := Inserted(t.vault, account, group, entries);
      InsertedBytes(t.vault, account, group, entries, account);
      var bytes: nat := VaultBytes(vault, account) - VaultBytes(t.vault, account);
      if !Chargeable(t.counters, ceiling, account, bytes) then Outcome(t, Err(InsufficientStorage))
      else Outcome(t.(counters := Moved(t.counters, account, bytes), vault := vault), Ok(()))
  }

  /** A device may empty its account's archive of a group it never was in. */
  function Dropped(t: Tables, device: Device, group: GroupId): Outcome {
    if device !in t.devices then Outcome(t, Err(Forbidden))
    else
      var account := t.devices[device];
      var vault := Rest(t.vault, account, group);
      var bytes := VaultBytes(t.vault, account) - VaultBytes(vault, account);
      if account in t.counters && t.counters[account] < bytes then Outcome(t, Err(DatabaseFault))
      else Outcome(t.(counters := Moved(t.counters, account, -bytes), vault := vault), Ok(()))
  }

  function Aged(now: Instant): Attachment -> bool {
    (x: Attachment) => x.created < now - ATTACHMENT_RETENTION
  }

  /** Nobody is left in the group and nothing young is left in its mailbox. */
  predicate Abandoned(members: set<Membership>, envelopes: set<EnvelopeRow>, group: GroupId, now: Instant) {
    && (forall m | m in members :: m.group != group)
    && (forall e | e in envelopes :: e.group == group ==> e.created < now - ENVELOPE_RETENTION)
  }

  function Doomed(members: set<Membership>, envelopes: set<EnvelopeRow>, now: Instant): Attachment -> bool {
    (x: Attachment) => Abandoned(members, envelopes, x.group, now)
  }

  /** The counters once the rows of a deletion have been given back. */
  function Credited(counters: map<Account, int>, rows: seq<Attachment>): map<Account, int> {
    map a | a in counters :: counters[a] - AttachmentBytes(rows, a)
  }

  /** The transaction of a purge pass: attachments past their retention, then those of the groups about to go. */
  function Purged(t: Tables, now: Instant): Tables {
    var young := Left(t.attachments, Aged(now));
    t.(counters := Credited(Credited(t.counters, Taken(t.attachments, Aged(now))),
                            Taken(young, Doomed(t.members, t.envelopes, now))),
       attachments := Left(young, Doomed(t.members, t.envelopes, now)))
  }

  /** Its last statement: the abandoned groups go, and the cascade takes what still hangs from them. */
  function Swept(t: Tables, now: Instant): Tables {
    var groups := set g | g in t.groups && !Abandoned(t.members, t.envelopes, g, now);
    t.(groups := groups,
       attachments := Left(t.attachments, Doomed(t.members, t.envelopes, now)),
       envelopes := set e | e in t.envelopes && e.group in groups)
  }

  // ------------------------------------------------------------------ conservation

  lemma UploadKeeps(t: Tables, ceiling: nat, device: Device, group: GroupId, payload: Bytes, now: Instant)
    requires Safe(t, ceiling)
    ensures Safe(Uploaded(t, ceiling, device, group, payload, now).tables, ceiling)
    ensures SameDrift(t, Uploaded(t, ceiling, device, group, payload, now).tables)
  {
    var next := Uploaded(t, ceiling, device, group, payload, now).tables;
    if next != t {
      assert next.attachments[..|t.attachments|] == t.attachments;
      assert Membership(group, device) in t.members;
    }
  }

  lemma StoreKeeps(t: Tables, ceiling: nat, device: Device, group: GroupId, entries: seq<VaultEntry>)
    requires Safe(t, ceiling)
    ensures Safe(Stored(t, ceiling, device, group, entries).tables, ceiling)
    ensures SameDrift(t, Stored(t, ceiling, device, group, entries).tables)
  {
    var next := Stored(t, ceiling, device, group, entries).tables;
    if next != t {
      var account := t.devices[device];
      InsertedKeeps(t.vault, account, group, entries);
      forall a | a in t.counters
        ensures next.counters[a] - Held(next, a) == t.counters[a] - Held(t, a)
      {
        InsertedBytes(t.vault, account, group, entries, a);
      }
    }
  }

  /** The deletion never meets the `CHECK` on the counter. */
  lemma DropKeeps(t: Tables, ceiling: nat, device: Device, group: GroupId)
    requires Safe(t, ceiling)
    ensures Safe(Dropped(t, device, group).tables, ceiling)
    ensures SameDrift(t, Dropped(t, device, group).tables)
    ensures Dropped(t, device, group).reply != Err(DatabaseFault)
  {
    if device in t.devices {
      var account := t.devices[device];
      RestExact(t.vault, account, group);
      forall a | a in t.counters
        ensures VaultBytes(Rest(t.vault, account, group), a) <= VaultBytes(t.vault, a)
        ensures a != account ==> VaultBytes(Rest(t.vault, account, group), a) == VaultBytes(t.vault, a)
      {
        RestBytes(t.vault, account, group, a);
      }
    }
  }

  lemma PurgeKeeps(t: Tables, ceiling: nat, now: Instant)
    requires Safe(t, ceiling)
    ensures Safe(Purged(t, now), ceiling) && SameDrift(t, Purged(t, now))
    ensures forall a | a in t.counters :: 0 <= Purged(t, now).counters[a] <= t.counters[a]
    ensures forall x :: x in Purged(t, now).attachments <==>
              && x in t.attachments && now - x.created <= ATTACHMENT_RETENTION
              && !Abandoned(t.members, t.envelopes, x.group, now)
  {
    var young := Left(t.attachments, Aged(now));
    LeftExact(t.attachments, Aged(now));
    LeftExact(young, Doomed(t.members, t.envelopes, now));
    forall a | a in t.counters
      ensures Purged(t, now).counters[a] - Held(Purged(t, now), a) == t.counters[a] - Held(t, a)
      ensures Purged(t, now).counters[a] <= t.counters[a]
    {
      DeletionSplits(t.attachments, Aged(now), a);
      DeletionSplits(young, Doomed(t.members, t.envelopes, now), a);
    }
  }

  /** Neither deletion of a pass credits more than was charged. */
  lemma PurgeAffordable(t: Tables, ceiling: nat, now: Instant)
    requires Safe(t, ceiling)
    ensures forall a | a in t.counters :: AttachmentBytes(Taken(t.attachments, Aged(now)), a) <= t.counters[a]
    ensures var young := Left(t.attachments, Aged(now));
            var rest := Credited(t.counters, Taken(t.attachments, Aged(now)));
            forall a | a in rest :: AttachmentBytes(Taken(young, Doomed(t.members, t.envelopes, now)), a) <= rest[a]
  {
    var young := Left(t.attachments, Aged(now));
    forall a | a in t.counters
      ensures AttachmentBytes(Taken(t.attachments, Aged(now)), a)
              + AttachmentBytes(Taken(young, Doomed(t.members, t.envelopes, now)), a) <= t.counters[a]
    {
      DeletionSplits(t.attachments, Aged(now), a);
      DeletionSplits(young, Doomed(t.members, t.envelopes, now), a);
    }
  }

  /** The last statement credits nobody: counters may then say more than is held, never less. */
  lemma SweepKeeps(t: Tables, ceiling: nat, now: Instant)
    requires Safe(t, ceiling)
    ensures Safe(Swept(t, now), ceiling)
  {
    LeftExact(t.attachments, Doomed(t.members, t.envelopes, now));
    forall a | a in t.counters
      ensures Held(Swept(t, now), a) <= Held(t, a)
    {
      DeletionSplits(t.attachments, Doomed(t.members, t.envelopes, now), a);
    }
  }

  lemma {:induction false} BytesOfMembers(rows: seq<Attachment>, a: Account)
    ensures AttachmentBytes(rows, a) == 0 <==> forall x | x in rows :: x.account == Some(a) ==> x.payload == []
  {
    if rows != [] {
      BytesOfMembers(rows[..|rows| - 1], a);
      assert rows == rows[..|rows| - 1] + [rows[|rows| - 1]];
    }
  }

  lemma {:induction false} TakenExact(rows: seq<Attachment>, gone: Attachment -> bool)
    ensures forall x :: x in Taken(rows, gone) <==> x in rows && gone(x)
  {
    if rows != [] {
      TakenExact(rows[..|rows| - 1], gone);
      assert rows == rows[..|rows| - 1] + [rows[|rows| - 1]];
    }
  }

  /** A row somebody was charged for. */
  predicate Charged(x: Attachment) {
    x.account.Some? && x.payload != []
  }

  /** The statement that deletes groups meets no charged payload. */
  ghost predicate CleanSweep(t: Tables, now: Instant) {
    forall x | x in t.attachments && Charged(x) :: !Abandoned(t.members, t.envelopes, x.group, now)
  }

  /** The cascade runs no application code: it conserves bytes exactly when it takes no charged payload. */
  lemma CascadeConservesExactly(t: Tables, now: Instant)
    requires WellKeyed(t) && Conserved(t)
    ensures Conserved(Swept(t, now)) <==> CleanSweep(t, now)
  {
    var gone := Doomed(t.members, t.envelopes, now);
    TakenExact(t.attachments, gone);
    forall a | a in t.counters
      ensures AttachmentBytes(Swept(t, now).attachments, a) == AttachmentBytes(t.attachments, a)
         <==> forall x | x in t.attachments && gone(x) :: x.account == Some(a) ==> x.payload == []
    {
      DeletionSplits(t.attachments, gone, a);
      BytesOfMembers(Taken(t.attachments, gone), a);
    }
    if Conserved(Swept(t, now)) {
      forall x | x in t.attachments && Charged(x)
        ensures !Abandoned(t.members, t.envelopes, x.group, now)
      {
        assert x.account.value in t.counters;
        assert Swept(t, now).counters[x.account.value] == t.counters[x.account.value];
        assert !gone(x);
      }
    }
  }

  /** A pass that nothing interrupts reads the clock twice, once in its transaction and once in its last statement. It
      conserves bytes exactly when no group with a charged payload left becomes abandoned between the two readings. */
  lemma PassConservesExactly(t: Tables, ceiling: nat, now: Instant, later: Instant)
    requires Sound(t, ceiling)
    ensures Conserved(Swept(Purged(t, now), later)) <==>
              forall x | x in t.attachments && Charged(x) && now - x.created <= ATTACHMENT_RETENTION ::
                Abandoned(t.members, t.envelopes, x.group, later) ==> Abandoned(t.members, t.envelopes, x.group, now)
  {
    PurgeKeeps(t, ceiling, now);
    CascadeConservesExactly(Purged(t, now), later);
    var p := Purged(t, now);
    assert p.members == t.members && p.envelopes == t.envelopes;
  }

  /** An empty group whose last envelope turns thirty days old between the two readings: its attachment goes with the
      cascade and stays charged, one second being enough. */
  lemma PassThatLosesBytes(account: Account, group: GroupId, now: Instant) returns (t: Tables)
    ensures Sound(t, 0) && !Conserved(Swept(Purged(t, now), now + 1))
  {
    var x := Attachment(group, Some(account), [0], now);
    var young := EnvelopeRow(group, 1, now - ENVELOPE_RETENTION);
    t := Tables(map[account := 1], [x], [], {group}, {}, {young}, map[]);
    assert t.attachments[..0] == [];
    assert AttachmentBytes([x], account) == 1;
    PassConservesExactly(t, 0, now, now + 1);
    assert young in t.envelopes && !Abandoned(t.members, t.envelopes, x.group, now);
    assert Abandoned(t.members, t.envelopes, x.group, now + 1);
    assert x in t.attachments;
  }

  // ------------------------------------------------------------------ runs

  datatype Event =
    | Register(account: Account)
    | Upload(device: Device, group: GroupId, payload: Bytes, now: Instant)
    | Store(device: Device, group: GroupId, entries: seq<VaultEntry>)
    | Drop(device: Device, group: GroupId)
    /** The transaction of a purge pass, and its last statement: anything may happen in between. */
    | Purge(now: Instant)
    | Sweep(now: Instant)
    /** Anything the other routes do to groups, members, envelopes and devices. */
    | Elsewhere(groups: set<GroupId>, members: set<Membership>, envelopes: set<EnvelopeRow>,
                devices: map<Device, Account>)

  function Next(t: Tables, ceiling: nat, e: Event): Tables {
    match e
    case Register(account) => if account in t.counters then t else t.(counters := t.counters[account := 0])
    case Upload(device, group, payload, now) => Uploaded(t, ceiling, device, group, payload, now).tables
    case Store(device, group, entries) => Stored(t, ceiling, device, group, entries).tables
    case Drop(device, group) => Dropped(t, device, group).tables
    case Purge(now) => Purged(t, now)
    case Sweep(now) => Swept(t, now)
    case Elsewhere(groups, members, envelopes, devices) =>
      t.(groups := groups, members := members, envelopes := envelopes, devices := devices)
  }

  /** Groups are only ever deleted by the purge, and foreign keys hold. */
  ghost predicate Allowed(t: Tables, e: Event) {
    e.Elsewhere? ==> t.groups <= e.groups && WellKeyed(Next(t, 0, e))
  }

  function Run(t: Tables, ceiling: nat, events: seq<Event>): Tables {
    if events == [] then t else Next(Run(t, ceiling, events[..|events| - 1]), ceiling, events[|events| - 1])
  }

  ghost predicate IsRun(t: Tables, ceiling: nat, events: seq<Event>) {
    events != [] ==>
      && IsRun(t, ceiling, events[..|events| - 1])
      && Allowed(Run(t, ceiling, events[..|events| - 1]), events[|events| - 1])
  }

  /** Every statement that deletes groups, in the state it meets, finds no charged payload in the groups it takes. */
  ghost predicate EverySweepClean(t: Tables, ceiling: nat, events: seq<Event>) {
    events != [] ==>
      && EverySweepClean(t, ceiling, events[..|events| - 1])
      && (events[|events| - 1].Sweep? ==> CleanSweep(Run(t, ceiling, events[..|events| - 1]), events[|events| - 1].now))
  }

  /** Bytes are conserved in every state the run goes through. */
  ghost predicate AlwaysConserved(t: Tables, ceiling: nat, events: seq<Event>) {
    && Conserved(Run(t, ceiling, events))
    && (events != [] ==> AlwaysConserved(t, ceiling, events[..|events| - 1]))
  }

  lemma RegisterKeeps(t: Tables, ceiling: nat, account: Account)
    requires Safe(t, ceiling)
    ensures Safe(Next(t, ceiling, Register(account)), ceiling)
    ensures Conserved(t) ==> Conserved(Next(t, ceiling, Register(account)))
  {
    if account !in t.counters {
      BytesOfMembers(t.attachments, account);
      NoVaultBytes(t.vault, account);
    }
  }

  lemma {:induction false} NoVaultBytes(rows: seq<VaultRow>, a: Account)
    requires forall x | x in rows :: x.account != a
    ensures VaultBytes(rows, a) == 0
  {
    if rows != [] {
      NoVaultBytes(rows[..|rows| - 1], a);
      assert rows[|rows| - 1] in rows;
    }
  }

  lemma NextKeeps(t: Tables, ceiling: nat, e: Event)
    requires Safe(t, ceiling) && Allowed(t, e)
    ensures Safe(Next(t, ceiling, e), ceiling)
    ensures Conserved(t) && !e.Sweep? ==> Conserved(Next(t, ceiling, e))
  {
    match e
    case Register(account) => RegisterKeeps(t, ceiling, account);
    case Upload(device, group, payload, now) => UploadKeeps(t, ceiling, device, group, payload, now);
    case Store(device, group, entries) => StoreKeeps(t, ceiling, device, group, entries);
    case Drop(device, group) => DropKeeps(t, ceiling, device, group);
    case Purge(now) => PurgeKeeps(t, ceiling, now);
    case Sweep(now) => SweepKeeps(t, ceiling, now);
    case Elsewhere(groups, members, envelopes, devices) =>
  }

  /** In every run, however the statements of purge passes fall among the rest, no account holds more than it was
      charged for, no counter goes above a fixed ceiling and none below zero. */
  lemma {:induction false} NobodyIsUndercharged(t: Tables, ceiling: nat, events: seq<Event>)
    requires Safe(t, ceiling) && IsRun(t, ceiling, events)
    ensures Safe(Run(t, ceiling, events), ceiling)
    ensures forall a | a in Run(t, ceiling, events).counters :: Run(t, ceiling, events).counters[a] >= 0
  {
    if events != [] {
      NobodyIsUndercharged(t, ceiling, events[..|events| - 1]);
      NextKeeps(Run(t, ceiling, events[..|events| - 1]), ceiling, events[|events| - 1]);
    }
  }

  /** Every counter is exactly the bytes held in its account's name throughout a run if and only if every statement
      that deletes groups finds no charged payload in them. */
  lemma {:induction false} BytesAreConservedExactly(t: Tables, ceiling: nat, events: seq<Event>)
    requires Sound(t, ceiling) && IsRun(t, ceiling, events)
    ensures AlwaysConserved(t, ceiling, events) <==> EverySweepClean(t, ceiling, events)
  {
    if events != [] {
      var before, last := Run(t, ceiling, events[..|events| - 1]), events[|events| - 1];
      BytesAreConservedExactly(t, ceiling, events[..|events| - 1]);
      NobodyIsUndercharged(t, ceiling, events[..|events| - 1]);
      NextKeeps(before, ceiling, last);
      if last.Sweep? && Conserved(before) {
        CascadeConservesExactly(before, last.now);
      }
    }
  }

  // ------------------------------------------------------------------ one call against another

  lemma StoredForm(t: Tables, ceiling: nat, device: Device, group: GroupId, entries: seq<VaultEntry>)
    requires Safe(t, ceiling) && Stored(t, ceiling, device, group, entries).reply.Ok?
    ensures device in t.devices
    ensures var a := t.devices[device];
            var vault := Inserted(t.vault, a, group, entries);
            && a in t.counters
            && Stored(t, ceiling, device, group, entries).tables
               == t.(counters := t.counters[a := t.counters[a] - VaultBytes(t.vault, a) + VaultBytes(vault, a)],
                     vault := vault)
  {
    var a, before := t.devices[device], t.counters[t.devices[device]];
    var bytes := VaultBytes(Inserted(t.vault, a, group, entries), a) - VaultBytes(t.vault, a);
    assert Moved(t.counters, a, bytes) == t.counters[a := before + bytes];
  }

  lemma DroppedForm(t: Tables, ceiling: nat, device: Device, group: GroupId)
    requires Safe(t, ceiling) && device in t.devices
    ensures var a := t.devices[device];
            var vault := Rest(t.vault, a, group);
            && a in t.counters
            && Dropped(t, device, group)
               == Outcome(t.(counters := t.counters[a := t.counters[a] - VaultBytes(t.vault, a) + VaultBytes(vault, a)],
                             vault := vault),
                          Ok(()))
  {
    DropKeeps(t, ceiling, device, group);
  }

  /** An upload is taken exactly while the bytes recorded to its account, with its own, stay at the ceiling or below. */
  lemma UploadFitsExactly(t: Tables, ceiling: nat, device: Device, group: GroupId, payload: Bytes, now: Instant)
    requires Sound(t, ceiling) && MayUse(t, device, group) && payload != []
    ensures var a := t.devices[device];
            Uploaded(t, ceiling, device, group, payload, now).reply.Ok? <==>
              ceiling == 0 || AttachmentBytes(t.attachments, a) + VaultBytes(t.vault, a) + |payload| <= ceiling
  {
    assert t.devices[device] in t.counters;
  }

  /** A store is taken exactly when what the account would then hold is at the ceiling or below: rows it already had
      cost nothing. */
  lemma StoreFitsExactly(t: Tables, ceiling: nat, device: Device, group: GroupId, entries: seq<VaultEntry>)
    requires Sound(t, ceiling) && MayUse(t, device, group) && 0 < |entries| <= MAX_VAULT_ENTRIES
    ensures var a := t.devices[device];
            Stored(t, ceiling, device, group, entries).reply.Ok? <==>
              ceiling == 0
              || AttachmentBytes(t.attachments, a) + VaultBytes(t.vault, a) + FreshBytes(t.vault, a, group, entries)
                 <= ceiling
  {
    InsertedWeighs(t.vault, t.devices[device], group, entries);
    assert t.devices[device] in t.counters;
  }

  // ------------------------------------------------------------------ who is refused, and what a refusal leaves

  /** An upload by a device outside the group is refused, then an empty one, then one for which there is no room; a
      refusal leaves every table as it was, and an upload taken adds one row and its weight. */
  lemma UploadAnswers(t: Tables, ceiling: nat, device: Device, group: GroupId, payload: Bytes, now: Instant)
    requires Safe(t, ceiling)
    ensures var (next, reply) := (Uploaded(t, ceiling, device, group, payload, now).tables,
                                  Uploaded(t, ceiling, device, group, payload, now).reply);
            var mine := Membership(group, device) in t.members && device in t.devices;
            && (reply == Err(Forbidden) <==> !mine)
            && (reply == Err(BadRequest) <==> mine && payload == [])
            && (reply == Err(InsufficientStorage) <==>
                  mine && payload != [] && ceiling > 0 && t.counters[t.devices[device]] + |payload| > ceiling)
            && (reply.Err? ==> next == t && reply.error in {Forbidden, BadRequest, InsufficientStorage})
            && (reply.Ok? ==>
                  var a := t.devices[device];
                  && next == t.(attachments := next.attachments, counters := next.counters)
                  && next.attachments == t.attachments + [Attachment(group, Some(a), payload, now)]
                  && next.counters == t.counters[a := t.counters[a] + |payload|])
  {
    assert device in t.devices ==> t.devices[device] in t.counters;
  }

  /** The same of a store, which looks at its size before it looks at the group. */
  lemma StoreAnswers(t: Tables, ceiling: nat, device: Device, group: GroupId, entries: seq<VaultEntry>)
    requires Safe(t, ceiling)
    ensures var (next, reply) := (Stored(t, ceiling, device, group, entries).tables,
                                  Stored(t, ceiling, device, group, entries).reply);
            var mine := Membership(group, device) in t.members && device in t.devices;
            var sized := 0 < |entries| <= MAX_VAULT_ENTRIES;
            && (reply == Err(BadRequest) <==> !sized)
            && (reply == Err(Forbidden) <==> sized && !mine)
            && (reply == Err(InsufficientStorage) <==>
                  && sized && mine && ceiling > 0
                  && t.counters[t.devices[device]] + FreshBytes(t.vault, t.devices[device], group, entries) > ceiling)
            && (reply.Err? ==> next == t && reply.error in {BadRequest, Forbidden, InsufficientStorage})
            && (reply.Ok? ==>
                  var a := t.devices[device];
                  && next == t.(vault := next.vault, counters := next.counters)
                  && (forall x :: x in next.vault <==> x in t.vault || FreshRow(t.vault, a, group, entries, x))
                  && next.counters == t.counters[a := t.counters[a] + FreshBytes(t.vault, a, group, entries)])
  {
    hide Inserted, VaultBytes, FreshBytes, FreshRow, Covered, WithinCeiling;
    if device in t.devices {
      var a := t.devices[device];
      assert a in t.counters;
      InsertedWeighs(t.vault, a, group, entries);
      forall x
        ensures x in Inserted(t.vault, a, group, entries) <==> x in t.vault || FreshRow(t.vault, a, group, entries, x)
      {
        InsertedExact(t.vault, a, group, entries, x);
      }
    }
  }

  /** A drop asks for a device and for no membership; it takes one account's archive of one group and nothing else. */
  lemma DropAnswers(t: Tables, ceiling: nat, device: Device, group: GroupId)
    requires Safe(t, ceiling)
    ensures var (next, reply) := (Dropped(t, device, group).tables, Dropped(t, device, group).reply);
            && (reply == Err(Forbidden) <==> device !in t.devices)
            && (reply.Err? ==> next == t && reply.error == Forbidden)
            && (reply.Ok? ==>
                  && next == t.(vault := next.vault, counters := next.counters)
                  && forall x :: x in next.vault <==>
                       x in t.vault && !(x.account == t.devices[device] && x.group == group))
  {
    hide VaultBytes, Covered, WithinCeiling, Rest;
    DropKeeps(t, ceiling, device, group);
    if device in t.devices { RestExact(t.vault, t.devices[device], group); }
  }

  /** A pass touches attachments and counters; its last statement takes the groups nobody is in and whose mailbox has
      nothing younger than the retention, with their attachments and envelopes, and leaves the rest. */
  lemma PassTakes(t: Tables, now: Instant)
    ensures Purged(t, now) == t.(attachments := Purged(t, now).attachments, counters := Purged(t, now).counters)
    ensures var s := Swept(t, now);
            && s == t.(groups := s.groups, attachments := s.attachments, envelopes := s.envelopes)
            && (forall g :: g in s.groups <==> g in t.groups && Alive(t, g, now))
            && (forall x :: x in s.attachments <==> x in t.attachments && Alive(t, x.group, now))
            && (forall e :: e in s.envelopes <==> e in t.envelopes && e.group in s.groups)
  {
    LeftExact(t.attachments, Doomed(t.members, t.envelopes, now));
    forall g
      ensures Alive(t, g, now) <==> !Abandoned(t.members, t.envelopes, g, now)
    {
      AliveExactly(t, g, now);
    }
  }

  /** Somebody is in the group, or something young in its mailbox. */
  ghost predicate Alive(t: Tables, g: GroupId, now: Instant) {
    || (exists m :: m in t.members && m.group == g)
    || (exists e :: e in t.envelopes && e.group == g && now - e.created <= ENVELOPE_RETENTION)
  }

  lemma AliveExactly(t: Tables, g: GroupId, now: Instant)
    ensures Alive(t, g, now) <==> !Abandoned(t.members, t.envelopes, g, now)
  {
  }

  // ------------------------------------------------------------------ where every stored byte comes from

  /** A row that holds bytes. */
  datatype Item = Blob(attachment: Attachment) | Page(row: VaultRow)

  predicate Holds(t: Tables, item: Item) {
    match item
    case Blob(x) => x in t.attachments
    case Page(x) => x in t.vault
  }

  /** The event stores this very row, for a device then in its group and in the name of that device's account: an
      upload, or the first entry of its sequence in a store. */
  ghost predicate Brings(s: Tables, ceiling: nat, e: Event, item: Item) {
    match item
    case Blob(x) =>
      && e.Upload? && e.device in s.devices && Membership(e.group, e.device) in s.members && e.payload != []
      && Uploaded(s, ceiling, e.device, e.group, e.payload, e.now).reply.Ok?
      && x == Attachment(e.group, Some(s.devices[e.device]), e.payload, e.now)
    case Page(x) =>
      && e.Store? && e.device in s.devices && Membership(e.group, e.device) in s.members
      && Stored(s, ceiling, e.device, e.group, e.entries).reply.Ok?
      && FreshRow(s.vault, s.devices[e.device], e.group, e.entries, x)
  }

  /** The event deletes it: an attachment too old for a pass or of a group no longer alive, or an archive that a device
      of its account drops. */
  ghost predicate Takes(s: Tables, e: Event, item: Item) {
    match item
    case Blob(x) =>
      || (e.Purge? && (e.now - x.created > ATTACHMENT_RETENTION || !Alive(s, x.group, e.now)))
      || (e.Sweep? && !Alive(s, x.group, e.now))
    case Page(x) =>
      e.Drop? && e.device in s.devices && s.devices[e.device] == x.account && e.group == x.group
  }

  lemma AttachmentsMove(s: Tables, ceiling: nat, e: Event, x: Attachment)
    requires Safe(s, ceiling)
    ensures Holds(Next(s, ceiling, e), Blob(x)) <==>
              (Holds(s, Blob(x)) && !Takes(s, e, Blob(x))) || Brings(s, ceiling, e, Blob(x))
  {
    hide Covered, WithinCeiling, Alive, Abandoned, Purged, Swept, Uploaded, Stored, Dropped;
    match e
    case Upload(device, group, payload, now) => UploadAnswers(s, ceiling, device, group, payload, now);
    case Store(device, group, entries) => StoreAnswers(s, ceiling, device, group, entries);
    case Drop(device, group) => DropAnswers(s, ceiling, device, group);
    case Purge(now) =>
      PurgeKeeps(s, ceiling, now);
      AliveExactly(s, x.group, now);
    case Sweep(now) => PassTakes(s, now);
    case _ =>
  }

  lemma VaultMoves(s: Tables, ceiling: nat, e: Event, x: VaultRow)
    requires Safe(s, ceiling)
    ensures Holds(Next(s, ceiling, e), Page(x)) <==>
              (Holds(s, Page(x)) && !Takes(s, e, Page(x))) || Brings(s, ceiling, e, Page(x))
  {
    hide Covered, WithinCeiling, Alive, Abandoned, Purged, Swept, Uploaded, Stored, Dropped, FreshRow;
    match e
    case Upload(device, group, payload, now) => UploadAnswers(s, ceiling, device, group, payload, now);
    case Store(device, group, entries) => StoreAnswers(s, ceiling, device, group, entries);
    case Drop(device, group) => DropAnswers(s, ceiling, device, group);
    case Purge(now) => PassTakes(s, now);
    case Sweep(now) => PassTakes(s, now);
    case _ =>
  }

  lemma ItemsMove(s: Tables, ceiling: nat, e: Event, item: Item)
    requires Safe(s, ceiling)
    ensures Holds(Next(s, ceiling, e), item) <==>
              (Holds(s, item) && !Takes(s, e, item)) || Brings(s, ceiling, e, item)
  {
    hide Safe, Next, Holds, Takes, Brings;
    match item
    case Blob(x) => AttachmentsMove(s, ceiling, e, x);
    case Page(x) => VaultMoves(s, ceiling, e, x);
  }

  ghost predicate BroughtAt(t: Tables, ceiling: nat, events: seq<Event>, i: nat, item: Item) {
    i < |events| && Brings(Run(t, ceiling, events[..i]), ceiling, events[i], item)
  }

  /** From step `from` on nothing takes it. */
  ghost predicate LeftSince(t: Tables, ceiling: nat, events: seq<Event>, from: nat, item: Item) {
    forall j: nat | from <= j < |events| :: !Takes(Run(t, ceiling, events[..j]), events[j], item)
  }

  lemma LastStep(t: Tables, ceiling: nat, events: seq<Event>, i: nat, item: Item)
    requires events != [] && i <= |events|
    ensures var n, s := |events| - 1, Run(t, ceiling, events[..|events| - 1]);
            && (LeftSince(t, ceiling, events, i, item) <==>
                  i == |events| || (LeftSince(t, ceiling, events[..n], i, item) && !Takes(s, events[n], item)))
            && (BroughtAt(t, ceiling, events, i, item) <==>
                  || BroughtAt(t, ceiling, events[..n], i, item)
                  || (i == n && Brings(s, ceiling, events[n], item)))
  {
    hide Takes, Brings, Run;
    var n := |events| - 1;
    assert forall j: nat | j <= n :: events[..n][..j] == events[..j];
    assert forall j: nat | j < n :: events[..n][j] == events[j];
  }

  lemma NoStep(t: Tables, ceiling: nat, item: Item)
    ensures LeftSince(t, ceiling, [], 0, item) && forall i: nat :: !BroughtAt(t, ceiling, [], i, item)
  {
  }

  /** In every run a row is stored if and only if it was there from the start or an event brought it, and nothing took
      it since. */
  lemma {:induction false} StoredExactly(t: Tables, ceiling: nat, events: seq<Event>, item: Item)
    requires Safe(t, ceiling) && IsRun(t, ceiling, events)
    ensures Holds(Run(t, ceiling, events), item) <==>
              || (Holds(t, item) && LeftSince(t, ceiling, events, 0, item))
              || exists i: nat :: BroughtAt(t, ceiling, events, i, item) && LeftSince(t, ceiling, events, i + 1, item)
  {
    hide Brings, Takes, Next, Safe, Allowed, LeftSince, BroughtAt, Holds;
    if events == [] {
      NoStep(t, ceiling, item);
    } else {
      var n := |events| - 1;
      StoredExactly(t, ceiling, events[..n], item);
      NobodyIsUndercharged(t, ceiling, events[..n]);
      ItemsMove(Run(t, ceiling, events[..n]), ceiling, events[n], item);
      LastStep(t, ceiling, events, 0, item);
      LastStep(t, ceiling, events, n, item);
      LastStep(t, ceiling, events, n + 1, item);
      forall i: nat | BroughtAt(t, ceiling, events[..n], i, item)
        ensures i < n && BroughtAt(t, ceiling, events, i, item)
        ensures LeftSince(t, ceiling, events, i + 1, item) <==>
                  && LeftSince(t, ceiling, events[..n], i + 1, item)
                  && !Takes(Run(t, ceiling, events[..n]), events[n], item)
      {
        BroughtInTime(t, ceiling, events[..n], i, item);
        LastStep(t, ceiling, events, i, item);
        LastStep(t, ceiling, events, i + 1, item);
      }
      forall i: nat | BroughtAt(t, ceiling, events, i, item) && i != n
        ensures BroughtAt(t, ceiling, events[..n], i, item)
      {
        BroughtInTime(t, ceiling, events, i, item);
        LastStep(t, ceiling, events, i, item);
      }
    }
  }

  lemma BroughtInTime(t: Tables, ceiling: nat, events: seq<Event>, i: nat, item: Item)
    requires BroughtAt(t, ceiling, events, i, item)
    ensures i < |events|
  {
  }

  // ------------------------------------------------------------------ one call twice, and one undone

  lemma StoreNothing(t: Tables, ceiling: nat, device: Device, group: GroupId, entries: seq<VaultEntry>)
    requires Safe(t, ceiling) && MayUse(t, device, group) && 0 < |entries| <= MAX_VAULT_ENTRIES
    requires forall e | e in entries :: HasRow(t.vault, t.devices[device], group, e.sequence)
    ensures Stored(t, ceiling, device, group, entries) == Outcome(t, Ok(()))
  {
    NothingNew(t.vault, t.devices[device], group, entries);
    assert t.devices[device] in t.counters;
    assert Moved(t.counters, t.devices[device], 0) == t.counters;
  }

  /** Archiving the same entries again stores nothing, charges nothing and is accepted. */
  lemma StoreTwice(t: Tables, ceiling: nat, device: Device, group: GroupId, entries: seq<VaultEntry>)
    requires Safe(t, ceiling) && Stored(t, ceiling, device, group, entries).reply.Ok?
    ensures var once := Stored(t, ceiling, device, group, entries);
            Stored(once.tables, ceiling, device, group, entries) == once
  {
    StoreKeeps(t, ceiling, device, group, entries);
    InsertedKeeps(t.vault, t.devices[device], group, entries);
    StoreNothing(Stored(t, ceiling, device, group, entries).tables, ceiling, device, group, entries);
  }

  lemma RefusedStore(t: Tables, ceiling: nat, device: Device, group: GroupId, entries: seq<VaultEntry>)
    requires Stored(t, ceiling, device, group, entries).reply.Err?
    ensures Stored(t, ceiling, device, group, entries).tables == t
  {
  }

  /** Dropping a vault undoes every store made into it, counter included. */
  lemma DropUndoesStore(t: Tables, ceiling: nat, device: Device, group: GroupId, entries: seq<VaultEntry>)
    requires Safe(t, ceiling)
    ensures Dropped(Stored(t, ceiling, device, group, entries).tables, device, group) == Dropped(t, device, group)
  {
    hide Stored, Dropped, Inserted, Rest, VaultBytes, Safe, SameDrift;
    if Stored(t, ceiling, device, group, entries).reply.Err? {
      RefusedStore(t, ceiling, device, group, entries);
    } else {
      StoredForm(t, ceiling, device, group, entries);
      DroppedForm(t, ceiling, device, group);
      StoreKeeps(t, ceiling, device, group, entries);
      DroppedForm(Stored(t, ceiling, device, group, entries).tables, ceiling, device, group);
      InsertedRest(t.vault, t.devices[device], group, entries);
    }
  }

  // ------------------------------------------------------------------ aggregation

  /** A row of `GROUP BY account`. */
  datatype Bill = Bill(account: Option<Account>, bytes: nat)

  function Billed(bills: seq<Bill>, account: Option<Account>, bytes: nat): seq<Bill> {
    if bills == [] then [Bill(account, bytes)]
    else if bills[0].account == account then [Bill(account, bills[0].bytes + bytes)] + bills[1..]
    else [bills[0]] + Billed(bills[1..], account, bytes)
  }

  function BillTotal(bills: seq<Bill>, a: Account): nat {
    if bills == [] then 0 else (if bills[0].account == Some(a) then bills[0].bytes else 0) + BillTotal(bills[1..], a)
  }

  lemma {:induction false} BilledTotal(bills: seq<Bill>, account: Option<Account>, bytes: nat, a: Account)
    ensures BillTotal(Billed(bills, account, bytes), a)
         == BillTotal(bills, a) + (if account == Some(a) then bytes else 0)
  {
    if bills == [] {
      assert Billed(bills, account, bytes)[1..] == [];
    } else if bills[0].account == account {
      assert Billed(bills, account, bytes)[1..] == bills[1..];
    } else {
      BilledTotal(bills[1..], account, bytes, a);
      assert Billed(bills, account, bytes)[1..] == Billed(bills[1..], account, bytes);
    }
  }

  // ------------------------------------------------------------------ the server

  class Server {
    const ceiling: nat
    var counters: map<Account, int>
    var attachments: seq<Attachment>
    var vault: seq<VaultRow>
    var groups: set<GroupId>
    var members: set<Membership>
    var envelopes: set<EnvelopeRow>
    var devices: map<Device, Account>

    ghost function View(): Tables
      reads this
    {
      Tables(counters, attachments, vault, groups, members, envelopes, devices)
    }

    ghost predicate Valid()
      reads this
    {
      Safe(View(), ceiling)
    }

    constructor (ceiling: nat)
      ensures this.ceiling == ceiling && Valid()
    {
      this.ceiling := ceiling;
      counters, attachments, vault, groups, members, envelopes, devices := map[], [], [], {}, {}, {}, map[];
    }

    /** The counter row that comes with an account. */
    method RegisterAccount(account: Account)
      requires Valid()
      modifies this`counters
      ensures View() == Next(old(View()), ceiling, Register(account))
      ensures Valid()
    {
      RegisterKeeps(View(), ceiling, account);
      if account !in counters {
        counters := counters[account := 0];
      }
    }

    /** The conditional `UPDATE`: no row matched is a refusal. */
    method Charge(account: Account, bytes: nat) returns (ok: bool)
      modifies this`counters
      ensures ok == Chargeable(old(counters), ceiling, account, bytes)
      ensures counters == if ok then Moved(old(counters), account, bytes) else old(counters)
    {
      if account !in counters || (ceiling != 0 && counters[account] + bytes > ceiling) {
        return false;
      }
      counters := counters[account := counters[account] + bytes];
      return true;
    }

    /** Fails when the table's own check refuses a negative counter. */
    method Credit(account: Account, bytes: nat) returns (ok: bool)
      modifies this`counters
      ensures ok == !(account in old(counters) && old(counters)[account] < bytes)
      ensures counters == if ok then Moved(old(counters), account, -(bytes as int)) else old(counters)
    {
      if account !in counters {
        return true;
      }
      if counters[account] - bytes < 0 {
        return false;
      }
      counters := counters[account := counters[account] - bytes];
      return true;
    }

    method UploadAttachment(device: Device, group: GroupId, payload: Bytes, now: Instant)
      returns (reply: Result<(), ApiError>)
      requires Valid()
      modifies this
      ensures Outcome(View(), reply) == Uploaded(old(View()), ceiling, device, group, payload, now)
      ensures Valid()
    {
      UploadKeeps(View(), ceiling, device, group, payload, now);
      if Membership(group, device) !in members || device !in devices {
        return Err(Forbidden);
      }
      if payload == [] {
        return Err(BadRequest);
      }
      var ok := Charge(devices[device], |payload|);
      if !ok {
        return Err(InsufficientStorage);
      }
      attachments := attachments + [Attachment(group, Some(devices[device]), payload, now)];
      return Ok(());
    }

    /** `INSERT … ON CONFLICT DO NOTHING RETURNING octet_length(payload)`, summed. */
    method InsertVaultRows(account: Account, group: GroupId, entries: seq<VaultEntry>) returns (charged: nat)
      modifies this`vault
      ensures vault == Inserted(old(vault), account, group, entries)
      ensures charged == VaultBytes(vault, account) - VaultBytes(old(vault), account)
      ensures charged == FreshBytes(old(vault), account, group, entries)
    {
      InsertedWeighs(vault, account, group, entries);
      charged := 0;
      for i := 0 to |entries|
        invariant vault == Inserted(old(vault), account, group, entries[..i])
        invariant charged == VaultBytes(vault, account) - VaultBytes(old(vault), account)
      {
        assert entries[..i + 1][..i] == entries[..i];
        if !HasRow(vault, account, group, entries[i].sequence) {
          ghost var was := vault;
          vault := vault + [VaultRow(account, group, entries[i].sequence, entries[i].payload)];
          charged := charged + |entries[i].payload|;
          assert vault[..|was|] == was;
        }
      }
      assert entries[..|entries|] == entries;
    }

    /** Inserts first and charges what the insert stored; a refusal rolls the insert back. */
    method StoreVault(device: Device, group: GroupId, entries: seq<VaultEntry>)
      returns (reply: Result<(), ApiError>)
      requires Valid()
      modifies this
      ensures Outcome(View(), reply) == Stored(old(View()), ceiling, device, group, entries)
      ensures Valid()
    {
      hide Inserted, VaultBytes, Moved, Chargeable, Safe, SameDrift;
      StoreKeeps(View(), ceiling, device, group, entries);
      if entries == [] || |entries| > MAX_VAULT_ENTRIES {
        return Err(BadRequest);
      }
      if Membership(group, device) !in members || device !in devices {
        return Err(Forbidden);
      }
      var before := vault;
      var charged := InsertVaultRows(devices[device], group, entries);
      var ok := Charge(devices[device], charged);
      if !ok {
        vault := before;
        assert View() == old(View());
        return Err(InsufficientStorage);
      }
      return Ok(());
    }

    /** `DELETE … RETURNING octet_length(payload)`, summed. */
    method DeleteVaultRows(account: Account, group: GroupId) returns (bytes: nat)
      modifies this`vault
      ensures vault == Rest(old(vault), account, group)
      ensures bytes == VaultBytes(old(vault), account) - VaultBytes(vault, account)
    {
      bytes := 0;
      var rest: seq<VaultRow> := [];
      for i := 0 to |vault|
        invariant rest == Rest(vault[..i], account, group)
        invariant bytes == VaultBytes(vault[..i], account) - VaultBytes(rest, account)
      {
        assert vault[..i + 1][..i] == vault[..i];
        if vault[i].account == account && vault[i].group == group {
          bytes := bytes + |vault[i].payload|;
        } else {
          assert (rest + [vault[i]])[..|rest|] == rest;
          rest := rest + [vault[i]];
        }
      }
      assert vault[..|vault|] == vault;
      vault := rest;
    }

    method DropVault(device: Device, group: GroupId) returns (reply: Result<(), ApiError>)
      requires Valid()
      modifies this
      ensures Outcome(View(), reply) == Dropped(old(View()), device, group)
      ensures Valid() && reply != Err(DatabaseFault)
    {
      hide Rest, VaultBytes, Moved, Safe, SameDrift;
      DropKeeps(View(), ceiling, device, group);
      if device !in devices {
        return Err(Forbidden);
      }
      var bytes := DeleteVaultRows(devices[device], group);
      var ok := Credit(devices[device], bytes);
      return if ok then Ok(()) else Err(DatabaseFault);
    }

    /** `DELETE … RETURNING account, octet_length(payload)`, summed per account. */
    method DeleteAttachments(gone: Attachment -> bool) returns (bills: seq<Bill>)
      modifies this`attachments
      ensures attachments == Left(old(attachments), gone)
      ensures forall a :: BillTotal(bills, a) == AttachmentBytes(Taken(old(attachments), gone), a)
    {
      bills := [];
      var left: seq<Attachment>, taken: seq<Attachment> := [], [];
      for i := 0 to |attachments|
        invariant left == Left(attachments[..i], gone) && taken == Taken(attachments[..i], gone)
        invariant forall a :: BillTotal(bills, a) == AttachmentBytes(taken, a)
      {
        var x := attachments[i];
        assert attachments[..i + 1][..i] == attachments[..i];
        if gone(x) {
          ghost var earlier := bills;
          bills := Billed(bills, x.account, |x.payload|);
          forall a
            ensures BillTotal(bills, a) == AttachmentBytes(taken + [x], a)
          {
            BilledTotal(earlier, x.account, |x.payload|, a);
            assert (taken + [x])[..|taken|] == taken;
          }
          taken := taken + [x];
        } else {
          left := left + [x];
        }
      }
      assert attachments[..|attachments|] == attachments;
      attachments := left;
    }

    /** Rows without an account were never charged. */
    method CreditAll(bills: seq<Bill>) returns (ok: bool)
      requires forall a | a in counters :: BillTotal(bills, a) <= counters[a]
      modifies this`counters
      ensures ok
      ensures counters == map a | a in old(counters) :: old(counters)[a] - BillTotal(bills, a)
    {
      for i := 0 to |bills|
        invariant counters.Keys == old(counters).Keys
        invariant forall a | a in counters ::
                    counters[a] - BillTotal(bills[i..], a) == old(counters)[a] - BillTotal(bills, a)
      {
        assert bills[i..][1..] == bills[i + 1..];
        if bills[i].account.Some? {
          ok := Credit(bills[i].account.value, bills[i].bytes);
          if !ok {
            return;
          }
        }
      }
      return true;
    }

    /** One deletion, its bytes given back. */
    method DeleteAndCredit(gone: Attachment -> bool) returns (ok: bool)
      requires forall a | a in counters :: AttachmentBytes(Taken(attachments, gone), a) <= counters[a]
      modifies this`attachments, this`counters
      ensures ok && attachments == Left(old(attachments), gone)
      ensures counters == Credited(old(counters), Taken(old(attachments), gone))
    {
      var bills := DeleteAttachments(gone);
      ok := CreditAll(bills);
    }

    /** The transaction of a purge pass. */
    method PurgePayloads(now: Instant) returns (ok: bool)
      requires Valid()
      modifies this
      ensures View() == Purged(old(View()), now)
      ensures Valid() && ok
    {
      PurgeKeeps(View(), ceiling, now);
      PurgeAffordable(View(), ceiling, now);
      ok := DeleteAndCredit(Aged(now));
      ok := DeleteAndCredit(Doomed(members, envelopes, now));
    }

    /** The last statement of a pass, on whatever state and clock it meets. */
    method DropAbandonedGroups(now: Instant)
      requires Valid()
      modifies this
      ensures View() == Swept(old(View()), now)
      ensures old(Conserved(View())) ==> (Conserved(View()) <==> old(CleanSweep(View(), now)))
      ensures Valid()
    {
      SweepKeeps(View(), ceiling, now);
      if Conserved(View()) { CascadeConservesExactly(View(), now); }
      var gone := Doomed(members, envelopes, now);
      groups := set g | g in groups && !Abandoned(members, envelopes, g, now);
      attachments := Left(attachments, gone);
      envelopes := set e | e in envelopes && e.group in groups;
    }
  }
}

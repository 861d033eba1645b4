/** The sequence numbers of a group's mailbox against the purge: which envelopes survive, what a page holds, and
    when the reader is told that something is gone. Instants are seconds. */
module Mailbox {
  import opened Prelude

  type Instant = int
  type GroupId = Bytes

  const ENVELOPE_RETENTION: int := 30 * 86400
  const ENVELOPE_MIN_TAIL: int := 500
  const PAGE: nat := 200

  datatype Envelope = Envelope(payload: Bytes, created: Instant)

  /** One group: the last sequence handed out, and the envelopes still stored under theirs. */
  datatype Mailbox = Mailbox(next: nat, envelopes: map<nat, Envelope>)

  const EMPTY: Mailbox := Mailbox(0, map[])

  // ------------------------------------------------------------------ the statements

  function Posted(m: Mailbox, payload: Bytes, now: Instant): Mailbox {
    Mailbox(m.next + 1, m.envelopes[m.next + 1 := Envelope(payload, now)])
  }

  /** Old enough, and far enough behind the head. */
  predicate Expired(m: Mailbox, s: nat, now: Instant)
    requires s in m.envelopes
  {
    m.envelopes[s].created < now - ENVELOPE_RETENTION && s <= m.next - ENVELOPE_MIN_TAIL
  }

  function Purged(m: Mailbox, now: Instant): Mailbox {
    m.(envelopes := map s | s in m.envelopes && !Expired(m, s, now) :: m.envelopes[s])
  }

  /** The first stored sequence from `s` on, or one past the head. */
  function FirstFrom(m: Mailbox, s: nat): (r: nat)
    requires s <= m.next + 1
    ensures s <= r <= m.next + 1
    ensures r in m.envelopes || r == m.next + 1
    ensures forall k | s <= k < r :: k !in m.envelopes
    decreases m.next + 1 - s
  {
    if s == m.next + 1 || s in m.envelopes then s else FirstFrom(m, s + 1)
  }

  /** `oldest_surviving`. */
  function Oldest(m: Mailbox): nat {
    FirstFrom(m, 0)
  }

  /** `seq > cursor ORDER BY seq LIMIT limit`. */
  function Page(m: Mailbox, cursor: int, limit: nat): seq<nat>
    decreases limit
  {
    var from := if cursor < 0 then 0 else cursor + 1;
    if limit == 0 || from > m.next then []
    else
      var s := FirstFrom(m, from);
      if s == m.next + 1 then [] else [s] + Page(m, s, limit - 1)
  }

  /** How a client reads the answer. */
  predicate ReportsGap(cursor: int, oldest: nat) {
    cursor < oldest - 1
  }

  // ------------------------------------------------------------------ what runs keep

  /** The survivors are the interval from `oldest` to the head. */
  ghost predicate Contiguous(m: Mailbox) {
    1 <= Oldest(m) && forall s :: s in m.envelopes <==> Oldest(m) <= s <= m.next
  }

  ghost predicate InOrder(m: Mailbox) {
    forall s, t | s in m.envelopes && t in m.envelopes && s <= t :: m.envelopes[s].created <= m.envelopes[t].created
  }

  ghost predicate Interval(m: Mailbox) {
    Contiguous(m) && InOrder(m)
  }

  /** The tail is whole. */
  ghost predicate TailKept(m: Mailbox) {
    Oldest(m) == 1 || Oldest(m) <= m.next - ENVELOPE_MIN_TAIL + 1
  }

  lemma OldestIs(m: Mailbox, lo: nat)
    requires 1 <= lo <= m.next + 1
    requires forall s :: s in m.envelopes <==> lo <= s <= m.next
    ensures Oldest(m) == lo
  {
    assert lo < Oldest(m) ==> lo !in m.envelopes;
  }

  lemma PostKeeps(m: Mailbox, payload: Bytes, now: Instant)
    requires Interval(m) && forall s | s in m.envelopes :: m.envelopes[s].created <= now
    ensures Interval(Posted(m, payload, now)) && Oldest(Posted(m, payload, now)) == Oldest(m)
    ensures TailKept(m) ==> TailKept(Posted(m, payload, now))
  {
    OldestIs(Posted(m, payload, now), Oldest(m));
  }

  /** A purge leaves the envelopes it leaves as they were, so two of them do what the later one does alone. */
  lemma PurgesCompose(m: Mailbox, first: Instant, second: Instant)
    ensures Purged(Purged(m, first), second) == Purged(m, if first <= second then second else first)
    ensures var p := Purged(m, first);
            p.next == m.next && forall s | s in p.envelopes :: s in m.envelopes && p.envelopes[s] == m.envelopes[s]
  {
    var last := if first <= second then second else first;
    assert Purged(Purged(m, first), second).envelopes == Purged(m, last).envelopes;
  }

  /** A purge takes a prefix, of old envelopes only, and never reaches into the tail. */
  lemma PurgeKeeps(m: Mailbox, now: Instant)
    requires Interval(m)
    ensures Interval(Purged(m, now)) && Oldest(m) <= Oldest(Purged(m, now))
    ensures TailKept(m) ==> TailKept(Purged(m, now))
    ensures forall s | s in m.envelopes && s < Oldest(Purged(m, now)) ::
              m.envelopes[s].created < now - ENVELOPE_RETENTION
    ensures forall s | s in Purged(m, now).envelopes && s <= m.next - ENVELOPE_MIN_TAIL ::
              m.envelopes[s].created >= now - ENVELOPE_RETENTION
  {
    var p := Purged(m, now);
    var lo := Oldest(p);
    forall s | lo <= s <= m.next
      ensures s in p.envelopes
    {
      assert lo in m.envelopes && s in m.envelopes && !Expired(m, lo, now);
    }
    forall s | s in m.envelopes && s < lo
      ensures Expired(m, s, now)
    {
      assert s !in p.envelopes;
    }
    if 500 <= m.next {
      assert m.next - 499 in m.envelopes ==> m.next - 499 in p.envelopes;
    }
  }

  /** A page of a whole mailbox: consecutive sequences from the cursor, or from the oldest when that lies behind. */
  lemma {:induction false} PageIsConsecutive(m: Mailbox, cursor: int, limit: nat)
    requires Interval(m)
    ensures var first := if cursor < Oldest(m) - 1 then Oldest(m) else cursor + 1;
            var page := Page(m, cursor, limit);
            && |page| == (if first > m.next then 0
                          else if m.next - first + 1 <= limit then m.next - first + 1 else limit)
            && forall i | 0 <= i < |page| :: page[i] == first + i
    decreases limit
  {
    var from := if cursor < 0 then 0 else cursor + 1;
    if limit > 0 && from <= m.next {
      var s := FirstFrom(m, from);
      if s <= m.next {
        PageIsConsecutive(m, s, limit - 1);
      }
    }
  }

  /** The report is exact: a reader is told of a gap when a sequence after its cursor was handed out and is gone,
      and otherwise only if its cursor is negative. */
  lemma GapIsExact(m: Mailbox, cursor: int)
    requires Interval(m)
    ensures ReportsGap(cursor, Oldest(m)) <==>
              cursor < 0 || exists s :: cursor < s <= m.next && 1 <= s && s !in m.envelopes
  {
    if 0 <= cursor && ReportsGap(cursor, Oldest(m)) {
      assert cursor + 1 !in m.envelopes;
    }
  }

  /** `oldest` is read before the rows. With a purge in between, envelopes go missing without a report exactly when
      that purge moved the oldest one past the cursor. */
  lemma {:induction false} SplitFetchIsExact(before: Mailbox, after: Mailbox, cursor: nat)
    requires Interval(before) && Interval(after) && cursor < after.next
    ensures var page := Page(after, cursor, PAGE);
            (!ReportsGap(cursor, Oldest(before)) && (page == [] || page[0] != cursor + 1))
            <==> Oldest(before) <= cursor + 1 < Oldest(after)
  {
    PageIsConsecutive(after, cursor, PAGE);
  }

  /** The ground moves under a client between two of its pages exactly when the purge in between takes the very next
      envelope it was to read; the client is then told. */
  lemma GroundMovesExactly(m: Mailbox, now: Instant, cursor: nat)
    requires Interval(m) && !ReportsGap(cursor, Oldest(m))
    ensures ReportsGap(cursor, Oldest(Purged(m, now))) <==> cursor + 1 in m.envelopes && Expired(m, cursor + 1, now)
  {
    PurgeKeeps(m, now);
    var p := Purged(m, now);
    assert Contiguous(p) && p.next == m.next;
    assert cursor + 1 in p.envelopes <==> Oldest(p) <= cursor + 1 <= m.next;
    assert cursor + 1 in m.envelopes <==> cursor + 1 <= m.next;
  }

  // ------------------------------------------------------------------ creation times out of order

  /** Two posts that race may be stamped in the opposite order of their sequences, the stamp being the start of the
      transaction. A purge then loses envelopes after a cursor without a word exactly when it takes one of them and
      leaves one that the reader has reached, or is to read next. */
  lemma SilentLossExactly(m: Mailbox, now: Instant, cursor: nat)
    requires Contiguous(m) && !ReportsGap(cursor, Oldest(m))
    ensures var p := Purged(m, now);
            (!ReportsGap(cursor, Oldest(p)) && exists t :: cursor < t <= m.next && t !in p.envelopes)
            <==> exists s, t :: s in m.envelopes && t in m.envelopes && s <= cursor + 1 && cursor < t
                                && !Expired(m, s, now) && Expired(m, t, now)
  {
    var p := Purged(m, now);
    if t :| cursor < t <= m.next && t !in p.envelopes && !ReportsGap(cursor, Oldest(p)) {
      assert t in m.envelopes && Expired(m, t, now);
      assert Oldest(p) in p.envelopes;
      assert Oldest(p) in m.envelopes && !Expired(m, Oldest(p), now);
    }
    if s, t :| s in m.envelopes && t in m.envelopes && s <= cursor + 1 && cursor < t
               && !Expired(m, s, now) && Expired(m, t, now) {
      assert s in p.envelopes && t !in p.envelopes;
    }
  }

  /** With creation times in the order of the sequences that never happens: a purge reports a gap, or everything after
      the cursor is still there. */
  lemma InOrderNothingIsSilent(m: Mailbox, now: Instant, cursor: nat)
    requires Interval(m) && !ReportsGap(cursor, Oldest(m))
    ensures var p := Purged(m, now);
            ReportsGap(cursor, Oldest(p)) || forall t | cursor < t <= m.next :: t in p.envelopes
  {
    hide Purged, Oldest, ReportsGap;
    SilentLossExactly(m, now, cursor);
    forall s, t | s in m.envelopes && t in m.envelopes && s <= cursor + 1 && cursor < t && Expired(m, t, now)
      ensures Expired(m, s, now)
    {
      assert s <= t;
    }
  }

  function Stamped(s: nat): Envelope {
    Envelope([0], if s == 2 then 0 else 10)
  }

  /** That many posts, the second one stamped before the first. */
  function RacingPosts(n: nat): Mailbox {
    if n == 0 then EMPTY else Posted(RacingPosts(n - 1), [0], Stamped(n).created)
  }

  lemma {:induction false} RacingPostsStored(n: nat)
    ensures var m := RacingPosts(n);
            m.next == n && forall s :: s in m.envelopes <==> 1 <= s <= n
    ensures forall s | 1 <= s <= n :: RacingPosts(n).envelopes[s] == Stamped(s)
  {
    if n > 0 { RacingPostsStored(n - 1); }
  }

  /** After five hundred and two of them a reader at the start loses the second envelope and is told nothing. */
  lemma RacingPostsLoseSilently() returns (m: Mailbox, now: Instant)
    ensures m == RacingPosts(502) && Contiguous(m) && !ReportsGap(0, Oldest(m))
    ensures !ReportsGap(0, Oldest(Purged(m, now))) && 2 in m.envelopes && 2 !in Purged(m, now).envelopes
  {
    m, now := RacingPosts(502), ENVELOPE_RETENTION + 5;
    RacingPostsStored(502);
    OldestIs(m, 1);
    assert m.envelopes[1] == Stamped(1) && m.envelopes[2] == Stamped(2);
    assert !Expired(m, 1, now) && Expired(m, 2, now);
    assert 1 in Purged(m, now).envelopes;
  }

  // ------------------------------------------------------------------ a client paging through it all

  datatype Event = Post(payload: Bytes, now: Instant) | Purge(now: Instant) | Fetch

  /** The mailbox, everything ever posted to it, and one client: where it stands, what it has received, and whether
      some page told it of a gap. */
  datatype Session = Session(m: Mailbox, posted: seq<Bytes>, cursor: nat, received: seq<Bytes>, gap: bool)

  function Payloads(m: Mailbox, page: seq<nat>): (r: seq<Bytes>)
    requires forall s | s in page :: s in m.envelopes
    ensures |r| == |page| && forall i | 0 <= i < |r| :: r[i] == m.envelopes[page[i]].payload
  {
    if page == [] then [] else Payloads(m, page[..|page| - 1]) + [m.envelopes[page[|page| - 1]].payload]
  }

  lemma {:induction false} PageIsStored(m: Mailbox, cursor: int, limit: nat)
    ensures forall s | s in Page(m, cursor, limit) :: s in m.envelopes
    decreases limit
  {
    var from := if cursor < 0 then 0 else cursor + 1;
    if limit > 0 && from <= m.next {
      PageIsStored(m, FirstFrom(m, from), limit - 1);
    }
  }

  function Next(x: Session, e: Event): Session {
    match e
    case Post(payload, now) => x.(m := Posted(x.m, payload, now), posted := x.posted + [payload])
    case Purge(now) => x.(m := Purged(x.m, now))
    case Fetch =>
      var page := Page(x.m, x.cursor, PAGE);
      PageIsStored(x.m, x.cursor, PAGE);
      x.(gap := x.gap || ReportsGap(x.cursor, Oldest(x.m)),
         received := x.received + Payloads(x.m, page),
         cursor := if page == [] then x.cursor else page[|page| - 1])
  }

  /** The clock that stamps envelopes does not run backwards. */
  ghost predicate Allowed(x: Session, e: Event) {
    e.Post? ==> forall s | s in x.m.envelopes :: x.m.envelopes[s].created <= e.now
  }

  function Run(x: Session, events: seq<Event>): Session {
    if events == [] then x else Next(Run(x, events[..|events| - 1]), events[|events| - 1])
  }

  ghost predicate IsRun(x: Session, events: seq<Event>) {
    events != [] ==>
      && IsRun(x, events[..|events| - 1])
      && Allowed(Run(x, events[..|events| - 1]), events[|events| - 1])
  }

  ghost predicate Whole(x: Session, start: nat) {
    && Interval(x.m) && TailKept(x.m)
    && x.m.next == |x.posted|
    && (forall s | s in x.m.envelopes :: x.m.envelopes[s].payload == x.posted[s - 1])
    && (!x.gap ==> Received(x, start))
  }

  /** The client holds exactly what was posted from `start` to its cursor. */
  ghost predicate Received(x: Session, start: nat) {
    start <= x.cursor <= |x.posted| && x.received == x.posted[start..x.cursor]
  }

  lemma PayloadsAre(m: Mailbox, posted: seq<Bytes>, cursor: nat, page: seq<nat>)
    requires forall s | s in m.envelopes :: 1 <= s <= |posted| && m.envelopes[s].payload == posted[s - 1]
    requires forall s | s in page :: s in m.envelopes
    requires cursor + |page| <= |posted| && forall i | 0 <= i < |page| :: page[i] == cursor + 1 + i
    ensures Payloads(m, page) == posted[cursor..cursor + |page|]
  {
    assert forall i | 0 <= i < |page| :: page[i] in m.envelopes;
  }

  lemma PagePayloads(m: Mailbox, posted: seq<Bytes>, cursor: nat)
    requires Interval(m) && m.next == |posted| && cursor <= m.next && !ReportsGap(cursor, Oldest(m))
    requires forall s | s in m.envelopes :: m.envelopes[s].payload == posted[s - 1]
    ensures var page := Page(m, cursor, PAGE);
            && (forall s | s in page :: s in m.envelopes)
            && cursor + |page| <= |posted|
            && Payloads(m, page) == posted[cursor..cursor + |page|]
            && (page != [] ==> page[|page| - 1] == cursor + |page|)
  {
    PageIsStored(m, cursor, PAGE);
    PageIsConsecutive(m, cursor, PAGE);
    PayloadsAre(m, posted, cursor, Page(m, cursor, PAGE));
  }

  lemma ReceivedGrows(x: Session, start: nat)
    requires Whole(x, start) && !Next(x, Fetch).gap
    ensures Received(Next(x, Fetch), start)
  {
    var next := Next(x, Fetch);
    PagePayloads(x.m, x.posted, x.cursor);
    Slices(x.posted, start, x.cursor, next.cursor);
  }

  lemma FetchKeeps(x: Session, start: nat)
    requires Whole(x, start)
    ensures Whole(Next(x, Fetch), start)
  {
    var next := Next(x, Fetch);
    assert next.m == x.m && next.posted == x.posted;
    if !next.gap {
      ReceivedGrows(x, start);
    }
  }

  lemma NextKeeps(x: Session, e: Event, start: nat)
    requires Whole(x, start) && Allowed(x, e)
    ensures Whole(Next(x, e), start)
  {
    match e
    case Post(payload, now) =>
      PostKeeps(x.m, payload, now);
      assert x.gap || (x.posted + [payload])[start..x.cursor] == x.posted[start..x.cursor];
    case Purge(now) => PurgeKeeps(x.m, now);
    case Fetch => FetchKeeps(x, start);
  }

  lemma {:induction false} RunKeeps(x: Session, events: seq<Event>, start: nat)
    requires Whole(x, start) && IsRun(x, events)
    ensures Whole(Run(x, events), start)
  {
    if events != [] {
      RunKeeps(x, events[..|events| - 1], start);
      NextKeeps(Run(x, events[..|events| - 1]), events[|events| - 1], start);
    }
  }

  /** However posts and purges fall between its pages, a client that was told of no gap has received exactly what was
      posted after its first cursor, in order, up to where it stands; and one more empty page means it has it all. */
  lemma {:induction false} PagingMissesNothing(events: seq<Event>, before: Session, start: nat)
    requires Whole(before, start) && IsRun(before, events)
    ensures var x := Run(before, events);
            !x.gap ==>
              && Received(x, start)
              && (Page(x.m, x.cursor, PAGE) == [] && !ReportsGap(x.cursor, Oldest(x.m)) ==>
                    x.received == x.posted[start..])
  {
    RunKeeps(before, events, start);
    var x := Run(before, events);
    PageIsConsecutive(x.m, x.cursor, PAGE);
    if !x.gap && x.cursor == |x.posted| {
      assert x.posted[start..x.cursor] == x.posted[start..];
    }
  }

  /** In every run from an empty mailbox the last five hundred envelopes are stored, so a reader no further behind
      than that is never told of a gap. */
  lemma RecentReadersSeeNoGap(events: seq<Event>, cursor: nat)
    requires IsRun(Session(EMPTY, [], 0, [], false), events)
    ensures var m := Run(Session(EMPTY, [], 0, [], false), events).m;
            && (forall s | 1 <= s && m.next - ENVELOPE_MIN_TAIL < s <= m.next :: s in m.envelopes)
            && (m.next - ENVELOPE_MIN_TAIL <= cursor ==> !ReportsGap(cursor, Oldest(m)))
  {
    var x := Session(EMPTY, [], 0, [], false);
    assert Oldest(x.m) == 1 by { OldestIs(x.m, 1); }
    RunKeeps(x, events, 0);
  }

  // ------------------------------------------------------------------ how long an envelope lives

  const START: Session := Session(EMPTY, [], 0, [], false)

  /** Step `a` posted the envelope under sequence `s`. */
  ghost predicate PostedAt(x: Session, events: seq<Event>, a: nat, s: nat, envelope: Envelope) {
    && a < |events| && events[a] == Post(envelope.payload, envelope.created)
    && Run(x, events[..a]).m.next + 1 == s
  }

  /** From step `from` on no purge finds it thirty days old and five hundred behind. */
  ghost predicate SparedSince(x: Session, events: seq<Event>, from: nat, s: nat, created: Instant) {
    forall b: nat | from <= b < |events| && events[b].Purge? ::
      events[b].now - created <= ENVELOPE_RETENTION || Run(x, events[..b]).m.next - s < ENVELOPE_MIN_TAIL
  }

  predicate Stores(m: Mailbox, s: nat, envelope: Envelope) {
    s in m.envelopes && m.envelopes[s] == envelope
  }

  lemma LastStep(x: Session, events: seq<Event>, i: nat, s: nat, envelope: Envelope)
    requires events != [] && i <= |events|
    ensures var n, before := |events| - 1, Run(x, events[..|events| - 1]);
            && (PostedAt(x, events, i, s, envelope) <==>
                  || PostedAt(x, events[..n], i, s, envelope)
                  || (i == n && events[n] == Post(envelope.payload, envelope.created) && before.m.next + 1 == s))
            && (SparedSince(x, events, i, s, envelope.created) <==>
                  || i == |events|
                  || (&& SparedSince(x, events[..n], i, s, envelope.created)
                      && (events[n].Purge? ==>
                            || events[n].now - envelope.created <= ENVELOPE_RETENTION
                            || before.m.next - s < ENVELOPE_MIN_TAIL)))
  {
    hide Run;
    var n := |events| - 1;
    assert forall b: nat | b <= n :: events[..n][..b] == events[..b];
    assert forall b: nat | b < n :: events[..n][b] == events[b];
  }

  lemma MailboxMoves(x: Session, e: Event, s: nat, envelope: Envelope)
    requires forall k | k in x.m.envelopes :: k <= x.m.next
    ensures Stores(Next(x, e).m, s, envelope) <==>
              || (Stores(x.m, s, envelope)
                  && (e.Purge? ==>
                        || e.now - envelope.created <= ENVELOPE_RETENTION || x.m.next - s < ENVELOPE_MIN_TAIL))
              || (e == Post(envelope.payload, envelope.created) && x.m.next + 1 == s)
    ensures forall k | k in Next(x, e).m.envelopes :: k <= Next(x, e).m.next
  {
    hide Page, Oldest;
  }

  /** Whatever the order of their clocks: over any posts, purges and fetches an envelope is stored, under its own
      sequence and with its own stamp, exactly from its post to the first purge that finds it older than the retention
      and out of the tail. */
  lemma {:induction false} StoredExactly(events: seq<Event>, s: nat, envelope: Envelope)
    ensures forall k | k in Run(START, events).m.envelopes :: k <= Run(START, events).m.next
    ensures Stores(Run(START, events).m, s, envelope) <==>
              exists a: nat :: PostedAt(START, events, a, s, envelope)
                               && SparedSince(START, events, a + 1, s, envelope.created)
  {
    hide Next, PostedAt, SparedSince, Stores;
    if events == [] {
      NothingStored(s, envelope);
    } else {
      var n := |events| - 1;
      StoredExactly(events[..n], s, envelope);
      MailboxMoves(Run(START, events[..n]), events[n], s, envelope);
      LastStep(START, events, n, s, envelope);
      LastStep(START, events, n + 1, s, envelope);
      forall a: nat | PostedAt(START, events[..n], a, s, envelope)
        ensures a < n && PostedAt(START, events, a, s, envelope)
        ensures SparedSince(START, events, a + 1, s, envelope.created) <==>
                  && SparedSince(START, events[..n], a + 1, s, envelope.created)
                  && (events[n].Purge? ==>
                        || events[n].now - envelope.created <= ENVELOPE_RETENTION
                        || Run(START, events[..n]).m.next - s < ENVELOPE_MIN_TAIL)
      {
        PostedInTime(START, events[..n], a, s, envelope);
        LastStep(START, events, a, s, envelope);
        LastStep(START, events, a + 1, s, envelope);
      }
      forall a: nat | PostedAt(START, events, a, s, envelope) && a != n
        ensures PostedAt(START, events[..n], a, s, envelope)
      {
        PostedInTime(START, events, a, s, envelope);
        LastStep(START, events, a, s, envelope);
      }
    }
  }

  lemma NothingStored(s: nat, envelope: Envelope)
    ensures !Stores(START.m, s, envelope) && forall a: nat :: !PostedAt(START, [], a, s, envelope)
  {
  }

  lemma PostedInTime(x: Session, events: seq<Event>, a: nat, s: nat, envelope: Envelope)
    requires PostedAt(x, events, a, s, envelope)
    ensures a < |events|
  {
  }

  // ------------------------------------------------------------------ a client far behind

  function Posts(n: nat): seq<Event> {
    if n == 0 then [] else Posts(n - 1) + [Post([0], 0)]
  }

  lemma RunThen(x: Session, events: seq<Event>, e: Event)
    requires IsRun(x, events) && Allowed(Run(x, events), e)
    ensures IsRun(x, events + [e]) && Run(x, events + [e]) == Next(Run(x, events), e)
  {
    assert (events + [e])[..|events|] == events;
  }

  /** `n` envelopes stored at instant zero, and a client that has read none. */
  ghost predicate Unread(x: Session, n: nat) {
    && x.m.next == n && x.cursor == 0 && !x.gap && Interval(x.m) && Oldest(x.m) == 1
    && forall s | s in x.m.envelopes :: x.m.envelopes[s].created == 0
  }

  lemma OneMoreUnread(x: Session, n: nat)
    requires Unread(x, n)
    ensures Allowed(x, Post([0], 0)) && Unread(Next(x, Post([0], 0)), n + 1)
  {
    PostKeeps(x.m, [0], 0);
  }

  lemma OnePostMore(events: seq<Event>, n: nat)
    requires IsRun(START, events) && Unread(Run(START, events), n)
    ensures IsRun(START, events + [Post([0], 0)]) && Unread(Run(START, events + [Post([0], 0)]), n + 1)
  {
    hide Unread, Next, Allowed;
    OneMoreUnread(Run(START, events), n);
    RunThen(START, events, Post([0], 0));
  }

  lemma NothingUnread()
    ensures IsRun(START, []) && Unread(Run(START, []), 0)
  {
    OldestIs(EMPTY, 1);
  }

  lemma {:induction false} AfterPosts(n: nat)
    ensures IsRun(START, Posts(n)) && Unread(Run(START, Posts(n)), n)
  {
    hide Unread, Run, IsRun;
    if n == 0 {
      NothingUnread();
    } else {
      AfterPosts(n - 1);
      OnePostMore(Posts(n - 1), n - 1);
    }
  }

  lemma FirstPage(x: Session, n: nat)
    requires Unread(x, n) && n > PAGE
    ensures Next(x, Fetch).m == x.m && Next(x, Fetch).cursor == PAGE && !Next(x, Fetch).gap
  {
    PageIsConsecutive(x.m, 0, PAGE);
  }

  lemma AfterFirstPage(n: nat)
    requires n > PAGE
    ensures IsRun(START, Posts(n) + [Fetch])
    ensures var x := Run(START, Posts(n) + [Fetch]);
            && x.m == Run(START, Posts(n)).m && x.cursor == PAGE && !x.gap && Page(x.m, x.cursor, PAGE) != []
  {
    AfterPosts(n);
    var x := Run(START, Posts(n));
    FirstPage(x, n);
    RunThen(START, Posts(n), Fetch);
    PageIsConsecutive(x.m, PAGE, PAGE);
  }

  /** With more than a page beyond the tail to read, the ground can move between the first page and the second: all is
      well after the first, a purge falls, and the second reports the gap. */
  lemma LaggingReaderIsOvertaken(n: nat) returns (events: seq<Event>)
    requires n > PAGE + ENVELOPE_MIN_TAIL
    ensures IsRun(START, events + [Purge(ENVELOPE_RETENTION + 1)])
    ensures var x := Run(START, events);
            var y := Run(START, events + [Purge(ENVELOPE_RETENTION + 1)]);
            && !x.gap && x.cursor == PAGE && !ReportsGap(x.cursor, Oldest(x.m)) && Page(x.m, x.cursor, PAGE) != []
            && !y.gap && Next(y, Fetch).gap
  {
    var now := ENVELOPE_RETENTION + 1;
    AfterPosts(n);
    AfterFirstPage(n);
    events := Posts(n) + [Fetch];
    RunThen(START, events, Purge(now));
    var m := Run(START, events).m;
    assert PAGE + 1 in m.envelopes && Expired(m, PAGE + 1, now);
    GroundMovesExactly(m, now, PAGE);
  }

  // ------------------------------------------------------------------ the server

  datatype ApiError = EmptyEnvelope | UnknownGroup

  datatype EnvelopePage = EnvelopePage(oldest: nat, sequences: seq<nat>, payloads: seq<Bytes>)

  class Server {
    var groups: map<GroupId, Mailbox>

    constructor ()
      ensures groups == map[]
    {
      groups := map[];
    }

    method AddGroup(group: GroupId)
      modifies this
      ensures groups == if group in old(groups) then old(groups) else old(groups)[group := EMPTY]
    {
      if group !in groups {
        groups := groups[group := EMPTY];
      }
    }

    /** Draws the next sequence and stores the envelope under it, in one transaction. */
    method PostEnvelope(group: GroupId, payload: Bytes, now: Instant) returns (r: Result<nat, ApiError>)
      modifies this
      ensures r.Ok? <==> payload != [] && group in old(groups)
      ensures r.Ok? ==> r.value == old(groups)[group].next + 1
                        && groups == old(groups)[group := Posted(old(groups)[group], payload, now)]
      ensures r.Err? ==> groups == old(groups)
    {
      if payload == [] {
        return Err(EmptyEnvelope);
      }
      if group !in groups {
        return Err(UnknownGroup);
      }
      var m := groups[group];
      m := m.(next := m.next + 1);
      m := m.(envelopes := m.envelopes[m.next := Envelope(payload, now)]);
      groups := groups[group := m];
      return Ok(m.next);
    }

    method PurgeEnvelopes(now: Instant)
      modifies this
      ensures groups.Keys == old(groups).Keys
      ensures forall g | g in groups :: groups[g] == Purged(old(groups)[g], now)
    {
      groups := map g | g in groups :: Purged(groups[g], now);
    }

    method FetchEnvelopes(group: GroupId, after: int) returns (r: Result<EnvelopePage, ApiError>)
      ensures r.Ok? <==> group in groups
      ensures r.Ok? ==>
                && r.value.oldest == Oldest(groups[group])
                && r.value.sequences == Page(groups[group], after, PAGE)
                && |r.value.payloads| == |r.value.sequences|
                && forall i | 0 <= i < |r.value.payloads| ::
                     && r.value.sequences[i] in groups[group].envelopes
                     && r.value.payloads[i] == groups[group].envelopes[r.value.sequences[i]].payload
    {
      if group !in groups {
        return Err(UnknownGroup);
      }
      var page := Page(groups[group], after, PAGE);
      PageIsStored(groups[group], after, PAGE);
      return Ok(EnvelopePage(Oldest(groups[group]), page, Payloads(groups[group], page)));
    }
  }
}

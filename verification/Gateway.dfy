/** The gateway's catch-up: what a session answers to the cursors a client presents when it comes back. */
module Gateway {
  import opened Prelude
  import opened Mailbox

  const MAX_CURSORS: nat := 512

  // ------------------------------------------------------------------ hexadecimal

  function HexValue(c: char): Option<nat> {
    if '0' <= c <= '9' then Some((c - '0') as nat)
    else if 'a' <= c <= 'f' then Some((c - 'a') as nat + 10)
    else if 'A' <= c <= 'F' then Some((c - 'A') as nat + 10)
    else None
  }

  /** `hex::decode`: two digits a byte, in either case. */
  function HexDecode(s: string): (r: Option<GroupId>)
    ensures r.Some? ==> |s| == 2 * |r.value|
  {
    if s == "" then Some([])
    else if |s| == 1 then None
    else
      var high, low, rest := HexValue(s[0]), HexValue(s[1]), HexDecode(s[2..]);
      if high.None? || low.None? || rest.None? || high.value > 15 || low.value > 15 then None
      else
        var first: Byte := 16 * high.value + low.value;
        Some([first] + rest.value)
  }

  function Digit(n: nat, upper: bool): (c: char)
    requires n < 16
    ensures HexValue(c) == Some(n)
  {
    if n < 10 then '0' + n as char else (if upper then 'A' else 'a') + (n - 10) as char
  }

  function Hex(id: GroupId, upper: bool): string {
    if id == [] then "" else [Digit(id[0] / 16, upper), Digit(id[0] % 16, upper)] + Hex(id[1..], upper)
  }

  /** Every id has a lower-case and an upper-case spelling. */
  lemma {:induction false} BothSpellingsDecode(id: GroupId, upper: bool)
    ensures HexDecode(Hex(id, upper)) == Some(id)
  {
    if id != [] {
      BothSpellingsDecode(id[1..], upper);
      assert Hex(id, upper)[2..] == Hex(id[1..], upper);
      assert id == [id[0]] + id[1..];
    }
  }

  predicate DigitsAt(s: string, i: nat, b: Byte)
    requires i + 1 < |s|
  {
    HexValue(s[i]) == Some(b / 16) && HexValue(s[i + 1]) == Some(b % 16)
  }

  /** Two digits a byte, the high one first, in either case. */
  ghost predicate Spells(s: string, id: GroupId) {
    |s| == 2 * |id| && forall i | 0 <= i < |id| :: DigitsAt(s, 2 * i, id[i])
  }

  lemma SpellsByteByByte(s: string, id: GroupId)
    requires |s| >= 2 && id != []
    ensures Spells(s, id) <==> DigitsAt(s, 0, id[0]) && Spells(s[2..], id[1..])
  {
    if |s| == 2 * |id| {
      var t, rest := s[2..], id[1..];
      forall i | 0 <= i < |rest|
        ensures DigitsAt(t, 2 * i, rest[i]) <==> DigitsAt(s, 2 * (i + 1), id[i + 1])
      {
        assert t[2 * i] == s[2 * (i + 1)] && t[2 * i + 1] == s[2 * (i + 1) + 1];
      }
      if Spells(t, rest) && DigitsAt(s, 0, id[0]) {
        forall i | 0 <= i < |id|
          ensures DigitsAt(s, 2 * i, id[i])
        {
          if i > 0 { assert DigitsAt(t, 2 * (i - 1), rest[i - 1]); }
        }
      }
    }
  }

  /** What decodes, and to what: the texts that spell an id, and nothing with anything else in it. */
  lemma {:induction false} HexDecodeExact(s: string, id: GroupId)
    ensures HexDecode(s) == Some(id) <==> Spells(s, id)
  {
    hide Spells, HexValue;
    if |s| >= 2 && id != [] {
      HexDecodeExact(s[2..], id[1..]);
      SpellsByteByByte(s, id);
      assert id == [id[0]] + id[1..];
      DigitsAreHalves(s[0], s[1], id[0]);
    } else {
      ShortSpellings(s, id);
    }
  }

  lemma DigitsAreHalves(high: char, low: char, b: Byte)
    ensures HexValue(high) == Some(b / 16) && HexValue(low) == Some(b % 16) <==>
              && HexValue(high).Some? && HexValue(low).Some?
              && HexValue(high).value <= 15 && HexValue(low).value <= 15
              && 16 * HexValue(high).value + HexValue(low).value == b
  {
  }

  lemma ShortSpellings(s: string, id: GroupId)
    requires |s| < 2 || id == []
    ensures Spells(s, id) <==> s == "" && id == []
  {
  }

  predicate HasLetter(b: Byte) {
    b / 16 >= 10 || b % 16 >= 10
  }

  /** The two differ exactly when some digit of the id is a letter. */
  lemma {:induction false} SpellingsDiffer(id: GroupId)
    ensures |Hex(id, false)| == |Hex(id, true)|
    ensures Hex(id, false) != Hex(id, true) <==> exists b :: b in id && HasLetter(b)
  {
    if id != [] {
      SpellingsDiffer(id[1..]);
      assert id == [id[0]] + id[1..];
      assert Hex(id, false)[2..] == Hex(id[1..], false) && Hex(id, true)[2..] == Hex(id[1..], true);
      var l, u := Hex(id, false), Hex(id, true);
      assert l == [l[0], l[1]] + l[2..] && u == [u[0], u[1]] + u[2..];
      assert (l[0] != u[0] || l[1] != u[1]) <==> HasLetter(id[0]);
      assert id[0] in id && forall b :: b in id <==> b == id[0] || b in id[1..];
    }
  }

  // ------------------------------------------------------------------ the catch-up

  /** A cursor names its group in hexadecimal. */
  datatype Cursor = Cursor(group: string, sequence: int)

  datatype Frame = Gap(group: string, oldest: nat) | Announced(group: string, sequence: nat)

  function Announcements(group: string, page: seq<nat>): (r: seq<Frame>)
    ensures |r| == |page| && forall i | 0 <= i < |r| :: r[i] == Announced(group, page[i])
  {
    if page == [] then []
    else Announcements(group, page[..|page| - 1]) + [Announced(group, page[|page| - 1])]
  }

  /** What one cursor is answered: the gap first, then the sequences to go and fetch. */
  function Answer(m: Mailbox, c: Cursor): seq<Frame> {
    (if ReportsGap(c.sequence, Oldest(m)) then [Gap(c.group, Oldest(m))] else [])
    + Announcements(c.group, Page(m, c.sequence, PAGE))
  }

  function Spellings(cursors: seq<Cursor>): set<string> {
    set i | 0 <= i < |cursors| :: cursors[i].group
  }

  /** A cursor that is answered, and the group it names. */
  datatype Query = Query(id: GroupId, cursor: Cursor)

  /** The first cursor of each spelling, when it names a group of the caller: one query each. */
  function Queries(mine: set<GroupId>, cursors: seq<Cursor>): (r: seq<Query>)
    ensures forall q | q in r :: q.id in mine
    ensures |r| <= |cursors|
  {
    if cursors == [] then []
    else
      var before, last := cursors[..|cursors| - 1], cursors[|cursors| - 1];
      var id := HexDecode(last.group);
      if last.group in Spellings(before) || id.None? || id.value !in mine then Queries(mine, before)
      else Queries(mine, before) + [Query(id.value, last)]
  }

  function Replies(groups: map<GroupId, Mailbox>, queries: seq<Query>): seq<Frame>
    requires forall q | q in queries :: q.id in groups
  {
    if queries == [] then []
    else
      var last := queries[|queries| - 1];
      Replies(groups, queries[..|queries| - 1]) + Answer(groups[last.id], last.cursor)
  }

  function Taken(cursors: seq<Cursor>): (r: seq<Cursor>)
    ensures r <= cursors && |r| <= MAX_CURSORS && (r == cursors || |r| == MAX_CURSORS)
  {
    if |cursors| <= MAX_CURSORS then cursors else cursors[..MAX_CURSORS]
  }

  lemma SpellingsGrow(cursors: seq<Cursor>, i: nat)
    requires i < |cursors|
    ensures Spellings(cursors[..i + 1]) == Spellings(cursors[..i]) + {cursors[i].group}
  {
    forall g | g in Spellings(cursors[..i])
      ensures g in Spellings(cursors[..i + 1])
    {
      var k :| 0 <= k < i && cursors[..i][k].group == g;
      assert cursors[..i + 1][k].group == g;
    }
    assert cursors[..i + 1][i].group == cursors[i].group;
  }

  lemma {:induction false} QueriesAreAsked(mine: set<GroupId>, cursors: seq<Cursor>)
    ensures forall q | q in Queries(mine, cursors) ::
              q.cursor in cursors && HexDecode(q.cursor.group) == Some(q.id) && q.cursor.group in Spellings(cursors)
  {
    if cursors != [] {
      var n := |cursors| - 1;
      QueriesAreAsked(mine, cursors[..n]);
      SpellingsGrow(cursors, n);
      assert cursors == cursors[..n] + [cursors[n]];
    }
  }

  lemma {:induction false} QueriesAreSpelledApart(mine: set<GroupId>, cursors: seq<Cursor>, i: nat, j: nat)
    requires i < j < |Queries(mine, cursors)|
    ensures Queries(mine, cursors)[i].cursor.group != Queries(mine, cursors)[j].cursor.group
  {
    var before := cursors[..|cursors| - 1];
    QueriesAreAsked(mine, before);
    if j < |Queries(mine, before)| {
      QueriesAreSpelledApart(mine, before, i, j);
    } else {
      assert Queries(mine, before)[i] in Queries(mine, before);
    }
  }

  lemma {:induction false} EverySpellingIsQueried(mine: set<GroupId>, cursors: seq<Cursor>, spelling: string)
    requires spelling in Spellings(cursors) && HexDecode(spelling).Some? && HexDecode(spelling).value in mine
    ensures exists q :: q in Queries(mine, cursors) && q.cursor.group == spelling && q.id == HexDecode(spelling).value
  {
    var n := |cursors| - 1;
    var before, last := cursors[..n], cursors[n];
    SpellingsGrow(cursors, n);
    assert cursors[..n + 1] == cursors;
    if spelling in Spellings(before) {
      EverySpellingIsQueried(mine, before, spelling);
      var q :| q in Queries(mine, before) && q.cursor.group == spelling && q.id == HexDecode(spelling).value;
      assert q in Queries(mine, cursors);
    } else {
      assert Query(HexDecode(spelling).value, last) in Queries(mine, cursors);
    }
  }

  /** Each group of the caller is queried at most once. */
  ghost predicate QueriedOnce(mine: set<GroupId>, cursors: seq<Cursor>) {
    var q := Queries(mine, cursors);
    forall i, j | 0 <= i < j < |q| :: q[i].id != q[j].id
  }

  /** Two of the cursors spell one group of the caller differently. */
  ghost predicate SpelledTwice(mine: set<GroupId>, cursors: seq<Cursor>) {
    exists s, t :: s in Spellings(cursors) && t in Spellings(cursors) && s != t
                   && HexDecode(s).Some? && HexDecode(s).value in mine && HexDecode(s) == HexDecode(t)
  }

  /** A repeated group buys one query exactly as long as it is spelled alike: repetition is judged on the text. */
  lemma RepetitionIsBySpelling(mine: set<GroupId>, cursors: seq<Cursor>)
    ensures QueriedOnce(mine, Taken(cursors)) <==> !SpelledTwice(mine, Taken(cursors))
    ensures |Queries(mine, Taken(cursors))| <= MAX_CURSORS
  {
    var taken := Taken(cursors);
    if SpelledTwice(mine, taken) { SpelledTwiceQueriedTwice(mine, taken); }
    if !QueriedOnce(mine, taken) { QueriedTwiceSpelledTwice(mine, taken); }
  }

  lemma SpelledTwiceQueriedTwice(mine: set<GroupId>, cursors: seq<Cursor>)
    requires SpelledTwice(mine, cursors)
    ensures !QueriedOnce(mine, cursors)
  {
    var s, t :| s in Spellings(cursors) && t in Spellings(cursors) && s != t
                && HexDecode(s).Some? && HexDecode(s).value in mine && HexDecode(s) == HexDecode(t);
    EverySpellingIsQueried(mine, cursors, s);
    EverySpellingIsQueried(mine, cursors, t);
    var a :| a in Queries(mine, cursors) && a.cursor.group == s && a.id == HexDecode(s).value;
    var b :| b in Queries(mine, cursors) && b.cursor.group == t && b.id == HexDecode(t).value;
    var i :| 0 <= i < |Queries(mine, cursors)| && Queries(mine, cursors)[i] == a;
    var j :| 0 <= j < |Queries(mine, cursors)| && Queries(mine, cursors)[j] == b;
    assert Queries(mine, cursors)[i].id == Queries(mine, cursors)[j].id && i != j;
  }

  lemma QueriedTwiceSpelledTwice(mine: set<GroupId>, cursors: seq<Cursor>)
    requires !QueriedOnce(mine, cursors)
    ensures SpelledTwice(mine, cursors)
  {
    var q := Queries(mine, cursors);
    var i: nat, j: nat :| i < j < |q| && q[i].id == q[j].id;
    QueriesAreSpelledApart(mine, cursors, i, j);
    QueriesAreAsked(mine, cursors);
    assert q[i] in q && q[j] in q;
    var s, t := q[i].cursor.group, q[j].cursor.group;
    assert s != t && s in Spellings(cursors) && t in Spellings(cursors) && HexDecode(s) == HexDecode(t);
  }

  /** Two cursors that buy two queries of one group: an id with a letter in it, in both cases. */
  lemma OneGroupTwoQueries(id: GroupId, mine: set<GroupId>) returns (cursors: seq<Cursor>)
    requires id in mine && exists b :: b in id && HasLetter(b)
    ensures !QueriedOnce(mine, Taken(cursors))
  {
    var s, t := Hex(id, false), Hex(id, true);
    cursors := [Cursor(s, 0), Cursor(t, 0)];
    BothSpellingsDecode(id, false);
    BothSpellingsDecode(id, true);
    SpellingsDiffer(id);
    assert cursors[0].group in Spellings(cursors) && cursors[1].group in Spellings(cursors);
    SpelledTwiceQueriedTwice(mine, Taken(cursors));
  }

  // ------------------------------------------------------------------ what the answers say

  /** Every frame is about a group of the caller, under a spelling it sent: the catch-up says nothing of others. */
  lemma {:induction false} RepliesStayAmongMine(groups: map<GroupId, Mailbox>, mine: set<GroupId>,
                                                cursors: seq<Cursor>, f: Frame)
    requires (forall g | g in mine :: g in groups) && f in Replies(groups, Queries(mine, cursors))
    ensures f.group in Spellings(cursors)
    ensures HexDecode(f.group).Some? && HexDecode(f.group).value in mine
  {
    QueriesAreAsked(mine, cursors);
    var q := FrameOfQuery(groups, Queries(mine, cursors), f);
  }

  lemma {:induction false} FrameOfQuery(groups: map<GroupId, Mailbox>, queries: seq<Query>, f: Frame) returns (q: Query)
    requires (forall q | q in queries :: q.id in groups) && f in Replies(groups, queries)
    ensures q in queries && q.cursor.group == f.group
  {
    var last := |queries| - 1;
    if f in Replies(groups, queries[..last]) {
      q := FrameOfQuery(groups, queries[..last], f);
    } else {
      q := queries[last];
    }
  }

  lemma AnnouncedIn(group: string, page: seq<nat>, s: nat)
    ensures Announced(group, s) in Announcements(group, page) <==> s in page
  {
    if i :| 0 <= i < |page| && page[i] == s {
      assert Announcements(group, page)[i] == Announced(group, s);
    }
  }

  lemma InPage(m: Mailbox, cursor: int, s: nat)
    requires Interval(m)
    ensures var first := if cursor < Oldest(m) - 1 then Oldest(m) else cursor + 1;
            s in Page(m, cursor, PAGE) <==> first <= s <= m.next && s < first + PAGE
  {
    PageIsConsecutive(m, cursor, PAGE);
    var first := if cursor < Oldest(m) - 1 then Oldest(m) else cursor + 1;
    assert first <= s <= m.next && s < first + PAGE ==> Page(m, cursor, PAGE)[s - first] == s;
  }

  /** For a whole mailbox the answer to a cursor is the gap, exactly when envelopes after it are gone or it is negative,
      and the run of survivors that follow it. */
  lemma {:induction false} AnswerIsExact(m: Mailbox, c: Cursor, f: Frame)
    requires Interval(m)
    ensures var first := if c.sequence < Oldest(m) - 1 then Oldest(m) else c.sequence + 1;
            f in Answer(m, c) <==>
              && f.group == c.group
              && match f
                 case Gap(_, oldest) =>
                   && oldest == Oldest(m)
                   && (c.sequence < 0 || exists t :: c.sequence < t <= m.next && 1 <= t && t !in m.envelopes)
                 case Announced(_, s) => first <= s <= m.next && s < first + PAGE
  {
    var page := Page(m, c.sequence, PAGE);
    GapIsExact(m, c.sequence);
    if f.Announced? {
      AnnouncedIn(c.group, page, f.sequence);
      InPage(m, c.sequence, f.sequence);
    }
    var gap := if ReportsGap(c.sequence, Oldest(m)) then [Gap(c.group, Oldest(m))] else [];
    assert forall x :: x in Answer(m, c) <==> x in gap || x in Announcements(c.group, page);
  }

  // ------------------------------------------------------------------ in what order

  /** What may come before what about one group: only an announcement comes second, after the gap or after a smaller
      sequence. */
  predicate MayPrecede(f: Frame, g: Frame) {
    f.group == g.group ==> g.Announced? && (f.Announced? ==> f.sequence < g.sequence)
  }

  ghost predicate Sequenced(frames: seq<Frame>) {
    forall i, j | 0 <= i < j < |frames| :: MayPrecede(frames[i], frames[j])
  }

  ghost predicate Increasing(page: seq<nat>) {
    forall i, j | 0 <= i < j < |page| :: page[i] < page[j]
  }

  lemma Prepended(s: nat, rest: seq<nat>)
    requires (forall x | x in rest :: s < x) && Increasing(rest)
    ensures Increasing([s] + rest)
  {
    forall i, j | 0 <= i < j < |[s] + rest|
      ensures ([s] + rest)[i] < ([s] + rest)[j]
    {
      assert rest[j - 1] in rest;
    }
  }

  lemma {:induction false} PageIncreases(m: Mailbox, cursor: int, limit: nat)
    ensures forall s | s in Page(m, cursor, limit) :: s > cursor
    ensures Increasing(Page(m, cursor, limit))
    decreases limit
  {
    var from := if cursor < 0 then 0 else cursor + 1;
    if limit > 0 && from <= m.next {
      var s := FirstFrom(m, from);
      PageIncreases(m, s, limit - 1);
      if s <= m.next {
        Prepended(s, Page(m, s, limit - 1));
      }
    }
  }

  /** One answer: the gap, if any, before every sequence, and the sequences increasing. */
  lemma AnswerInOrder(m: Mailbox, c: Cursor)
    ensures Sequenced(Answer(m, c)) && forall f | f in Answer(m, c) :: f.group == c.group
  {
    hide Oldest, Page, Announcements;
    var page := Page(m, c.sequence, PAGE);
    PageIncreases(m, c.sequence, PAGE);
    var gap := if ReportsGap(c.sequence, Oldest(m)) then [Gap(c.group, Oldest(m))] else [];
    var all := gap + Announcements(c.group, page);
    assert Answer(m, c) == all;
    forall i, j | 0 <= i < j < |all|
      ensures MayPrecede(all[i], all[j])
    {
      assert all[j] == Announced(c.group, page[j - |gap|]);
      if i >= |gap| { assert all[i] == Announced(c.group, page[i - |gap|]); }
    }
  }

  lemma SequencedJoins(a: seq<Frame>, b: seq<Frame>)
    requires Sequenced(a) && Sequenced(b) && forall f, g | f in a && g in b :: f.group != g.group
    ensures Sequenced(a + b)
  {
    forall i, j | 0 <= i < j < |a + b|
      ensures MayPrecede((a + b)[i], (a + b)[j])
    {
      if i < |a| && |a| <= j { assert a[i] in a && b[j - |a|] in b; }
    }
  }

  lemma {:induction false} RepliesInOrder(groups: map<GroupId, Mailbox>, queries: seq<Query>)
    requires forall q | q in queries :: q.id in groups
    requires forall i, j | 0 <= i < j < |queries| :: queries[i].cursor.group != queries[j].cursor.group
    ensures Sequenced(Replies(groups, queries))
    ensures forall f | f in Replies(groups, queries) :: exists q :: q in queries && q.cursor.group == f.group
  {
    hide Answer, Sequenced;
    if queries == [] {
      NothingSequenced();
    } else {
      var before, last := queries[..|queries| - 1], queries[|queries| - 1];
      RepliesInOrder(groups, before);
      AnswerInOrder(groups[last.id], last.cursor);
      assert queries == before + [last];
      forall f, g | f in Replies(groups, before) && g in Answer(groups[last.id], last.cursor)
        ensures f.group != g.group
      {
        var q :| q in before && q.cursor.group == f.group;
        var i :| 0 <= i < |before| && before[i] == q;
        assert queries[i] == q && g.group == last.cursor.group;
      }
      SequencedJoins(Replies(groups, before), Answer(groups[last.id], last.cursor));
      forall f | f in Replies(groups, queries)
        ensures exists q :: q in queries && q.cursor.group == f.group
      {
        if f in Replies(groups, before) {
          var q :| q in before && q.cursor.group == f.group;
          assert q in queries;
        } else {
          assert last in queries && f.group == last.cursor.group;
        }
      }
    }
  }

  lemma NothingSequenced()
    ensures Sequenced([])
  {
  }

  /** Over a whole catch-up: under each spelling the gap, if there is one, comes once and before every sequence, and the
      sequences increase, none of them twice. */
  lemma CatchUpInOrder(groups: map<GroupId, Mailbox>, mine: set<GroupId>, cursors: seq<Cursor>)
    requires forall g | g in mine :: g in groups
    ensures Sequenced(Replies(groups, Queries(mine, cursors)))
  {
    hide Sequenced;
    var q := Queries(mine, cursors);
    forall i, j | 0 <= i < j < |q|
      ensures q[i].cursor.group != q[j].cursor.group
    {
      QueriesAreSpelledApart(mine, cursors, i, j);
    }
    RepliesInOrder(groups, q);
  }

  /** The cursor is the first to spell its group so, and names a group of the caller. */
  predicate Heard(mine: set<GroupId>, cursors: seq<Cursor>, i: nat, q: Query)
    requires i < |cursors|
  {
    && cursors[i] == q.cursor && HexDecode(cursors[i].group) == Some(q.id) && q.id in mine
    && forall j | 0 <= j < i :: cursors[j].group != cursors[i].group
  }

  /** Queried is the first cursor of each spelling that names a group of the caller, and no other. */
  lemma {:induction false} QueriesExact(mine: set<GroupId>, cursors: seq<Cursor>, q: Query)
    ensures q in Queries(mine, cursors) <==> exists i: nat :: i < |cursors| && Heard(mine, cursors, i, q)
  {
    hide HexDecode;
    if cursors != [] {
      var n := |cursors| - 1;
      QueriesExact(mine, cursors[..n], q);
      forall i: nat | i < n
        ensures Heard(mine, cursors, i, q) <==> Heard(mine, cursors[..n], i, q)
      {
        assert forall j | 0 <= j <= i :: cursors[..n][j] == cursors[j];
      }
      assert cursors[n].group in Spellings(cursors[..n]) <==>
               exists j :: 0 <= j < n && cursors[..n][j].group == cursors[n].group;
      if q in Queries(mine, cursors) && q !in Queries(mine, cursors[..n]) {
        assert Heard(mine, cursors, n, q);
      }
      if i: nat :| i < n && Heard(mine, cursors[..n], i, q) {
        assert Heard(mine, cursors, i, q);
      }
      if i: nat :| i < |cursors| && Heard(mine, cursors, i, q) {
        if i < n { assert Heard(mine, cursors[..n], i, q); }
      }
    }
  }

  /** Everything a query is answered is sent, and nothing else. */
  lemma {:induction false} RepliesExact(groups: map<GroupId, Mailbox>, queries: seq<Query>, f: Frame)
    requires forall q | q in queries :: q.id in groups
    ensures f in Replies(groups, queries) <==> exists q :: q in queries && f in Answer(groups[q.id], q.cursor)
  {
    hide Answer;
    if queries != [] {
      var before, last := queries[..|queries| - 1], queries[|queries| - 1];
      RepliesExact(groups, before, f);
      assert queries == before + [last];
    }
  }

  // ------------------------------------------------------------------ the session

  /** One answer, frame by frame. */
  method Announce(m: Mailbox, c: Cursor) returns (sent: seq<Frame>)
    ensures sent == Answer(m, c)
  {
    var oldest := Oldest(m);
    var gap := if ReportsGap(c.sequence, oldest) then [Gap(c.group, oldest)] else [];
    var frames := AnnounceAll(c.group, Page(m, c.sequence, PAGE));
    sent := gap + frames;
  }

  method AnnounceAll(group: string, page: seq<nat>) returns (sent: seq<Frame>)
    ensures sent == Announcements(group, page)
  {
    sent := [];
    for j := 0 to |page|
      invariant sent == Announcements(group, page[..j])
    {
      assert page[..j + 1][..j] == page[..j];
      sent := sent + [Announced(group, page[j])];
    }
    assert page[..|page|] == page;
  }

  /** `resume`: excess cursors and repeated spellings are ignored. */
  method Resume(groups: map<GroupId, Mailbox>, mine: set<GroupId>, cursors: seq<Cursor>) returns (sent: seq<Frame>)
    requires forall g | g in mine :: g in groups
    ensures sent == Replies(groups, Queries(mine, Taken(cursors)))
    ensures Sequenced(sent)
  {
    hide Sequenced, Answer, HexDecode;
    var taken := Taken(cursors);
    var seen: set<string> := {};
    sent := [];
    for i := 0 to |taken|
      invariant seen == Spellings(taken[..i])
      invariant sent == Replies(groups, Queries(mine, taken[..i]))
    {
      var c := taken[i];
      assert taken[..i + 1][..i] == taken[..i];
      SpellingsGrow(taken, i);
      if c.group in seen {
        continue;
      }
      seen := seen + {c.group};
      var id := HexDecode(c.group);
      if id.None? || id.value !in mine {
        continue;
      }
      var frames := Announce(groups[id.value], c);
      RepliesGrow(groups, Queries(mine, taken[..i]), Query(id.value, c));
      sent := sent + frames;
    }
    assert taken[..|taken|] == taken;
    CatchUpInOrder(groups, mine, taken);
  }

  lemma RepliesGrow(groups: map<GroupId, Mailbox>, queries: seq<Query>, q: Query)
    requires (forall x | x in queries :: x.id in groups) && q.id in groups
    ensures Replies(groups, queries + [q]) == Replies(groups, queries) + Answer(groups[q.id], q.cursor)
  {
    assert (queries + [q])[..|queries|] == queries;
  }
}

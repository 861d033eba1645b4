/** The roster of an administered group and its strict byte form. */
module Roster {
  import opened Prelude

  datatype Rule =
    | NeedsAdmin | OnlyAdminChangesRoles | LifetimeNeedsRole | AddNeedsRole | RemovalNeedsRole
    | OnlyAdminRemovesModerator | WouldLoseAdmin | UnknownMember | ForeignExtensions | LifetimeLength

  datatype Defect = TooManyModerators | HandleTooLong | TrailingBytes | Truncated | NotUtf8

  datatype CryptoError = PolicyViolation(rule: Rule) | Malformed(defect: Defect)

  // ------------------------------------------------------------------ handles

  predicate Continuation(b: Byte) { 0x80 <= b < 0xC0 }

  /** Length of the UTF-8 sequence that opens `b`, zero when none does (section 4 of RFC 3629). */
  function SequenceLength(b: Bytes): (n: nat)
    ensures n <= |b|
  {
    if b == [] then 0
    else if b[0] < 0x80 then 1
    else if |b| < 2 || b[0] < 0xC2 then 0
    else if b[0] < 0xE0 then (if Continuation(b[1]) then 2 else 0)
    else if |b| < 3 || !Continuation(b[2]) then 0
    else if b[0] < 0xF0 then
      var low, high := if b[0] == 0xE0 then 0xA0 else 0x80, if b[0] == 0xED then 0x9F else 0xBF;
      if low <= b[1] <= high then 3 else 0
    else if |b| < 4 || !Continuation(b[3]) || b[0] > 0xF4 then 0
    else
      var low, high := if b[0] == 0xF0 then 0x90 else 0x80, if b[0] == 0xF4 then 0x8F else 0xBF;
      if low <= b[1] <= high then 4 else 0
  }

  /** `str::from_utf8` succeeds. */
  predicate ValidUtf8(b: Bytes) {
    b == [] || (SequenceLength(b) > 0 && ValidUtf8(b[SequenceLength(b)..]))
  }

  /** A Rust `String`: bytes that are valid UTF-8. */
  type Handle = b: Bytes | ValidUtf8(b)

  // ------------------------------------------------------------------ rosters

  datatype Roster = Roster(admin: Handle, moderators: seq<Handle>) {
    predicate IsAdmin(h: Handle) { admin == h }

    predicate IsModerator(h: Handle) { h in moderators }

    predicate CanModerate(h: Handle) { IsAdmin(h) || IsModerator(h) }
  }

  /** What `new` establishes and the private fields keep: an admin, not listed again among the moderators. */
  predicate Canonical(r: Roster) {
    r.admin != [] && r.admin !in r.moderators
  }

  function Without(handles: seq<Handle>, h: Handle): (r: seq<Handle>)
    ensures h !in handles ==> r == handles
    ensures h in handles ==> |r| < |handles|
    ensures forall x :: x in r <==> x in handles && x != h
    ensures |r| <= |handles|
  {
    if handles == [] then []
    else if handles[0] == h then Without(handles[1..], h)
    else [handles[0]] + Without(handles[1..], h)
  }

  function New(admin: Handle, moderators: seq<Handle>): (r: Result<Roster, CryptoError>)
    ensures r.Ok? <==> admin != []
    ensures r.Ok? ==> Canonical(r.value)
  {
    if admin == [] then Err(PolicyViolation(NeedsAdmin)) else Ok(Roster(admin, Without(moderators, admin)))
  }

  /** Dropping the admin from the list drops nothing else and moves nothing. */
  lemma {:induction false} WithoutIsAFilter(a: seq<Handle>, b: seq<Handle>, h: Handle)
    ensures Without(a + b, h) == Without(a, h) + Without(b, h)
    ensures forall x: Handle :: Without([x], h) == if x == h then [] else [x]
  {
    if a == [] {
      assert a + b == b;
    } else {
      assert (a + b)[1..] == a[1..] + b;
      WithoutIsAFilter(a[1..], b, h);
    }
  }

  // ------------------------------------------------------------------ byte form

  predicate Fits(h: Handle) { |h| <= U16_MAX }

  function StringBytes(h: Handle): Bytes {
    U16Be(|h|) + h
  }

  function StringsBytes(hs: seq<Handle>): Bytes {
    if hs == [] then [] else StringBytes(hs[0]) + StringsBytes(hs[1..])
  }

  /** `u16 len, admin, u16 count, count times (u16 len, moderator)`. */
  function Layout(admin: Handle, moderators: seq<Handle>): Bytes {
    StringBytes(admin) + U16Be(|moderators|) + StringsBytes(moderators)
  }

  predicate Encodable(admin: Handle, moderators: seq<Handle>) {
    Fits(admin) && |moderators| <= U16_MAX && forall m | m in moderators :: Fits(m)
  }

  function Encoded(r: Roster): Result<Bytes, CryptoError> {
    if !Fits(r.admin) then Err(Malformed(HandleTooLong))
    else if |r.moderators| > U16_MAX then Err(Malformed(TooManyModerators))
    else if exists m | m in r.moderators :: !Fits(m) then Err(Malformed(HandleTooLong))
    else Ok(Layout(r.admin, r.moderators))
  }

  function TakeString(b: Bytes, cursor: nat): Result<(Handle, nat), CryptoError> {
    if cursor + 2 > |b| then Err(Malformed(Truncated))
    else
      var end := cursor + 2 + U16From(b[cursor..cursor + 2]);
      if end > |b| then Err(Malformed(Truncated))
      else if !ValidUtf8(b[cursor + 2..end]) then Err(Malformed(NotUtf8))
      else Ok((b[cursor + 2..end], end))
  }

  function TakeStrings(b: Bytes, cursor: nat, count: nat): Result<(seq<Handle>, nat), CryptoError>
    decreases count
  {
    if count == 0 then Ok(([], cursor))
    else
      match TakeString(b, cursor)
      case Err(e) => Err(e)
      case Ok(first) =>
        match TakeStrings(b, first.1, count - 1)
        case Err(e) => Err(e)
        case Ok(rest) => Ok(([first.0] + rest.0, rest.1))
  }

  /** What the bytes list, before `new` has its say. */
  function Listed(b: Bytes): Result<(Handle, seq<Handle>), CryptoError> {
    match TakeString(b, 0)
    case Err(e) => Err(e)
    case Ok(admin) =>
      if admin.1 + 2 > |b| then Err(Malformed(Truncated))
      else
        match TakeStrings(b, admin.1 + 2, U16From(b[admin.1..admin.1 + 2]))
        case Err(e) => Err(e)
        case Ok(moderators) =>
          if moderators.1 != |b| then Err(Malformed(TrailingBytes)) else Ok((admin.0, moderators.0))
  }

  function Decoded(b: Bytes): Result<Roster, CryptoError> {
    match Listed(b)
    case Err(e) => Err(e)
    case Ok(listed) => New(listed.0, listed.1)
  }

  // ------------------------------------------------------------------ the two loops

  method PushString(out: Bytes, value: Handle) returns (r: Result<Bytes, CryptoError>)
    ensures r == if Fits(value) then Ok(out + StringBytes(value)) else Err(Malformed(HandleTooLong))
  {
    if |value| > U16_MAX {
      return Err(Malformed(HandleTooLong));
    }
    assert out + U16Be(|value|) + value == out + StringBytes(value);
    return Ok(out + U16Be(|value|) + value);
  }

  lemma {:induction false} StringsBytesSnoc(hs: seq<Handle>, h: Handle)
    ensures StringsBytes(hs + [h]) == StringsBytes(hs) + StringBytes(h)
  {
    hide StringBytes;
    if hs == [] {
      assert hs + [h] == [h];
    } else {
      StringsBytesSnoc(hs[1..], h);
      assert (hs + [h])[1..] == hs[1..] + [h];
    }
  }

  method Encode(roster: Roster) returns (r: Result<Bytes, CryptoError>)
    ensures r == Encoded(roster)
  {
    var pushed := PushString([], roster.admin);
    if pushed.Err? {
      return pushed;
    }
    if |roster.moderators| > U16_MAX {
      return Err(Malformed(TooManyModerators));
    }
    var out := pushed.value + U16Be(|roster.moderators|);
    ghost var header := out;
    assert header == StringBytes(roster.admin) + U16Be(|roster.moderators|);
    for i := 0 to |roster.moderators|
      invariant out == header + StringsBytes(roster.moderators[..i])
      invariant forall j | 0 <= j < i :: Fits(roster.moderators[j])
    {
      pushed := PushString(out, roster.moderators[i]);
      if pushed.Err? {
        return pushed;
      }
      StringsBytesSnoc(roster.moderators[..i], roster.moderators[i]);
      assert roster.moderators[..i + 1] == roster.moderators[..i] + [roster.moderators[i]];
      out := pushed.value;
    }
    assert roster.moderators[..|roster.moderators|] == roster.moderators;
    return Ok(out);
  }

  lemma {:induction false} TakeStringsSnoc(b: Bytes, cursor: nat, count: nat)
    ensures TakeStrings(b, cursor, count + 1)
         == match TakeStrings(b, cursor, count)
            case Err(e) => Err(e)
            case Ok(some) =>
              match TakeString(b, some.1)
              case Err(e) => Err(e)
              case Ok(last) => Ok((some.0 + [last.0], last.1))
    decreases count
  {
    if count == 0 {
      if TakeString(b, cursor).Ok? {
        var first := TakeString(b, cursor).value;
        assert TakeStrings(b, first.1, 0) == Ok(([], first.1));
        assert [first.0] + [] == [] + [first.0];
      }
    } else if TakeString(b, cursor).Ok? {
      var first := TakeString(b, cursor).value;
      TakeStringsSnoc(b, first.1, count - 1);
      if TakeStrings(b, first.1, count - 1).Ok? {
        var some := TakeStrings(b, first.1, count - 1).value;
        if TakeString(b, some.1).Ok? {
          Append([first.0], some.0, [TakeString(b, some.1).value.0]);
        }
      }
    }
  }

  lemma {:induction false} TakeStringsFails(b: Bytes, cursor: nat, i: nat, count: nat)
    requires i <= count && TakeStrings(b, cursor, i).Err?
    ensures TakeStrings(b, cursor, count) == TakeStrings(b, cursor, i)
    decreases count
  {
    if i < count {
      TakeStringsFails(b, cursor, i, count - 1);
      TakeStringsSnoc(b, cursor, count - 1);
    }
  }

  method Decode(bytes: Bytes) returns (r: Result<Roster, CryptoError>)
    ensures r == Decoded(bytes)
  {
    var cursor: nat := 0;
    var admin := TakeString(bytes, cursor);
    if admin.Err? {
      return Err(admin.error);
    }
    cursor := admin.value.1;
    if cursor + 2 > |bytes| {
      return Err(Malformed(Truncated));
    }
    var count := U16From(bytes[cursor..cursor + 2]);
    cursor := cursor + 2;

    var moderators: seq<Handle> := [];
    ghost var start := cursor;
    for i := 0 to count
      invariant TakeStrings(bytes, start, i) == Ok((moderators, cursor))
    {
      var next := TakeString(bytes, cursor);
      TakeStringsSnoc(bytes, start, i);
      if next.Err? {
        TakeStringsFails(bytes, start, i + 1, count);
        return Err(next.error);
      }
      moderators, cursor := moderators + [next.value.0], next.value.1;
    }
    if cursor != |bytes| {
      return Err(Malformed(TrailingBytes));
    }
    return New(admin.value.0, moderators);
  }

  // ------------------------------------------------------------------ one roster, one encoding

  lemma TakeStringExact(b: Bytes, cursor: nat, h: Handle, end: nat)
    ensures TakeString(b, cursor) == Ok((h, end))
       <==> cursor + 2 + |h| == end <= |b| && b[cursor..end] == StringBytes(h) && Fits(h)
  {
    if cursor + 2 <= |b| {
      var prefix := b[cursor..cursor + 2];
      U16Inverse(prefix);
      if cursor + 2 + |h| == end <= |b| {
        assert b[cursor..end] == prefix + b[cursor + 2..end];
        if b[cursor..end] == StringBytes(h) && Fits(h) {
          SplitConcat(prefix, b[cursor + 2..end], U16Be(|h|), h);
          U16RoundTrip(|h|);
        }
      }
    }
  }

  lemma {:induction false} TakeStringsExact(b: Bytes, cursor: nat, hs: seq<Handle>, end: nat)
    ensures TakeStrings(b, cursor, |hs|) == Ok((hs, end))
       <==> (if hs == [] then end == cursor
             else cursor <= end <= |b| && b[cursor..end] == StringsBytes(hs) && forall h | h in hs :: Fits(h))
    decreases |hs|
  {
    if hs != [] {
      var next := cursor + 2 + |hs[0]|;
      TakeStringExact(b, cursor, hs[0], next);
      TakeStringsExact(b, next, hs[1..], end);
      assert hs == [hs[0]] + hs[1..];
      if next <= end <= |b| {
        assert b[cursor..end] == b[cursor..next] + b[next..end];
        if b[cursor..end] == StringsBytes(hs) {
          SplitConcat(b[cursor..next], b[next..end], StringBytes(hs[0]), StringsBytes(hs[1..]));
        }
      }
    }
  }

  lemma ListedIsLaidOut(b: Bytes)
    requires Listed(b).Ok?
    ensures b == Layout(Listed(b).value.0, Listed(b).value.1) && Encodable(Listed(b).value.0, Listed(b).value.1)
  {
    var (admin, k) := TakeString(b, 0).value;
    var count := b[k..k + 2];
    var moderators := TakeStrings(b, k + 2, U16From(count)).value.0;
    TakeStringsLength(b, k + 2, U16From(count));
    assert b[0..k] == StringBytes(admin) && Fits(admin) by { TakeStringExact(b, 0, admin, k); }
    TakeStringsExact(b, k + 2, moderators, |b|);
    assert count == U16Be(|moderators|) && |moderators| <= U16_MAX by { U16Inverse(count); }
    Slices(b, 0, k, k + 2);
    Slices(b, 0, k + 2, |b|);
  }

  lemma {:induction false} TakeStringsLength(b: Bytes, cursor: nat, count: nat)
    requires TakeStrings(b, cursor, count).Ok?
    ensures |TakeStrings(b, cursor, count).value.0| == count
    decreases count
  {
    if count > 0 { TakeStringsLength(b, TakeString(b, cursor).value.1, count - 1); }
  }

  lemma LaidOutIsListed(admin: Handle, moderators: seq<Handle>)
    requires Encodable(admin, moderators)
    ensures Listed(Layout(admin, moderators)) == Ok((admin, moderators))
  {
    var b, k, n := Layout(admin, moderators), 2 + |admin|, |moderators|;
    assert b[0..k] == StringBytes(admin) && b[k..k + 2] == U16Be(n) && b[k + 2..|b|] == StringsBytes(moderators);
    TakeStringExact(b, 0, admin, k);
    TakeStringsExact(b, k + 2, moderators, |b|);
    U16RoundTrip(n);
  }

  /** The strict reader inverts the layout: nothing else is read, and nothing laid out is refused. */
  lemma ListedExact(b: Bytes, admin: Handle, moderators: seq<Handle>)
    ensures Listed(b) == Ok((admin, moderators)) <==> b == Layout(admin, moderators) && Encodable(admin, moderators)
  {
    if Listed(b).Ok? { ListedIsLaidOut(b); }
    if Encodable(admin, moderators) { LaidOutIsListed(admin, moderators); }
  }

  lemma RosterRoundTrip(r: Roster)
    requires Canonical(r) && Encoded(r).Ok?
    ensures Decoded(Encoded(r).value) == Ok(r)
  {
    ListedExact(Encoded(r).value, r.admin, r.moderators);
  }

  /** What is read encodes back to the same bytes exactly when they did not list the admin as a moderator: that
      one redundancy is the only way two byte strings stand for one roster. */
  lemma DecodedIsCanonical(b: Bytes)
    requires Decoded(b).Ok?
    ensures Canonical(Decoded(b).value) && Encoded(Decoded(b).value).Ok?
    ensures Encoded(Decoded(b).value) == Ok(b) <==> Listed(b).value.0 !in Listed(b).value.1
    ensures Decoded(b).value == Roster(Listed(b).value.0, Without(Listed(b).value.1, Listed(b).value.0))
  {
    var (admin, moderators) := Listed(b).value;
    ListedExact(b, admin, moderators);
    var r := Decoded(b).value;
    if Encoded(r) == Ok(b) { ListedExact(b, r.admin, r.moderators); }
  }
}

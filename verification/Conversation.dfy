/** The group policy as clients apply it: the extension set they build, the gate an incoming commit passes, and
    what every run of accepted commits keeps. The MLS tree itself is given: members, proposals, committer. */
module Conversation {
  import opened Prelude
  import opened Roster
  import opened Policy

  const ROSTER_EXTENSION: nat := 0xF100
  const LIFETIME_EXTENSION: nat := 0xF101
  const DEFAULT_SECONDS: nat := 7 * 24 * 60 * 60

  // ------------------------------------------------------------------ lifetime

  /** Seconds a message lives, `0` for ever, as a `u32`. */
  type Lifetime = s: nat | s <= U32_MAX

  function LifetimeBytes(lifetime: Lifetime): Bytes {
    BigEndian(lifetime, 4)
  }

  function LifetimeDecoded(b: Bytes): Result<Lifetime, CryptoError> {
    if |b| != 4 then Err(PolicyViolation(LifetimeLength))
    else
      BigEndianInverse(b);
      assert Pow256(4) == U32_MAX + 1;
      Ok(FromBigEndian(b))
  }

  lemma LifetimeRoundTrip(lifetime: Lifetime, b: Bytes)
    ensures LifetimeDecoded(b) == Ok(lifetime) <==> b == LifetimeBytes(lifetime)
  {
    assert Pow256(4) == U32_MAX + 1;
    BigEndianRoundTrip(lifetime, 4);
    BigEndianInverse(b);
  }

  // ------------------------------------------------------------------ the extension set

  datatype Extension =
    | RequiredCapabilities(extensions: seq<nat>, proposals: seq<nat>, credentials: seq<nat>)
    | Unknown(kind: nat, data: Bytes)
    | Standard(kind: nat, data: Bytes)

  type Extensions = seq<Extension>

  /** `Extensions::unknown`. */
  function UnknownOf(extensions: Extensions, kind: nat): Option<Bytes> {
    if extensions == [] then None
    else if extensions[0].Unknown? && extensions[0].kind == kind then Some(extensions[0].data)
    else UnknownOf(extensions[1..], kind)
  }

  /** Of two extensions of one kind the first counts. */
  lemma {:induction false} UnknownIsTheFirst(extensions: Extensions, kind: nat, data: Bytes)
    ensures UnknownOf(extensions, kind) == Some(data) <==>
              exists i: nat :: i < |extensions| && extensions[i] == Unknown(kind, data)
                && forall j | 0 <= j < i :: !(extensions[j].Unknown? && extensions[j].kind == kind)
  {
    if extensions != [] {
      var rest := extensions[1..];
      UnknownIsTheFirst(rest, kind, data);
      if !(extensions[0].Unknown? && extensions[0].kind == kind) {
        if i: nat :| i < |rest| && rest[i] == Unknown(kind, data)
                     && forall j | 0 <= j < i :: !(rest[j].Unknown? && rest[j].kind == kind) {
          assert extensions[i + 1] == rest[i];
          assert forall j | 0 < j < i + 1 :: extensions[j] == rest[j - 1];
        }
        if i: nat :| i < |extensions| && extensions[i] == Unknown(kind, data)
                     && forall j | 0 <= j < i :: !(extensions[j].Unknown? && extensions[j].kind == kind) {
          assert rest[i - 1] == extensions[i];
          assert forall j | 0 <= j < i - 1 :: rest[j] == extensions[j + 1];
        }
      }
    }
  }

  /** `context_extensions`: the whole set, from every policy the group carries. */
  function ContextExtensions(roster: Option<Roster>, lifetime: Option<Lifetime>): Result<Extensions, CryptoError> {
    if roster.Some? && Encoded(roster.value).Err? then Err(Encoded(roster.value).error)
    else
      var types := (if roster.Some? then [ROSTER_EXTENSION] else [])
                   + (if lifetime.Some? then [LIFETIME_EXTENSION] else []);
      Ok([RequiredCapabilities(types, [], [])]
         + (if roster.Some? then [Unknown(ROSTER_EXTENSION, Encoded(roster.value).value)] else [])
         + (if lifetime.Some? then [Unknown(LIFETIME_EXTENSION, LifetimeBytes(lifetime.value))] else []))
  }

  function RosterIn(extensions: Extensions): Result<Option<Roster>, CryptoError> {
    match UnknownOf(extensions, ROSTER_EXTENSION)
    case None => Ok(None)
    case Some(raw) => match Decoded(raw) case Err(e) => Err(e) case Ok(r) => Ok(Some(r))
  }

  function LifetimeIn(extensions: Extensions): Result<Option<Lifetime>, CryptoError> {
    match UnknownOf(extensions, LIFETIME_EXTENSION)
    case None => Ok(None)
    case Some(raw) => match LifetimeDecoded(raw) case Err(e) => Err(e) case Ok(l) => Ok(Some(l))
  }

  /** The set an honest client builds for a roster that `new` can produce. */
  ghost predicate Honest(extensions: Extensions, roster: Option<Roster>, lifetime: Option<Lifetime>) {
    && (roster.Some? ==> Canonical(roster.value))
    && ContextExtensions(roster, lifetime) == Ok(extensions)
  }

  /** What an honest set carries is what it was built from. */
  lemma HonestReads(extensions: Extensions, roster: Option<Roster>, lifetime: Option<Lifetime>)
    requires Honest(extensions, roster, lifetime)
    ensures RosterIn(extensions) == Ok(roster) && LifetimeIn(extensions) == Ok(lifetime)
  {
    if roster.Some? { RosterRoundTrip(roster.value); }
    if lifetime.Some? { LifetimeRoundTrip(lifetime.value, LifetimeBytes(lifetime.value)); }
    var tail := extensions[1..];
    assert UnknownOf(extensions, ROSTER_EXTENSION) == UnknownOf(tail, ROSTER_EXTENSION);
    assert UnknownOf(extensions, LIFETIME_EXTENSION) == UnknownOf(tail, LIFETIME_EXTENSION);
    if roster.Some? {
      assert tail[0] == Unknown(ROSTER_EXTENSION, Encoded(roster.value).value);
      assert UnknownOf(tail, LIFETIME_EXTENSION) == UnknownOf(tail[1..], LIFETIME_EXTENSION);
    }
  }

  /** The gate: the proposed set equals what this client would have built from what it reads in it. */
  function Gate(extensions: Extensions): Result<(Option<Roster>, Option<Lifetime>), CryptoError> {
    match RosterIn(extensions)
    case Err(e) => Err(e)
    case Ok(roster) =>
      match LifetimeIn(extensions)
      case Err(e) => Err(e)
      case Ok(lifetime) =>
        match ContextExtensions(roster, lifetime)
        case Err(e) => Err(e)
        case Ok(expected) =>
          if extensions == expected then Ok((roster, lifetime)) else Err(PolicyViolation(ForeignExtensions))
  }

  /** The gate opens for the sets of `context_extensions` and for nothing else. */
  lemma GateExact(extensions: Extensions, roster: Option<Roster>, lifetime: Option<Lifetime>)
    ensures Gate(extensions) == Ok((roster, lifetime)) <==> Honest(extensions, roster, lifetime)
  {
    if Gate(extensions) == Ok((roster, lifetime)) {
      if roster.Some? { DecodedIsCanonical(UnknownOf(extensions, ROSTER_EXTENSION).value); }
    }
    if Honest(extensions, roster, lifetime) { HonestReads(extensions, roster, lifetime); }
  }

  /** Every context the gate lets through opens with required capabilities that name the policies it carries, all of
      them and nothing else: a client that cannot read one of them cannot join. */
  lemma CapabilitiesCoverPolicies(extensions: Extensions)
    requires Gate(extensions).Ok?
    ensures extensions != [] && extensions[0].RequiredCapabilities?
    ensures |extensions[0].extensions| == |extensions| - 1
    ensures forall i | 1 <= i < |extensions| ::
              && extensions[i].Unknown? && extensions[i].kind == extensions[0].extensions[i - 1]
              && extensions[i].kind in {ROSTER_EXTENSION, LIFETIME_EXTENSION}
    ensures forall i, j | 1 <= i < j < |extensions| :: extensions[i].kind != extensions[j].kind
  {
    var (roster, lifetime) := Gate(extensions).value;
    GateExact(extensions, roster, lifetime);
  }

  /** A roster that lists its admin among the moderators reads as a roster and never passes the gate. */
  lemma RedundantRosterRefused(extensions: Extensions, raw: Bytes)
    requires UnknownOf(extensions, ROSTER_EXTENSION) == Some(raw)
    requires Listed(raw).Ok? && Listed(raw).value.0 in Listed(raw).value.1
    ensures Gate(extensions).Err?
  {
    if Decoded(raw).Ok? {
      DecodedIsCanonical(raw);
      var r := Decoded(raw).value;
      if Gate(extensions).Ok? {
        var lifetime := LifetimeIn(extensions).value;
        GateExact(extensions, Some(r), lifetime);
      }
    }
  }

  // ------------------------------------------------------------------ commits

  datatype Member = Member(index: nat, handle: Handle, key: Bytes)

  datatype Group = Group(members: seq<Member>, extensions: Extensions)

  datatype Sender = FromMember(index: nat) | FromOutside

  datatype Proposal =
    | Remove(index: nat, sender: Sender)
    | Add(member: Member)
    | Context(extensions: Extensions)
    | Other

  function MemberAt(members: seq<Member>, index: nat): (m: Option<Member>)
    ensures m.Some? ==> m.value in members && m.value.index == index
    ensures m.None? ==> forall x | x in members :: x.index != index
  {
    if members == [] then None
    else if members[0].index == index then Some(members[0])
    else MemberAt(members[1..], index)
  }

  /** The removals a commit proposes, as the policy sees them. */
  function Removals(members: seq<Member>, proposals: seq<Proposal>): Result<seq<Removal>, CryptoError> {
    if proposals == [] then Ok([])
    else
      match Removals(members, proposals[..|proposals| - 1])
      case Err(e) => Err(e)
      case Ok(rest) =>
        match proposals[|proposals| - 1]
        case Remove(index, sender) =>
          (match MemberAt(members, index)
           case None => Err(PolicyViolation(UnknownMember))
           case Some(m) => Ok(rest + [Policy.Removal(m.handle, m.key, sender == FromMember(index))]))
        case _ => Ok(rest)
  }

  function Removed(proposals: seq<Proposal>): seq<nat> {
    if proposals == [] then []
    else
      var last := proposals[|proposals| - 1];
      Removed(proposals[..|proposals| - 1]) + (if last.Remove? then [last.index] else [])
  }

  function Staying(members: seq<Member>, removed: seq<nat>): seq<Member> {
    if members == [] then []
    else
      var last := members[|members| - 1];
      Staying(members[..|members| - 1], removed) + (if last.index in removed then [] else [last])
  }

  function Handles(members: seq<Member>): seq<Handle> {
    seq(|members|, i requires 0 <= i < |members| => members[i].handle)
  }

  function Added(proposals: seq<Proposal>): seq<Member> {
    if proposals == [] then []
    else
      var last := proposals[|proposals| - 1];
      Added(proposals[..|proposals| - 1]) + (if last.Add? then [last.member] else [])
  }

  /** The first proposed context. */
  function Proposed(proposals: seq<Proposal>): Option<Extensions> {
    if proposals == [] then None
    else if proposals[0].Context? then Some(proposals[0].extensions)
    else Proposed(proposals[1..])
  }

  /** Of two contexts in one commit the first counts, for the gate and for the merge. */
  lemma {:induction false} ProposedIsTheFirst(proposals: seq<Proposal>, x: Extensions)
    ensures Proposed(proposals) == Some(x) <==>
              exists i: nat :: i < |proposals| && proposals[i] == Proposal.Context(x)
                && forall j | 0 <= j < i :: !proposals[j].Context?
  {
    if proposals != [] && !proposals[0].Context? {
      var rest := proposals[1..];
      ProposedIsTheFirst(rest, x);
      if i: nat :| i < |rest| && rest[i] == Proposal.Context(x) && forall j | 0 <= j < i :: !rest[j].Context? {
        assert proposals[i + 1] == rest[i];
        assert forall j | 0 < j < i + 1 :: proposals[j] == rest[j - 1];
      }
      if i: nat :| i < |proposals| && proposals[i] == Proposal.Context(x)
                   && forall j | 0 <= j < i :: !proposals[j].Context? {
        assert rest[i - 1] == proposals[i];
        assert forall j | 0 <= j < i - 1 :: rest[j] == proposals[j + 1];
      }
    }
  }

  /** Which policies a commit changes; an error when its context is one this client would not have built. */
  function Changes(g: Group, roster: Roster, proposals: seq<Proposal>): Result<(bool, bool), CryptoError> {
    match Proposed(proposals)
    case None => Ok((false, false))
    case Some(extensions) =>
      match Gate(extensions)
      case Err(e) => Err(e)
      case Ok(read) =>
        match LifetimeIn(g.extensions)
        case Err(e) => Err(e)
        case Ok(lifetime) => Ok((read.0 != Some(roster), read.1 != lifetime))
  }

  /** `authorize_commit`. */
  function Verdict(g: Group, committer: Handle, proposals: seq<Proposal>, context: Policy.Context)
    : Result<(), CryptoError>
  {
    match RosterIn(g.extensions)
    case Err(e) => Err(e)
    case Ok(None) => Ok(())
    case Ok(Some(roster)) =>
      match Removals(g.members, proposals)
      case Err(e) => Err(e)
      case Ok(removals) =>
        match Changes(g, roster, proposals)
        case Err(e) => Err(e)
        case Ok(changes) =>
          var remaining := Handles(Staying(g.members, Removed(proposals)));
          Authorize(Some(roster),
                    CommitSummary(committer, removals, |Added(proposals)|, changes.0, changes.1, remaining),
                    context)
  }

  /** The group once MLS has merged a commit. */
  function Merged(g: Group, proposals: seq<Proposal>): Group {
    Group(Staying(g.members, Removed(proposals)) + Added(proposals),
          match Proposed(proposals) case None => g.extensions case Some(x) => x)
  }

  function SetLifetimeCommit(g: Group, lifetime: Lifetime): Result<seq<Proposal>, CryptoError> {
    match RosterIn(g.extensions)
    case Err(e) => Err(e)
    case Ok(roster) =>
      match ContextExtensions(roster, Some(lifetime)) case Err(e) => Err(e) case Ok(x) => Ok([Proposal.Context(x)])
  }

  function SetRolesCommit(g: Group, admin: Handle, moderators: seq<Handle>): Result<seq<Proposal>, CryptoError> {
    match New(admin, moderators)
    case Err(e) => Err(e)
    case Ok(roster) =>
      match LifetimeIn(g.extensions)
      case Err(e) => Err(e)
      case Ok(lifetime) =>
        match ContextExtensions(Some(roster), lifetime) case Err(e) => Err(e) case Ok(x) => Ok([Proposal.Context(x)])
  }

  // ------------------------------------------------------------------ the client

  class Conversation {
    var members: seq<Member>
    var extensions: Extensions
    /** The commit this client prepared and has not applied. */
    var pending: Option<seq<Proposal>>

    ghost function View(): Group
      reads this
    {
      Group(members, extensions)
    }

    constructor CreateWith(creator: Member, extensions: Extensions)
      ensures View() == Group([creator], extensions) && pending == None
    {
      this.members, this.extensions, this.pending := [creator], extensions, None;
    }

    constructor Joined(g: Group)
      ensures View() == g && pending == None
    {
      this.members, this.extensions, this.pending := g.members, g.extensions, None;
    }

    /** A flat conversation: a lifetime and no roster. */
    static method Create(creator: Member) returns (c: Conversation)
      ensures fresh(c) && c.View().members == [creator] && c.pending == None
      ensures Honest(c.View().extensions, None, Some(DEFAULT_SECONDS))
    {
      c := new Conversation.CreateWith(creator, ContextExtensions(None, Some(DEFAULT_SECONDS)).value);
    }

    /** An administered group, its admin alone in the roster. */
    static method CreateAdministered(creator: Member, admin: Handle) returns (r: Result<Conversation, CryptoError>)
      ensures r.Ok? <==> admin != [] && Fits(admin)
      ensures r.Err? ==> r.error == if admin == [] then PolicyViolation(NeedsAdmin) else Malformed(HandleTooLong)
      ensures r.Ok? ==> fresh(r.value) && r.value.View().members == [creator] && r.value.pending == None
      ensures r.Ok? ==> Honest(r.value.View().extensions, Some(Roster(admin, [])), Some(DEFAULT_SECONDS))
    {
      var roster := New(admin, []);
      if roster.Err? {
        return Err(roster.error);
      }
      var extensions := ContextExtensions(Some(roster.value), Some(DEFAULT_SECONDS));
      if extensions.Err? {
        return Err(extensions.error);
      }
      var c := new Conversation.CreateWith(creator, extensions.value);
      return Ok(c);
    }

    /** A group entered by a Welcome, once MLS has read it: its context is installed as it came, past no gate. */
    static method Join(staged: Result<Group, CryptoError>) returns (r: Result<Conversation, CryptoError>)
      ensures r.Ok? <==> staged.Ok?
      ensures r.Ok? ==> fresh(r.value) && r.value.View() == staged.value && r.value.pending == None
      ensures r.Err? ==> r.error == staged.error
    {
      if staged.Err? {
        return Err(staged.error);
      }
      var c := new Conversation.Joined(staged.value);
      return Ok(c);
    }

    method SetLifetime(lifetime: Lifetime) returns (r: Result<seq<Proposal>, CryptoError>)
      modifies this`pending
      ensures r == SetLifetimeCommit(View(), lifetime)
      ensures pending == if r.Ok? then Some(r.value) else old(pending)
    {
      r := SetLifetimeCommit(Group(members, extensions), lifetime);
      if r.Ok? {
        pending := Some(r.value);
      }
    }

    method SetRoles(admin: Handle, moderators: seq<Handle>) returns (r: Result<seq<Proposal>, CryptoError>)
      modifies this`pending
      ensures r == SetRolesCommit(View(), admin, moderators)
      ensures pending == if r.Ok? then Some(r.value) else old(pending)
    {
      r := SetRolesCommit(Group(members, extensions), admin, moderators);
      if r.Ok? {
        pending := Some(r.value);
      }
    }

    method ApplyPending()
      modifies this
      ensures pending == None
      ensures View() == if old(pending).Some? then Merged(old(View()), old(pending).value) else old(View())
    {
      if pending.Some? {
        var g := Merged(Group(members, extensions), pending.value);
        members, extensions, pending := g.members, g.extensions, None;
      }
    }

    /** A commit of another member: refused with the group untouched, or merged. */
    method Process(committer: Handle, proposals: seq<Proposal>, context: Policy.Context)
      returns (r: Result<(), CryptoError>)
      modifies this
      ensures r == Verdict(old(View()), committer, proposals, context)
      ensures View() == if r.Ok? then Merged(old(View()), proposals) else old(View())
      ensures pending == if r.Ok? then None else old(pending)
    {
      r := AuthorizeCommit(committer, proposals, context);
      if r.Ok? {
        var g := Merged(Group(members, extensions), proposals);
        members, extensions, pending := g.members, g.extensions, None;
      }
    }

    method AuthorizeCommit(committer: Handle, proposals: seq<Proposal>, context: Policy.Context)
      returns (r: Result<(), CryptoError>)
      ensures r == Verdict(View(), committer, proposals, context)
    {
      var sitting := RosterIn(extensions);
      if sitting.Err? {
        return Err(sitting.error);
      }
      if sitting.value.None? {
        return Ok(());
      }

      var removals: seq<Removal>, removed: seq<nat>, adds: seq<Member> := [], [], [];
      for i := 0 to |proposals|
        invariant Removals(members, proposals[..i]) == Ok(removals)
        invariant removed == Removed(proposals[..i]) && adds == Added(proposals[..i])
      {
        assert proposals[..i + 1][..i] == proposals[..i];
        if proposals[i].Remove? {
          var index := proposals[i].index;
          var found := MemberAt(members, index);
          if found.None? {
            RemovalsFail(members, proposals, i + 1);
            return Err(PolicyViolation(UnknownMember));
          }
          var m, selfRequested := found.value, proposals[i].sender == FromMember(index);
          removals := removals + [Policy.Removal(m.handle, m.key, selfRequested)];
          removed := removed + [index];
        } else if proposals[i].Add? {
          adds := adds + [proposals[i].member];
        }
      }
      assert proposals[..|proposals|] == proposals;

      var remaining: seq<Handle> := [];
      for i := 0 to |members|
        invariant remaining == Handles(Staying(members[..i], removed))
      {
        assert members[..i + 1][..i] == members[..i];
        if members[i].index !in removed {
          remaining := remaining + [members[i].handle];
        }
      }
      assert members[..|members|] == members;

      var changes := Changes(Group(members, extensions), sitting.value.value, proposals);
      if changes.Err? {
        return Err(changes.error);
      }
      return Authorize(sitting.value,
                       CommitSummary(committer, removals, |adds|, changes.value.0, changes.value.1, remaining),
                       context);
    }
  }

  lemma {:induction false} RemovalsFail(members: seq<Member>, proposals: seq<Proposal>, i: nat)
    requires i <= |proposals| && Removals(members, proposals[..i]).Err?
    ensures Removals(members, proposals) == Removals(members, proposals[..i])
    decreases |proposals| - i
  {
    if i < |proposals| {
      assert proposals[..i + 1][..i] == proposals[..i];
      RemovalsFail(members, proposals, i + 1);
    } else {
      assert proposals[..i] == proposals;
    }
  }
}

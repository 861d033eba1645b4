/** What every run of accepted commits keeps, whatever context it started from, and what the two setters do to the
    group context over any sequence of calls. */
module GroupRuns {
  import opened Prelude
  import opened Roster
  import opened Policy
  import opened Conversation

  // ------------------------------------------------------------------ one commit

  /** A commit as a receiver meets it: who sent it, what it proposes, which revocations the receiver has verified. */
  datatype Commit = Commit(committer: Handle, proposals: seq<Proposal>, context: Policy.Context)

  /** Leaf indexes name one leaf each, as the MLS tree guarantees. */
  ghost predicate Distinct(members: seq<Member>) {
    forall m, n | m in members && n in members && m.index == n.index :: m == n
  }

  /** Readable as administered by `r`, whoever built its context: one this client prepared, one a Welcome brought, one
      installed while the group was flat. */
  ghost predicate Carries(g: Group, r: Roster) {
    Distinct(g.members) && RosterIn(g.extensions) == Ok(Some(r))
  }

  /** Carries no roster: nothing restrains anybody. */
  ghost predicate Flat(g: Group) {
    RosterIn(g.extensions) == Ok(None)
  }

  /** The receiver accepts the commit and merges it. */
  ghost predicate Accepted(g: Group, c: Commit, next: Group) {
    && Verdict(g, c.committer, c.proposals, c.context).Ok?
    && next == Merged(g, c.proposals)
    && Distinct(next.members)
  }

  /** The account has a leaf. */
  ghost predicate Seated(g: Group, h: Handle) {
    exists m :: m in g.members && m.handle == h
  }

  /** The commit carries the request of the leaf itself, or the receiver knows its key to be revoked. */
  ghost predicate LeftByRight(c: Commit, m: Member) {
    Remove(m.index, FromMember(m.index)) in c.proposals || m.key in c.context.revoked
  }

  lemma {:induction false} StayingExact(members: seq<Member>, removed: seq<nat>)
    ensures forall m :: m in Staying(members, removed) <==> m in members && m.index !in removed
  {
    if members != [] {
      var last := |members| - 1;
      StayingExact(members[..last], removed);
      assert members == members[..last] + [members[last]];
    }
  }

  lemma {:induction false} RemovedExact(proposals: seq<Proposal>, index: nat)
    ensures index in Removed(proposals) <==> exists p :: p in proposals && p.Remove? && p.index == index
  {
    if proposals != [] {
      var last := |proposals| - 1;
      RemovedExact(proposals[..last], index);
      assert proposals == proposals[..last] + [proposals[last]];
    }
  }

  lemma {:induction false} AddedExact(proposals: seq<Proposal>, m: Member)
    ensures m in Added(proposals) <==> Add(m) in proposals
  {
    if proposals != [] {
      var last := |proposals| - 1;
      AddedExact(proposals[..last], m);
      assert proposals == proposals[..last] + [proposals[last]];
    }
  }

  lemma HandlesHold(members: seq<Member>, h: Handle)
    ensures h in Handles(members) <==> exists m :: m in members && m.handle == h
  {
    if h in Handles(members) {
      var i :| 0 <= i < |Handles(members)| && Handles(members)[i] == h;
      assert members[i] in members;
    }
    if m :| m in members && m.handle == h {
      var i :| 0 <= i < |members| && members[i] == m;
      assert Handles(members)[i] == h;
    }
  }

  /** Every removal of a known leaf reaches the policy under the account and key of that leaf. */
  lemma {:induction false} RemovalListed(members: seq<Member>, proposals: seq<Proposal>, m: Member, sender: Sender)
    requires Distinct(members) && m in members && Remove(m.index, sender) in proposals
    requires Removals(members, proposals).Ok?
    ensures Policy.Removal(m.handle, m.key, sender == FromMember(m.index)) in Removals(members, proposals).value
  {
    var last := |proposals| - 1;
    assert proposals == proposals[..last] + [proposals[last]];
    if proposals[last] != Remove(m.index, sender) {
      RemovalListed(members, proposals[..last], m, sender);
    }
  }

  // ------------------------------------------------------------------ what acceptance says

  /** What the policy is asked about a commit. */
  function Summary(g: Group, r: Roster, c: Commit): CommitSummary
    requires Removals(g.members, c.proposals).Ok? && Changes(g, r, c.proposals).Ok?
  {
    var changes := Changes(g, r, c.proposals).value;
    CommitSummary(c.committer, Removals(g.members, c.proposals).value, |Added(c.proposals)|, changes.0, changes.1,
                  Handles(Staying(g.members, Removed(c.proposals))))
  }

  lemma VerdictExact(g: Group, r: Roster, c: Commit)
    requires RosterIn(g.extensions) == Ok(Some(r))
    ensures Verdict(g, c.committer, c.proposals, c.context).Ok?
       <==> && Removals(g.members, c.proposals).Ok? && Changes(g, r, c.proposals).Ok?
            && Permitted(r, Summary(g, r, c), c.context)
  {
    hide RosterIn, LifetimeIn, Removals, Changes, Authorize, Permitted;
    if Removals(g.members, c.proposals).Ok? && Changes(g, r, c.proposals).Ok? {
      AuthorizeIsTheTable(r, Summary(g, r, c), c.context);
    }
  }

  /** An accepted commit leaves the context alone or installs one that passes the gate, and moves the policies no
      further than rank allows. */
  lemma ContextMoves(g: Group, r: Roster, c: Commit)
    requires RosterIn(g.extensions) == Ok(Some(r)) && Verdict(g, c.committer, c.proposals, c.context).Ok?
    ensures var x := Merged(g, c.proposals).extensions;
            && (x == g.extensions || (Gate(x).Ok? && LifetimeIn(g.extensions).Ok?))
            && (RosterIn(x) == Ok(Some(r)) || (r.IsAdmin(c.committer) && RosterIn(x).Ok?))
            && (LifetimeIn(x) == LifetimeIn(g.extensions) || r.CanModerate(c.committer))
  {
    hide RosterIn, LifetimeIn, ContextExtensions, Removals, Verdict;
    VerdictExact(g, r, c);
  }

  /** An accepted commit of a group that carries a roster, in terms of the group before and after it. */
  lemma AcceptedMeans(g: Group, c: Commit, next: Group, r: Roster)
    requires Carries(g, r) && Accepted(g, c, next)
    ensures exists m :: m in g.members && m in next.members && m.handle == r.admin
    ensures forall m | m in next.members && m !in g.members :: r.CanModerate(c.committer)
    ensures next.extensions != g.extensions ==> Gate(next.extensions).Ok? && LifetimeIn(g.extensions).Ok?
    ensures RosterIn(next.extensions) != Ok(Some(r)) ==> r.IsAdmin(c.committer)
    ensures LifetimeIn(next.extensions) != LifetimeIn(g.extensions) ==> r.CanModerate(c.committer)
    ensures Flat(next) || exists heir: Roster :: Carries(next, heir)
  {
    hide RosterIn, LifetimeIn, Gate, Changes, Removals, Verdict;
    ContextMoves(g, r, c);
    VerdictExact(g, r, c);
    var staying := Staying(g.members, Removed(c.proposals));
    StayingExact(g.members, Removed(c.proposals));
    HandlesHold(staying, r.admin);
    forall m | m in next.members && m !in g.members
      ensures r.CanModerate(c.committer)
    {
      assert m in Added(c.proposals);
    }
    match RosterIn(next.extensions)
    case Ok(Some(heir)) => assert Carries(next, heir);
    case Ok(None) =>
    case Err(_) =>
  }

  /** The table gives the committer no say over this leaf. */
  ghost predicate OutOfReach(r: Roster, committer: Handle, m: Member) {
    !r.IsAdmin(committer) && (r.IsModerator(committer) ==> r.IsModerator(m.handle))
  }

  /** A leaf the committer has no rank over goes with its own request or a revoked key, or stays. */
  lemma LeafOutOfReach(g: Group, c: Commit, next: Group, r: Roster, m: Member)
    requires Carries(g, r) && Accepted(g, c, next)
    requires m in g.members && OutOfReach(r, c.committer, m)
    ensures m in next.members || LeftByRight(c, m)
  {
    hide RosterIn, LifetimeIn, Gate, Changes, Removals, Verdict;
    VerdictExact(g, r, c);
    StayingExact(g.members, Removed(c.proposals));
    if m !in next.members {
      RemovedExact(c.proposals, m.index);
      var p :| p in c.proposals && p.Remove? && p.index == m.index;
      RemovalListed(g.members, c.proposals, m, p.sender);
      assert MayRemove(r, c.committer, Policy.Removal(m.handle, m.key, p.sender == FromMember(m.index)), c.context);
    }
  }

  // ------------------------------------------------------------------ runs

  /** One receiver's history: the groups it went through and the commits it accepted. */
  ghost predicate IsRun(groups: seq<Group>, commits: seq<Commit>) {
    && |groups| == |commits| + 1
    && forall i | 0 <= i < |commits| :: Accepted(groups[i], commits[i], groups[i + 1])
  }

  lemma StaysDistinct(groups: seq<Group>, commits: seq<Commit>, i: nat)
    requires IsRun(groups, commits) && Distinct(groups[0].members) && i <= |commits|
    ensures Distinct(groups[i].members)
  {
    if i > 0 { assert Accepted(groups[i - 1], commits[i - 1], groups[i]); }
  }

  /** While the admin commits nothing, the roster stands and the admin keeps a leaf. */
  lemma {:induction false} RosterMovesOnlyByItsAdmin(groups: seq<Group>, commits: seq<Commit>, r: Roster)
    requires IsRun(groups, commits) && Carries(groups[0], r)
    requires forall c | c in commits :: !r.IsAdmin(c.committer)
    ensures Carries(groups[|commits|], r)
    ensures commits != [] ==> Seated(groups[|commits|], r.admin)
  {
    hide RosterIn, LifetimeIn, Gate, Verdict, Merged;
    if commits != [] {
      var last := |commits| - 1;
      RosterMovesOnlyByItsAdmin(groups[..last + 1], commits[..last], r);
      assert commits[last] in commits;
      AcceptedMeans(groups[last], commits[last], groups[last + 1], r);
    }
  }

  /** Whoever commits, the admin of every roster in force has a leaf before each accepted commit and after it. */
  lemma AdminKeepsALeaf(groups: seq<Group>, commits: seq<Commit>, r: Roster, i: nat)
    requires IsRun(groups, commits) && Distinct(groups[0].members) && i < |commits|
    requires RosterIn(groups[i].extensions) == Ok(Some(r))
    ensures Seated(groups[i], r.admin) && Seated(groups[i + 1], r.admin)
  {
    StaysDistinct(groups, commits, i);
    AcceptedMeans(groups[i], commits[i], groups[i + 1], r);
  }

  /** While nobody with a role commits, roster and lifetime stand and nobody joins. The context itself stands too,
      unless the gate would not have let it through: then it may be exchanged for the one honest set of the same
      policies. */
  lemma {:induction false} WithoutARoleNothingMoves(groups: seq<Group>, commits: seq<Commit>, r: Roster)
    requires IsRun(groups, commits) && Carries(groups[0], r)
    requires forall c | c in commits :: !r.CanModerate(c.committer)
    ensures RosterIn(groups[|commits|].extensions) == RosterIn(groups[0].extensions)
    ensures LifetimeIn(groups[|commits|].extensions) == LifetimeIn(groups[0].extensions)
    ensures forall m | m in groups[|commits|].members :: m in groups[0].members
    ensures groups[|commits|].extensions == groups[0].extensions
            || (Gate(groups[0].extensions).Err? && Gate(groups[|commits|].extensions).Ok?)
  {
    hide RosterIn, LifetimeIn, Gate, Verdict, Merged;
    if commits != [] {
      var last := |commits| - 1;
      WithoutARoleNothingMoves(groups[..last + 1], commits[..last], r);
      RosterMovesOnlyByItsAdmin(groups[..last + 1], commits[..last], r);
      assert commits[last] in commits;
      AcceptedMeans(groups[last], commits[last], groups[last + 1], r);
      GatedSetsAreEqual(groups[0].extensions, groups[last + 1].extensions);
      GatedSetsAreEqual(groups[last].extensions, groups[last + 1].extensions);
    }
  }

  /** The gate lets one set through for each pair of policies. */
  lemma GatedSetsAreEqual(a: Extensions, b: Extensions)
    ensures Gate(a).Ok? && Gate(b).Ok? && RosterIn(a) == RosterIn(b) && LifetimeIn(a) == LifetimeIn(b) ==> a == b
  {
    hide RosterIn, LifetimeIn, ContextExtensions;
  }

  /** Over a whole run, a leaf no committer has rank over is still there, or left by its own request or a revoked
      key: an ordinary member's while no role holder commits, a moderator's while the admin does not. */
  lemma {:induction false} LeavesGoByTheirOwnWord(groups: seq<Group>, commits: seq<Commit>, r: Roster, m: Member)
    requires IsRun(groups, commits) && Carries(groups[0], r)
    requires m in groups[0].members
    requires forall c | c in commits :: OutOfReach(r, c.committer, m)
    ensures m in groups[|commits|].members || exists c :: c in commits && LeftByRight(c, m)
  {
    hide RosterIn, LifetimeIn, Gate, Verdict, Merged, LeftByRight;
    if commits != [] {
      var last := |commits| - 1;
      LeavesGoByTheirOwnWord(groups[..last + 1], commits[..last], r, m);
      assert commits[last] in commits;
      if m in groups[last].members {
        RosterMovesOnlyByItsAdmin(groups[..last + 1], commits[..last], r);
        LeafOutOfReach(groups[last], commits[last], groups[last + 1], r, m);
      } else {
        var c :| c in commits[..last] && LeftByRight(c, m);
        assert c in commits;
      }
    }
  }

  /** Before the first commit of the admin every group has the same roster. */
  lemma RosterStands(groups: seq<Group>, commits: seq<Commit>, r: Roster, i: nat)
    requires IsRun(groups, commits) && Carries(groups[0], r) && i <= |commits|
    requires forall j | 0 <= j < i :: !r.IsAdmin(commits[j].committer)
    ensures RosterIn(groups[i].extensions) == Ok(Some(r))
  {
    RosterMovesOnlyByItsAdmin(groups[..i + 1], commits[..i], r);
  }

  /** The commit that ended a roster's term was the sitting admin's, and the term was unbroken until then. */
  lemma TermsEndByTheAdmin(groups: seq<Group>, commits: seq<Commit>, r: Roster) returns (k: nat)
    requires IsRun(groups, commits) && Carries(groups[0], r)
    requires RosterIn(groups[|commits|].extensions) != Ok(Some(r))
    ensures k < |commits| && r.IsAdmin(commits[k].committer)
    ensures forall i | 0 <= i <= k :: RosterIn(groups[i].extensions) == Ok(Some(r))
  {
    k := 0;
    while k < |commits| && !r.IsAdmin(commits[k].committer)
      invariant k <= |commits|
      invariant forall j | 0 <= j < k :: !r.IsAdmin(commits[j].committer)
      invariant forall i | 0 <= i <= k :: RosterIn(groups[i].extensions) == Ok(Some(r))
    {
      k := k + 1;
      RosterStands(groups, commits, r, k);
    }
  }

  // ------------------------------------------------------------------ whole runs, hand-overs included

  /** A commit did what roster `r` lets its committer do: the roster moves for the admin alone, lifetime and new
      members need a role, so does a context that had passed the gate, a context that moves passes it, a leaf out of
      reach goes by its own word, and the admin is still seated. */
  ghost predicate Obeys(r: Roster, g: Group, c: Commit, next: Group) {
    && (RosterIn(next.extensions) != Ok(Some(r)) ==> r.IsAdmin(c.committer))
    && (LifetimeIn(next.extensions) != LifetimeIn(g.extensions) ==> r.CanModerate(c.committer))
    && (next.extensions != g.extensions && Gate(g.extensions).Ok? ==> r.CanModerate(c.committer))
    && (next.extensions != g.extensions ==> Gate(next.extensions).Ok?)
    && (forall m | m in next.members && m !in g.members :: r.CanModerate(c.committer))
    && (forall m | m in g.members && OutOfReach(r, c.committer, m) :: m in next.members || LeftByRight(c, m))
    && (exists m :: m in g.members && m in next.members && m.handle == r.admin)
  }

  lemma StepObeys(g: Group, c: Commit, next: Group, r: Roster)
    requires Carries(g, r) && Accepted(g, c, next)
    ensures Obeys(r, g, c, next)
  {
    hide RosterIn, LifetimeIn, Gate, Verdict, Merged, LeftByRight;
    AcceptedMeans(g, c, next, r);
    GatedSetsAreEqual(g.extensions, next.extensions);
    forall m | m in g.members && OutOfReach(r, c.committer, m)
      ensures m in next.members || LeftByRight(c, m)
    {
      LeafOutOfReach(g, c, next, r, m);
    }
  }

  /** Nothing is accepted under a roster that cannot be read. */
  lemma UnreadableRefusesAll(g: Group, c: Commit)
    requires Verdict(g, c.committer, c.proposals, c.context).Ok?
    ensures RosterIn(g.extensions).Ok?
  {
  }

  /** In any run, from any group, through any number of hand-overs: every accepted commit meets a flat group, or obeys
      the roster in force when it was made. */
  lemma EveryStepObeys(groups: seq<Group>, commits: seq<Commit>, i: nat) returns (sitting: Option<Roster>)
    requires IsRun(groups, commits) && Distinct(groups[0].members) && i < |commits|
    ensures RosterIn(groups[i].extensions) == Ok(sitting)
    ensures sitting.Some? ==> Obeys(sitting.value, groups[i], commits[i], groups[i + 1])
  {
    hide RosterIn, Obeys, Verdict;
    assert Accepted(groups[i], commits[i], groups[i + 1]);
    UnreadableRefusesAll(groups[i], commits[i]);
    sitting := RosterIn(groups[i].extensions).value;
    if sitting.Some? {
      StaysDistinct(groups, commits, i);
      StepObeys(groups[i], commits[i], groups[i + 1], sitting.value);
    }
  }

  /** Until it is flat, a group that carries a roster carries one, whoever installed it, in the context it began with or
      one that passed the gate. */
  lemma {:induction false} AlwaysAdministered(groups: seq<Group>, commits: seq<Commit>, r: Roster, i: nat)
    returns (sitting: Roster)
    requires IsRun(groups, commits) && Carries(groups[0], r) && i <= |commits|
    requires forall j | 0 <= j <= i :: !Flat(groups[j])
    ensures Carries(groups[i], sitting)
    ensures groups[i].extensions == groups[0].extensions || Gate(groups[i].extensions).Ok?
  {
    hide RosterIn, LifetimeIn, Gate, Verdict, Merged, Carries, Flat;
    if i == 0 {
      sitting := r;
    } else {
      var before := AlwaysAdministered(groups, commits, r, i - 1);
      AcceptedMeans(groups[i - 1], commits[i - 1], groups[i], before);
      sitting :| Carries(groups[i], sitting);
    }
  }

  /** Where the last value of a sequence came in. */
  lemma LastChange<T>(s: seq<T>) returns (k: nat)
    requires s != []
    ensures k < |s| && forall j | k <= j < |s| :: s[j] == s[|s| - 1]
    ensures k > 0 ==> s[k - 1] != s[k]
  {
    k := |s| - 1;
    while k > 0 && s[k - 1] == s[k]
      invariant k < |s| && forall j | k <= j < |s| :: s[j] == s[|s| - 1]
    {
      k := k - 1;
    }
  }

  /** A change of roster is the doing of the admin it replaces, or of anybody in a flat group. */
  lemma ChangesAreTheAdmins(groups: seq<Group>, commits: seq<Commit>, i: nat) returns (giver: Option<Roster>)
    requires IsRun(groups, commits) && Distinct(groups[0].members) && i < |commits|
    requires RosterIn(groups[i].extensions) != RosterIn(groups[i + 1].extensions)
    ensures RosterIn(groups[i].extensions) == Ok(giver)
    ensures giver.Some? ==> giver.value.IsAdmin(commits[i].committer)
  {
    giver := EveryStepObeys(groups, commits, i);
  }

  function Rosters(groups: seq<Group>): (r: seq<Result<Option<Roster>, CryptoError>>)
    ensures |r| == |groups| && forall i | 0 <= i < |r| :: r[i] == RosterIn(groups[i].extensions)
  {
    if groups == [] then [] else Rosters(groups[..|groups| - 1]) + [RosterIn(groups[|groups| - 1].extensions)]
  }

  /** Hence a roster in force at the end of a run was there from the beginning, or came in by the admin of the roster it
      replaced, or while the group was flat; and stood since. */
  lemma RostersComeDownFromAdmins(groups: seq<Group>, commits: seq<Commit>) returns (k: nat, giver: Option<Roster>)
    requires IsRun(groups, commits) && Distinct(groups[0].members)
    ensures k <= |commits| && forall j | k <= j < |groups| :: Rosters(groups)[j] == Rosters(groups)[|commits|]
    ensures k > 0 ==>
              && Rosters(groups)[k - 1] == Ok(giver) && Rosters(groups)[k] != Ok(giver)
              && (giver.Some? ==> giver.value.IsAdmin(commits[k - 1].committer))
  {
    giver := None;
    k := LastChange(Rosters(groups));
    if k > 0 {
      giver := ChangesAreTheAdmins(groups, commits, k - 1);
    }
  }

  // ------------------------------------------------------------------ frozen groups

  lemma {:induction false} NobodyLeaves(members: seq<Member>)
    ensures Staying(members, []) == members
  {
    if members != [] {
      NobodyLeaves(members[..|members| - 1]);
      assert members == members[..|members| - 1] + [members[|members| - 1]];
    }
  }

  lemma AcceptedNeedsTheAdmin(g: Group, r: Roster, c: Commit)
    requires RosterIn(g.extensions) == Ok(Some(r))
    requires Verdict(g, c.committer, c.proposals, c.context).Ok?
    ensures Seated(g, r.admin)
  {
    hide RosterIn, Changes, Removals, Verdict;
    VerdictExact(g, r, c);
    StayingExact(g.members, Removed(c.proposals));
    HandlesHold(Staying(g.members, Removed(c.proposals)), r.admin);
  }

  lemma EmptyCommit(g: Group, r: Roster)
    requires RosterIn(g.extensions) == Ok(Some(r)) && Seated(g, r.admin)
    ensures Verdict(g, r.admin, [], Policy.Context([])).Ok?
  {
    hide RosterIn;
    NobodyLeaves(g.members);
    HandlesHold(g.members, r.admin);
  }

  /** Some commit can be accepted. */
  ghost predicate Open(g: Group) {
    exists c: Commit :: Verdict(g, c.committer, c.proposals, c.context).Ok?
  }

  /** A flat group is open, one whose roster cannot be read is not, and an administered one is exactly when its admin
      has a leaf. */
  lemma FrozenWithoutTheAdmin(g: Group)
    ensures Open(g) <==> match RosterIn(g.extensions)
                         case Err(_) => false
                         case Ok(None) => true
                         case Ok(Some(r)) => Seated(g, r.admin)
  {
    hide RosterIn, Verdict, Seated;
    if c: Commit :| Verdict(g, c.committer, c.proposals, c.context).Ok? {
      UnreadableRefusesAll(g, c);
      if RosterIn(g.extensions).value.Some? { AcceptedNeedsTheAdmin(g, RosterIn(g.extensions).value.value, c); }
    }
    match RosterIn(g.extensions)
    case Err(_) =>
    case Ok(None) =>
      FlatAcceptsAll(g, Commit([], [], Policy.Context([])));
    case Ok(Some(r)) =>
      if Seated(g, r.admin) {
        EmptyCommit(g, r);
        var c := Commit(r.admin, [], Policy.Context([]));
        assert Verdict(g, c.committer, c.proposals, c.context).Ok?;
      }
  }

  lemma FlatAcceptsAll(g: Group, c: Commit)
    requires Flat(g)
    ensures Verdict(g, c.committer, c.proposals, c.context).Ok?
  {
  }

  // ------------------------------------------------------------------ the setters

  lemma ContextCommit(g: Group, extensions: Extensions)
    ensures Removed([Proposal.Context(extensions)]) == [] && Added([Proposal.Context(extensions)]) == []
    ensures Removals(g.members, [Proposal.Context(extensions)]) == Ok([])
    ensures Merged(g, [Proposal.Context(extensions)]) == Group(g.members, extensions)
  {
    var proposals := [Proposal.Context(extensions)];
    assert proposals[..0] == [];
    assert Removed(proposals[..0]) == [] && Added(proposals[..0]) == [];
    assert Removals(g.members, proposals[..0]) == Ok([]);
    NobodyLeaves(g.members);
  }

  lemma HonestSet(roster: Option<Roster>, lifetime: Option<Lifetime>)
    requires roster.Some? ==> Canonical(roster.value) && Encodable(roster.value.admin, roster.value.moderators)
    ensures ContextExtensions(roster, lifetime).Ok?
    ensures Honest(ContextExtensions(roster, lifetime).value, roster, lifetime)
  {
  }

  /** `set_roles` prepares a commit for every roster that has an admin and fits the byte form. */
  predicate Settable(admin: Handle, moderators: seq<Handle>) {
    admin != [] && Encodable(admin, Without(moderators, admin))
  }

  /** What can be read fits the byte form. */
  lemma ReadableIsHonest(extensions: Extensions, lifetime: Option<Lifetime>)
    requires RosterIn(extensions).Ok?
    ensures ContextExtensions(RosterIn(extensions).value, lifetime).Ok?
    ensures Honest(ContextExtensions(RosterIn(extensions).value, lifetime).value, RosterIn(extensions).value, lifetime)
  {
    hide ContextExtensions, Decoded, UnknownOf, Encoded, Canonical;
    var roster := RosterIn(extensions).value;
    if roster.Some? {
      DecodedIsCanonical(UnknownOf(extensions, ROSTER_EXTENSION).value);
      EncodedFits(roster.value);
    }
    HonestSet(roster, lifetime);
  }

  lemma EncodedFits(r: Roster)
    requires Encoded(r).Ok?
    ensures Encodable(r.admin, r.moderators)
  {
  }

  /** A lifetime commit: prepared wherever the roster can be read, with the roster carried over. */
  lemma LifetimeCommitIsHonest(g: Group, lifetime: Lifetime)
    ensures SetLifetimeCommit(g, lifetime).Ok? <==> RosterIn(g.extensions).Ok?
    ensures SetLifetimeCommit(g, lifetime).Ok? ==>
              var next := Merged(g, SetLifetimeCommit(g, lifetime).value);
              && Honest(next.extensions, RosterIn(g.extensions).value, Some(lifetime))
              && next.members == g.members
  {
    hide RosterIn, ContextExtensions, Honest, Merged;
    if RosterIn(g.extensions).Ok? {
      ReadableIsHonest(g.extensions, Some(lifetime));
      ContextCommit(g, ContextExtensions(RosterIn(g.extensions).value, Some(lifetime)).value);
    }
  }

  /** A roles commit: prepared exactly when the roster is settable and the lifetime can be read, and it carries that
      over. */
  lemma RolesCommitIsHonest(g: Group, admin: Handle, moderators: seq<Handle>)
    ensures SetRolesCommit(g, admin, moderators).Ok? <==> Settable(admin, moderators) && LifetimeIn(g.extensions).Ok?
    ensures SetRolesCommit(g, admin, moderators).Ok? ==>
              var next := Merged(g, SetRolesCommit(g, admin, moderators).value);
              && Honest(next.extensions, Some(Roster(admin, Without(moderators, admin))),
                        LifetimeIn(g.extensions).value)
              && next.members == g.members
  {
    hide LifetimeIn, Merged;
    if Settable(admin, moderators) && LifetimeIn(g.extensions).Ok? {
      var roster, lifetime := Some(Roster(admin, Without(moderators, admin))), LifetimeIn(g.extensions).value;
      HonestSet(roster, lifetime);
      ContextCommit(g, ContextExtensions(roster, lifetime).value);
    }
  }

  /** The receiver's verdict on a commit that only installs an honest context. */
  lemma HonestContextVerdict(g: Group, r: Roster, extensions: Extensions,
                             roster: Option<Roster>, lifetime: Option<Lifetime>,
                             committer: Handle, context: Policy.Context)
    requires RosterIn(g.extensions) == Ok(Some(r)) && Honest(extensions, roster, lifetime)
    ensures Verdict(g, committer, [Proposal.Context(extensions)], context).Ok? <==>
              && Seated(g, r.admin) && LifetimeIn(g.extensions).Ok?
              && (roster != Some(r) ==> r.IsAdmin(committer))
              && (Ok(lifetime) != LifetimeIn(g.extensions) ==> r.CanModerate(committer))
  {
    hide RosterIn, LifetimeIn, Gate, Honest, Verdict, Seated;
    GateExact(extensions, roster, lifetime);
    NobodyLeaves(g.members);
    SeatedHolds(g, r.admin);
    var c := Commit(committer, [Proposal.Context(extensions)], context);
    ContextCommit(g, extensions);
    assert Proposed(c.proposals) == Some(extensions);
    VerdictExact(g, r, c);
  }

  lemma SeatedHolds(g: Group, h: Handle)
    ensures Seated(g, h) <==> h in Handles(g.members)
  {
    HandlesHold(g.members, h);
  }

  /** An honest lifetime commit passes every receiver's gate. Where the lifetime in force can be read only rank can
      refuse it; where it cannot, everybody does. */
  lemma HonestLifetimePasses(g: Group, r: Roster, lifetime: Lifetime, commit: seq<Proposal>,
                             committer: Handle, context: Policy.Context)
    requires RosterIn(g.extensions) == Ok(Some(r)) && Seated(g, r.admin)
    requires SetLifetimeCommit(g, lifetime) == Ok(commit)
    ensures Verdict(g, committer, commit, context).Ok?
       <==> && LifetimeIn(g.extensions).Ok?
            && (LifetimeIn(g.extensions) != Ok(Some(lifetime)) ==> r.CanModerate(committer))
  {
    hide RosterIn, LifetimeIn, ContextExtensions, Honest, Verdict, Seated;
    ReadableIsHonest(g.extensions, Some(lifetime));
    HonestContextVerdict(g, r, commit[0].extensions, Some(r), Some(lifetime), committer, context);
  }

  /** An honest roles commit is refused for want of rank only. */
  lemma HonestRolesPass(g: Group, r: Roster,
                        admin: Handle, moderators: seq<Handle>, commit: seq<Proposal>,
                        committer: Handle, context: Policy.Context)
    requires RosterIn(g.extensions) == Ok(Some(r)) && Seated(g, r.admin)
    requires SetRolesCommit(g, admin, moderators) == Ok(commit)
    ensures Verdict(g, committer, commit, context).Ok?
       <==> (Roster(admin, Without(moderators, admin)) != r ==> r.IsAdmin(committer))
  {
    hide RosterIn, LifetimeIn, Verdict, Seated;
    var lifetime := LifetimeIn(g.extensions).value;
    RolesCommitIsHonest(g, admin, moderators);
    ContextCommit(g, commit[0].extensions);
    HonestContextVerdict(g, r, commit[0].extensions, Some(Roster(admin, Without(moderators, admin))), lifetime,
                         committer, context);
  }

  /** Handing the group to an account without a leaf is accepted, and is the last commit the group accepts. */
  lemma HandOverToAnAbsentAdminFreezes(g: Group, r: Roster,
                                       admin: Handle, moderators: seq<Handle>, commit: seq<Proposal>,
                                       context: Policy.Context, groups: seq<Group>, commits: seq<Commit>)
    requires RosterIn(g.extensions) == Ok(Some(r)) && Seated(g, r.admin)
    requires SetRolesCommit(g, admin, moderators) == Ok(commit) && !Seated(g, admin)
    ensures Verdict(g, r.admin, commit, context).Ok?
    ensures IsRun(groups, commits) && groups[0] == Merged(g, commit) ==> commits == []
  {
    HonestRolesPass(g, r, admin, moderators, commit, r.admin, context);
    RolesCommitIsHonest(g, admin, moderators);
    var next, heir := Merged(g, commit), Roster(admin, Without(moderators, admin));
    HonestReads(next.extensions, Some(heir), LifetimeIn(g.extensions).value);
    if IsRun(groups, commits) && groups[0] == next && commits != [] {
      assert Accepted(groups[0], commits[0], groups[1]);
      AcceptedNeedsTheAdmin(next, heir, commits[0]);
    }
  }

  // ------------------------------------------------------------------ commits of one proposal

  /** After a merge the members are those no proposal removes, and those the proposals add. */
  lemma MergedExact(g: Group, proposals: seq<Proposal>, m: Member)
    ensures m in Merged(g, proposals).members <==>
              || (m in g.members && !exists p :: p in proposals && p.Remove? && p.index == m.index)
              || Add(m) in proposals
  {
    StayingExact(g.members, Removed(proposals));
    RemovedExact(proposals, m.index);
    AddedExact(proposals, m);
  }

  lemma OneProposal(members: seq<Member>, p: Proposal)
    ensures Removed([p]) == if p.Remove? then [p.index] else []
    ensures Added([p]) == if p.Add? then [p.member] else []
    ensures Proposed([p]) == if p.Context? then Some(p.extensions) else None
    ensures Removals(members, [p])
         == if !p.Remove? then Ok([])
            else match MemberAt(members, p.index)
                 case None => Err(PolicyViolation(UnknownMember))
                 case Some(m) => Ok([Policy.Removal(m.handle, m.key, p.sender == FromMember(p.index))])
  {
    var proposals := [p];
    assert proposals[..0] == [];
    assert Removed(proposals[..0]) == [] && Added(proposals[..0]) == [];
    assert Removals(members, proposals[..0]) == Ok([]);
    assert proposals[1..] == [] && Proposed(proposals[1..]) == None;
    match p {
      case Remove(index, sender) =>
        var found := MemberAt(members, index);
        if found.Some? {
          var removal := Policy.Removal(found.value.handle, found.value.key, sender == FromMember(index));
          assert [] + [removal] == [removal];
        }
      case _ =>
    }
  }

  /** An add is a role holder's. */
  lemma OneAddExactly(g: Group, r: Roster, added: Member, committer: Handle, context: Policy.Context)
    requires RosterIn(g.extensions) == Ok(Some(r))
    ensures Verdict(g, committer, [Add(added)], context).Ok? <==> Seated(g, r.admin) && r.CanModerate(committer)
  {
    hide RosterIn, LifetimeIn, Verdict, Seated;
    var c := Commit(committer, [Add(added)], context);
    OneProposal(g.members, Add(added));
    assert Changes(g, r, c.proposals) == Ok((false, false));
    NobodyLeaves(g.members);
    SeatedHolds(g, r.admin);
    VerdictExact(g, r, c);
  }

  /** A removal goes with anybody's commit when the leaf itself asked or its key is revoked, a moderator's with the
      admin's, any other with a role holder's; and never when it would take the last leaf of the admin. */
  lemma OneRemovalExactly(g: Group, r: Roster, m: Member, sender: Sender, committer: Handle, context: Policy.Context)
    requires Carries(g, r) && m in g.members
    ensures Verdict(g, committer, [Remove(m.index, sender)], context).Ok? <==>
              && (|| sender == FromMember(m.index) || m.key in context.revoked || r.IsAdmin(committer)
                  || (r.IsModerator(committer) && !r.IsModerator(m.handle)))
              && exists other :: other in g.members && other != m && other.handle == r.admin
  {
    hide RosterIn, LifetimeIn, Verdict;
    var c := Commit(committer, [Remove(m.index, sender)], context);
    var removal := Policy.Removal(m.handle, m.key, sender == FromMember(m.index));
    OneProposal(g.members, Remove(m.index, sender));
    assert MemberAt(g.members, m.index) == Some(m);
    assert Changes(g, r, c.proposals) == Ok((false, false));
    StayingExact(g.members, [m.index]);
    HandlesHold(Staying(g.members, [m.index]), r.admin);
    VerdictExact(g, r, c);
    assert removal in Summary(g, r, c).removals;
  }

  // ------------------------------------------------------------------ contexts nobody's gate has seen

  /** The gate looks at what a commit installs and not at what is installed: a context that came with a Welcome, or
      while the group was flat, need not pass it. A committer without a role can then exchange it, exactly where the
      admin has a leaf and the lifetime can be read; what it installs has the same policies and is honest. */
  lemma OutsidersRewriteExactly(g: Group, r: Roster, committer: Handle)
    requires RosterIn(g.extensions) == Ok(Some(r)) && !r.CanModerate(committer)
    ensures (exists c: Commit :: c.committer == committer && Rewrites(g, c))
       <==> Seated(g, r.admin) && LifetimeIn(g.extensions).Ok? && Gate(g.extensions).Err?
    ensures forall c: Commit | c.committer == committer && Rewrites(g, c) ::
              Honest(Merged(g, c.proposals).extensions, Some(r), LifetimeIn(g.extensions).value)
  {
    hide RosterIn, LifetimeIn, Gate, Verdict, Merged, Seated, ContextExtensions, Honest;
    forall c: Commit | c.committer == committer && Rewrites(g, c)
      ensures Seated(g, r.admin) && LifetimeIn(g.extensions).Ok? && Gate(g.extensions).Err?
      ensures Honest(Merged(g, c.proposals).extensions, Some(r), LifetimeIn(g.extensions).value)
    {
      OutsiderRewrites(g, r, c);
    }
    if Seated(g, r.admin) && LifetimeIn(g.extensions).Ok? && Gate(g.extensions).Err? {
      var c := Repair(g, r, committer);
      assert c.committer == committer && Rewrites(g, c);
    }
  }

  /** Is accepted and changes the context. */
  ghost predicate Rewrites(g: Group, c: Commit) {
    Verdict(g, c.committer, c.proposals, c.context).Ok? && Merged(g, c.proposals).extensions != g.extensions
  }

  lemma OutsiderRewrites(g: Group, r: Roster, c: Commit)
    requires RosterIn(g.extensions) == Ok(Some(r)) && !r.CanModerate(c.committer) && Rewrites(g, c)
    ensures Seated(g, r.admin) && LifetimeIn(g.extensions).Ok? && Gate(g.extensions).Err?
    ensures Honest(Merged(g, c.proposals).extensions, Some(r), LifetimeIn(g.extensions).value)
  {
    hide RosterIn, LifetimeIn, Gate, Verdict, Merged, Seated, Honest;
    var next := Merged(g, c.proposals).extensions;
    AcceptedNeedsTheAdmin(g, r, c);
    ContextMoves(g, r, c);
    GatedSetsAreEqual(g.extensions, next);
    GateReads(next);
    GateExact(next, Some(r), LifetimeIn(g.extensions).value);
  }

  lemma GateReads(extensions: Extensions)
    requires Gate(extensions).Ok?
    ensures RosterIn(extensions) == Ok(Gate(extensions).value.0)
    ensures LifetimeIn(extensions) == Ok(Gate(extensions).value.1)
  {
    hide RosterIn, LifetimeIn, ContextExtensions;
  }

  /** The exchange, which any member can commit. */
  lemma Repair(g: Group, r: Roster, committer: Handle) returns (c: Commit)
    requires RosterIn(g.extensions) == Ok(Some(r)) && Seated(g, r.admin)
    requires LifetimeIn(g.extensions).Ok? && Gate(g.extensions).Err?
    ensures c.committer == committer && Rewrites(g, c)
  {
    hide RosterIn, LifetimeIn, Gate, Verdict, Merged, Seated, Honest, ContextExtensions;
    var lifetime := LifetimeIn(g.extensions).value;
    ReadableIsHonest(g.extensions, lifetime);
    var extensions := ContextExtensions(Some(r), lifetime).value;
    HonestContextVerdict(g, r, extensions, Some(r), lifetime, committer, Policy.Context([]));
    ContextCommit(g, extensions);
    GateExact(extensions, Some(r), lifetime);
    c := Commit(committer, [Proposal.Context(extensions)], Policy.Context([]));
  }

  /** So a context change takes a role exactly in the groups whose context passes the gate, and in those that accept no
      change of context at all. */
  lemma ContextNeedsARoleExactly(g: Group, r: Roster)
    requires RosterIn(g.extensions) == Ok(Some(r))
    ensures (forall c: Commit | Rewrites(g, c) :: r.CanModerate(c.committer))
       <==> Gate(g.extensions).Ok? || LifetimeIn(g.extensions).Err? || !Seated(g, r.admin)
  {
    hide RosterIn, LifetimeIn, Gate, Verdict, Merged, Seated, Rewrites;
    var stranger := Unlisted([r.admin] + r.moderators);
    assert !r.CanModerate(stranger) by {
      assert r.admin in [r.admin] + r.moderators;
      assert forall h | h in r.moderators :: h in [r.admin] + r.moderators;
    }
    OutsidersRewriteExactly(g, r, stranger);
    forall c: Commit | Rewrites(g, c) && !r.CanModerate(c.committer)
      ensures Seated(g, r.admin) && LifetimeIn(g.extensions).Ok? && Gate(g.extensions).Err?
    {
      OutsiderRewrites(g, r, c);
    }
  }

  /** A roster and nothing around it. */
  function BareContext(admin: Handle): Extensions {
    [Unknown(ROSTER_EXTENSION, Layout(admin, []))]
  }

  lemma BareContextReads(admin: Handle)
    requires admin != [] && Fits(admin)
    ensures RosterIn(BareContext(admin)) == Ok(Some(Roster(admin, [])))
    ensures LifetimeIn(BareContext(admin)) == Ok(None)
    ensures Gate(BareContext(admin)).Err?
  {
    hide Gate, Decoded, Layout;
    var x := BareContext(admin);
    EncodedIsLayout(admin);
    RosterRoundTrip(Roster(admin, []));
    assert UnknownOf(x[1..], LIFETIME_EXTENSION) == None;
    if Gate(x).Ok? { CapabilitiesCoverPolicies(x); }
  }

  lemma EncodedIsLayout(admin: Handle)
    requires Fits(admin)
    ensures Encoded(Roster(admin, [])) == Ok(Layout(admin, []))
  {
  }

  /** A Welcome with such a context: an ordinary member's commit exchanges it. */
  lemma JoinedContextIsRewritten(admin: Handle, committer: Handle)
    requires admin != [] && Fits(admin) && committer != admin
    ensures var g := Group([Member(0, admin, []), Member(1, committer, [])], BareContext(admin));
            && Carries(g, Roster(admin, []))
            && exists c: Commit :: c.committer == committer && Rewrites(g, c)
  {
    hide BareContext, RosterIn, LifetimeIn, Gate, Rewrites;
    var g := Group([Member(0, admin, []), Member(1, committer, [])], BareContext(admin));
    BareContextReads(admin);
    assert g.members[0] in g.members && Seated(g, admin);
    OutsidersRewriteExactly(g, Roster(admin, []), committer);
  }

  // ------------------------------------------------------------------ sequences of setters

  datatype Setter = SetLifetime(seconds: Lifetime) | SetRoles(admin: Handle, moderators: seq<Handle>)

  /** Call the setter and apply its commit; a setter that fails leaves the group as it was. */
  function Apply(g: Group, setter: Setter): Group {
    var commit := match setter
      case SetLifetime(seconds) => SetLifetimeCommit(g, seconds)
      case SetRoles(admin, moderators) => SetRolesCommit(g, admin, moderators);
    if commit.Ok? then Merged(g, commit.value) else g
  }

  function ApplyAll(g: Group, setters: seq<Setter>): Group
    decreases |setters|
  {
    if setters == [] then g else ApplyAll(Apply(g, setters[0]), setters[1..])
  }

  /** Two independent registers. */
  datatype Policies = Policies(roster: Option<Roster>, lifetime: Option<Lifetime>) {
    function Write(setter: Setter): Policies {
      match setter
      case SetLifetime(seconds) => this.(lifetime := Some(seconds))
      case SetRoles(admin, moderators) =>
        if Settable(admin, moderators) then this.(roster := Some(Roster(admin, Without(moderators, admin)))) else this
    }

    function WriteAll(setters: seq<Setter>): Policies
      decreases |setters|
    {
      if setters == [] then this else Write(setters[0]).WriteAll(setters[1..])
    }
  }

  /** Although every setter replaces the whole context, over any sequence of calls in a group whose policies can be read
      the group context behaves as two registers: each setter writes its own and the other keeps its value. */
  lemma {:induction false} SettersAreRegisters(g: Group, p: Policies, setters: seq<Setter>)
    requires RosterIn(g.extensions) == Ok(p.roster) && LifetimeIn(g.extensions) == Ok(p.lifetime)
    ensures var q, x := p.WriteAll(setters), ApplyAll(g, setters).extensions;
            && RosterIn(x) == Ok(q.roster) && LifetimeIn(x) == Ok(q.lifetime)
            && (x == g.extensions || Honest(x, q.roster, q.lifetime))
    ensures ApplyAll(g, setters).members == g.members
    decreases |setters|
  {
    hide RosterIn, LifetimeIn, Honest, Merged, SetLifetimeCommit, SetRolesCommit, Settable;
    if setters != [] {
      var next, q := Apply(g, setters[0]), p.Write(setters[0]);
      match setters[0] {
        case SetLifetime(seconds) =>
          LifetimeCommitIsHonest(g, seconds);
          HonestReads(next.extensions, q.roster, q.lifetime);
        case SetRoles(admin, moderators) =>
          RolesCommitIsHonest(g, admin, moderators);
          if Settable(admin, moderators) { HonestReads(next.extensions, q.roster, q.lifetime); }
      }
      SettersAreRegisters(next, q, setters[1..]);
    }
  }
}

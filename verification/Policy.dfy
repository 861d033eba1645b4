/** Who may commit what: the decision function of the group policy, and the table it implements. */
module Policy {
  import opened Prelude
  import opened Roster

  datatype Removal = Removal(target: Handle, targetKey: Bytes, selfRequested: bool)

  datatype CommitSummary = CommitSummary(
    committer: Handle,
    removals: seq<Removal>,
    adds: nat,
    changesRoster: bool,
    changesLifetime: bool,
    remaining: seq<Handle>)

  /** Keys whose revocation certificate the caller has verified. */
  datatype Context = Context(revoked: seq<Bytes>)

  /** The first objection to a removal, in order. */
  function FirstObjection(r: Roster, committer: Handle, removals: seq<Removal>, context: Context): Option<Rule> {
    if removals == [] then None
    else
      var removal := removals[0];
      if removal.selfRequested || removal.targetKey in context.revoked then
        FirstObjection(r, committer, removals[1..], context)
      else if !r.CanModerate(committer) then Some(RemovalNeedsRole)
      else if r.IsModerator(removal.target) && !r.IsAdmin(committer) then Some(OnlyAdminRemovesModerator)
      else FirstObjection(r, committer, removals[1..], context)
  }

  function Authorize(roster: Option<Roster>, commit: CommitSummary, context: Context): Result<(), CryptoError> {
    if roster.None? then Ok(())
    else
      var r := roster.value;
      if commit.changesRoster && !r.IsAdmin(commit.committer) then Err(PolicyViolation(OnlyAdminChangesRoles))
      else if commit.changesLifetime && !r.CanModerate(commit.committer) then Err(PolicyViolation(LifetimeNeedsRole))
      else if commit.adds > 0 && !r.CanModerate(commit.committer) then Err(PolicyViolation(AddNeedsRole))
      else
        match FirstObjection(r, commit.committer, commit.removals, context)
        case Some(rule) => Err(PolicyViolation(rule))
        case None =>
          if r.admin in commit.remaining then Ok(()) else Err(PolicyViolation(WouldLoseAdmin))
  }

  // ------------------------------------------------------------------ the table

  /** One row of the table per removal: a departure and a revoked device go with anybody's commit, a moderator
      with the admin's, anyone else with a role holder's. */
  predicate MayRemove(r: Roster, committer: Handle, removal: Removal, context: Context) {
    || removal.selfRequested
    || removal.targetKey in context.revoked
    || r.IsAdmin(committer)
    || (r.IsModerator(committer) && !r.IsModerator(removal.target))
  }

  ghost predicate Permitted(r: Roster, commit: CommitSummary, context: Context) {
    && (commit.changesRoster ==> r.IsAdmin(commit.committer))
    && (commit.changesLifetime || commit.adds > 0 ==> r.CanModerate(commit.committer))
    && (forall removal | removal in commit.removals :: MayRemove(r, commit.committer, removal, context))
    && r.admin in commit.remaining
  }

  lemma {:induction false} NoObjection(r: Roster, committer: Handle, removals: seq<Removal>, context: Context)
    ensures FirstObjection(r, committer, removals, context).None?
       <==> forall removal | removal in removals :: MayRemove(r, committer, removal, context)
  {
    if removals != [] {
      NoObjection(r, committer, removals[1..], context);
      assert removals[0] in removals;
      assert forall removal :: removal in removals <==> removal == removals[0] || removal in removals[1..];
    }
  }

  lemma AuthorizeIsTheTable(r: Roster, commit: CommitSummary, context: Context)
    ensures Authorize(Some(r), commit, context).Ok? <==> Permitted(r, commit, context)
  {
    NoObjection(r, commit.committer, commit.removals, context);
  }

  /** The rule a removal breaks, whichever comes first in the list: for one committer they all break the same. */
  lemma {:induction false} ObjectionNamesTheRule(r: Roster, committer: Handle, removals: seq<Removal>, context: Context)
    ensures FirstObjection(r, committer, removals, context).Some? ==>
              FirstObjection(r, committer, removals, context).value
              == if r.CanModerate(committer) then OnlyAdminRemovesModerator else RemovalNeedsRole
  {
    if removals != [] { ObjectionNamesTheRule(r, committer, removals[1..], context); }
  }

  /** The first line of the table a commit breaks, from the top. */
  ghost function BrokenRule(r: Roster, commit: CommitSummary, context: Context): Option<Rule> {
    if commit.changesRoster && !r.IsAdmin(commit.committer) then Some(OnlyAdminChangesRoles)
    else if commit.changesLifetime && !r.CanModerate(commit.committer) then Some(LifetimeNeedsRole)
    else if commit.adds > 0 && !r.CanModerate(commit.committer) then Some(AddNeedsRole)
    else if exists x :: x in commit.removals && !MayRemove(r, commit.committer, x, context) then
      Some(if r.CanModerate(commit.committer) then OnlyAdminRemovesModerator else RemovalNeedsRole)
    else if r.admin !in commit.remaining then Some(WouldLoseAdmin)
    else None
  }

  /** A refusal names the rule that was broken. */
  lemma RefusalNamesTheRule(r: Roster, commit: CommitSummary, context: Context)
    ensures Authorize(Some(r), commit, context)
         == match BrokenRule(r, commit, context)
            case None => Ok(())
            case Some(rule) => Err(PolicyViolation(rule))
    ensures BrokenRule(r, commit, context).None? <==> Permitted(r, commit, context)
  {
    NoObjection(r, commit.committer, commit.removals, context);
    ObjectionNamesTheRule(r, commit.committer, commit.removals, context);
  }

  /** Neither verdict nor rule depends on the order, or the repetition, of removals and remaining members. */
  lemma OrderIsIrrelevant(r: Roster, a: CommitSummary, b: CommitSummary, context: Context)
    requires b == a.(removals := b.removals, remaining := b.remaining)
    requires forall x :: x in a.removals <==> x in b.removals
    requires forall h :: h in a.remaining <==> h in b.remaining
    ensures Authorize(Some(r), a, context) == Authorize(Some(r), b, context)
  {
    RefusalNamesTheRule(r, a, context);
    RefusalNamesTheRule(r, b, context);
  }

  /** A removal that is neither the leaf's own request nor the eviction of a revoked key. */
  predicate NeedsRank(removal: Removal, context: Context) {
    !removal.selfRequested && removal.targetKey !in context.revoked
  }

  function Zeros(n: nat): (h: Handle)
    ensures |h| == n
  {
    if n == 0 then []
    else
      assert ([0] + Zeros(n - 1))[1..] == Zeros(n - 1);
      [0] + Zeros(n - 1)
  }

  /** A handle, or key, outside a finite list: longer than any in it. */
  function Unlisted(taken: seq<Bytes>): (h: Handle)
    ensures h !in taken
    ensures forall k | k in taken :: |k| < |h|
  {
    if taken == [] then Zeros(1)
    else
      var longer := Unlisted(taken[1..]);
      if |taken[0]| < |longer| then longer else Zeros(|taken[0]| + 1)
  }

  /** A credential that carries no handle reads as the empty one. Under a canonical roster such a committer can do
      what takes a role, each kind of it, exactly when the roster lists the empty handle as a moderator; it can never
      change the roster. */
  lemma NamelessCommitters(r: Roster, context: Context)
    requires Canonical(r)
    ensures (exists c: CommitSummary :: c.committer == [] && c.adds > 0 && Authorize(Some(r), c, context).Ok?)
       <==> [] in r.moderators
    ensures (exists c: CommitSummary :: c.committer == [] && c.changesLifetime && Authorize(Some(r), c, context).Ok?)
       <==> [] in r.moderators
    ensures (exists c: CommitSummary, x: Removal ::
               c.committer == [] && x in c.removals && NeedsRank(x, context) && Authorize(Some(r), c, context).Ok?)
       <==> [] in r.moderators
    ensures !exists c: CommitSummary :: c.committer == [] && c.changesRoster && Authorize(Some(r), c, context).Ok?
  {
    forall c: CommitSummary
      ensures Authorize(Some(r), c, context).Ok? <==> Permitted(r, c, context)
    {
      AuthorizeIsTheTable(r, c, context);
    }
    if [] in r.moderators {
      var x := Removal(r.admin, Unlisted(context.revoked), false);
      var adds := CommitSummary([], [], 1, false, false, [r.admin]);
      var lives := CommitSummary([], [], 0, false, true, [r.admin]);
      var evicts := CommitSummary([], [x], 0, false, false, [r.admin]);
      assert Permitted(r, adds, context) && Permitted(r, lives, context) && Permitted(r, evicts, context);
      assert x in evicts.removals && NeedsRank(x, context);
    }
  }

  /** Rosters that list it are canonical and travel through the byte form. */
  lemma NamelessModeratorsTravel(admin: Handle)
    requires admin != [] && Fits(admin)
    ensures Canonical(Roster(admin, [[]])) && Decoded(Layout(admin, [[]])) == Ok(Roster(admin, [[]]))
  {
    assert Encoded(Roster(admin, [[]])) == Ok(Layout(admin, [[]]));
    RosterRoundTrip(Roster(admin, [[]]));
  }

  /** A client that has verified more revocations accepts at least as much. */
  lemma RevocationsOnlyOpen(r: Roster, commit: CommitSummary, fewer: Context, more: Context)
    requires forall k | k in fewer.revoked :: k in more.revoked
    requires Authorize(Some(r), commit, fewer).Ok?
    ensures Authorize(Some(r), commit, more).Ok?
  {
    AuthorizeIsTheTable(r, commit, fewer);
    AuthorizeIsTheTable(r, commit, more);
  }
}

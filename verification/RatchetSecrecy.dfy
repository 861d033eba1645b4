/** What a stolen state opens. Whoever copies a party's whole state also sees every ratchet key on the wire, and
    may run every derivation forward; module documentation promises forward secrecy and recovery after one round
    trip, and the two are halves of one exact statement. */
module RatchetSecrecy {
  import opened Prelude
  import opened RatchetKeys
  import opened Ratchet
  import opened RatchetRuns
  import X3dh

  // ------------------------------------------------------------------ what can be derived

  /** Key agreement needs one of the two scalars. */
  ghost predicate KnowsDh(secret: nat, d: DhOutput) {
    d.low == secret || d.high == secret
  }

  ghost predicate KnowsRoot(s: State, rk: RootKey) {
    rk == s.rk ||
    match rk
    case X3dhKey(outputs) => forall d | d in outputs :: KnowsDh(s.dhs, d)
    case NextRoot(r, d) => KnowsRoot(s, r) && KnowsDh(s.dhs, d)
  }

  ghost predicate KnowsChain(s: State, ck: ChainKey) {
    Some(ck) == s.cks || Some(ck) == s.ckr ||
    match ck
    case FirstChain(rk, d) => KnowsRoot(s, rk) && KnowsDh(s.dhs, d)
    case NextChain(c) => KnowsChain(s, c)
  }

  ghost predicate KnowsKey(s: State, mk: MessageKey) {
    (exists slot :: slot in s.skipped && s.skipped[slot] == mk) || KnowsChain(s, mk.ck)
  }

  /** The shared secret of X3DH rests on an agreement the scalar has no part in. */
  ghost predicate Apart(sk: RootKey, secret: nat) {
    sk.X3dhKey? && exists d :: d in sk.outputs && !KnowsDh(secret, d)
  }

  // ------------------------------------------------------------------ keys name their messages

  /** No two positions of any two chains share a key. */
  lemma ChainsApart(sk: RootKey, keys: seq<nat>, k: nat, n: nat, k': nat, n': nat)
    requires 0 < k < |keys| && 0 < k' < |keys|
    ensures Advance(ChainAt(sk, keys, k), n) == Advance(ChainAt(sk, keys, k'), n') <==> k == k' && n == n'
  {
    AdvanceFrom(ChainAt(sk, keys, k), n);
    AdvanceFrom(ChainAt(sk, keys, k'), n');
    RootAtDepth(sk, keys, k - 1);
    RootAtDepth(sk, keys, k' - 1);
  }

  // ------------------------------------------------------------------ what a party in epoch e gives away

  lemma KnowsAgreed(keys: seq<nat>, e: nat, k: nat)
    requires e < |keys| && 0 < k < |keys|
    requires forall i, j | 0 <= i < j < |keys| :: keys[i] != keys[j]
    ensures KnowsDh(keys[e], Agreed(keys, k)) <==> k == e || k == e + 1
  {
  }

  /** Its own root, and the next one. */
  lemma {:induction false} KnowsRootExactly(l: Log, e: nat, s: State, keys: seq<nat>, k: nat)
    requires LogOk(l) && PartyOk(l, e, s) && l.keys <= keys && k < |keys|
    requires forall i, j | 0 <= i < j < |keys| :: keys[i] != keys[j]
    requires Apart(l.sk, s.dhs)
    ensures KnowsRoot(s, RootAt(l.sk, keys, k)) <==> k == e || k == e + 1
  {
    DerivationStable(l.sk, l.keys, keys, e);
    RootAtDepth(l.sk, keys, k);
    RootAtDepth(l.sk, keys, e);
    if k > 0 {
      KnowsRootExactly(l, e, s, keys, k - 1);
      KnowsAgreed(keys, e, k);
    }
  }

  /** The chain it sends on and the one it receives on, from where they stand, and the peer's next chain. */
  lemma {:induction false} KnowsChainExactly(l: Log, e: nat, s: State, keys: seq<nat>, k: nat, n: nat)
    requires LogOk(l) && PartyOk(l, e, s) && l.keys <= keys && 0 < k < |keys|
    requires forall i, j | 0 <= i < j < |keys| :: keys[i] != keys[j]
    requires Apart(l.sk, s.dhs)
    ensures KnowsChain(s, Advance(ChainAt(l.sk, keys, k), n))
       <==> k == e + 1 || (k == e && n >= s.ns) || (k + 1 == e && n >= s.nr)
  {
    CurrentChains(l, e, s, keys, k, n);
    if n == 0 {
      KnowsRootExactly(l, e, s, keys, k - 1);
      KnowsAgreed(keys, e, k);
    } else {
      KnowsChainExactly(l, e, s, keys, k, n - 1);
    }
  }

  lemma CurrentChains(l: Log, e: nat, s: State, keys: seq<nat>, k: nat, n: nat)
    requires LogOk(l) && PartyOk(l, e, s) && l.keys <= keys && 0 < k < |keys|
    ensures var ck := Advance(ChainAt(l.sk, keys, k), n);
            && (Some(ck) == s.cks <==> k == e && n == s.ns)
            && (Some(ck) == s.ckr <==> k + 1 == e && n == s.nr)
  {
    if e > 0 {
      DerivationStable(l.sk, l.keys, keys, e);
      ChainsApart(l.sk, keys, k, n, e, s.ns);
    }
    if e >= 2 {
      DerivationStable(l.sk, l.keys, keys, e - 1);
      ChainsApart(l.sk, keys, k, n, e - 1, s.nr);
    }
  }

  /** The stash gives away the messages it waits for. */
  lemma KnowsStashExactly(l: Log, e: nat, s: State, keys: seq<nat>, id: Id)
    requires LogOk(l) && PartyOk(l, e, s) && l.keys <= keys && 0 < id.chain < |keys|
    ensures (exists slot :: slot in s.skipped
                            && s.skipped[slot] == MessageKey(Advance(ChainAt(l.sk, keys, id.chain), id.n)))
       <==> Waiting(l, e, s.nr, id)
  {
    var mk := MessageKey(Advance(ChainAt(l.sk, keys, id.chain), id.n));
    if slot :| slot in s.skipped && s.skipped[slot] == mk {
      assert Known(l, slot.dh);
      var k: nat :| k < |l.keys| && slot.dh == PublicKey(l.keys[k]);
      var other := Id(k, slot.n);
      assert slot == SlotOf(l, other) && Waiting(l, e, s.nr, other);
      DerivationStable(l.sk, l.keys, keys, k);
      ChainsApart(l.sk, keys, id.chain, id.n, k, slot.n);
    }
    if Waiting(l, e, s.nr, id) {
      DerivationStable(l.sk, l.keys, keys, id.chain);
      assert SlotOf(l, id) in s.skipped && s.skipped[SlotOf(l, id)] == mk;
    }
  }

  /** All of it: the messages a party in epoch `e` can be made to open, by chain and position. */
  lemma StateOpens(l: Log, e: nat, s: State, keys: seq<nat>, id: Id)
    requires LogOk(l) && PartyOk(l, e, s) && l.keys <= keys && 0 < id.chain < |keys|
    requires forall i, j | 0 <= i < j < |keys| :: keys[i] != keys[j]
    requires Apart(l.sk, s.dhs)
    requires id.chain + 1 < e ==> id.n < |l.sent[id.chain]|
    ensures KnowsKey(s, MessageKey(Advance(ChainAt(l.sk, keys, id.chain), id.n)))
       <==> if id.chain % 2 != e % 2 then id.chain <= e + 1 && id !in l.read
            else id.chain == e && id.n >= |l.sent[e]|
  {
    KnowsChainExactly(l, e, s, keys, id.chain, id.n);
    KnowsStashExactly(l, e, s, keys, id);
  }

  // ------------------------------------------------------------------ over runs

  /** Keys and past chains stay, and epochs never fall. */
  ghost predicate Follows(w: World, v: World) {
    && w.log.keys <= v.log.keys && w.log.sk == v.log.sk
    && w.ei <= v.ei && w.er <= v.er
    && |w.log.sent| <= |v.log.sent|
    && (forall k: nat | k < |w.log.sent| :: w.log.sent[k] <= v.log.sent[k])
    && forall k: nat | k < w.ei && k < w.er && k < |w.log.sent| :: v.log.sent[k] == w.log.sent[k]
  }

  lemma FollowsTransitive(u: World, v: World, w: World)
    requires Follows(u, v) && Follows(v, w)
    ensures Follows(u, w)
  {
    forall k: nat | k < |u.log.sent|
      ensures u.log.sent[k] <= w.log.sent[k]
    {
      assert u.log.sent[k] <= v.log.sent[k];
    }
    forall k: nat | k < u.ei && k < u.er && k < |u.log.sent|
      ensures w.log.sent[k] == u.log.sent[k]
    {
      assert v.log.sent[k] == u.log.sent[k];
    }
  }

  lemma WriteFollows(w: World, p: Party, plaintext: Bytes)
    requires LogOk(w.log) && Allowed(w, Write(p, plaintext))
    ensures Follows(w, Next(w, Write(p, plaintext)))
  {
  }

  lemma DeliverFollows(w: World, id: Id, drawn: nat)
    requires LogOk(w.log) && Allowed(w, Deliver(id, drawn))
    ensures Follows(w, Next(w, Deliver(id, drawn)))
  {
  }

  lemma DamageFollows(w: World, id: Id, c: Ciphertext, drawn: nat)
    requires LogOk(w.log) && Allowed(w, Damage(id, c, drawn))
    ensures Follows(w, Next(w, Damage(id, c, drawn)))
  {
  }

  lemma NextFollows(w: World, ev: Event)
    requires LogOk(w.log) && Allowed(w, ev)
    ensures Follows(w, RatchetRuns.Next(w, ev))
  {
    match ev
    case Write(p, plaintext) => WriteFollows(w, p, plaintext);
    case Deliver(id, drawn) => DeliverFollows(w, id, drawn);
    case Damage(id, c, drawn) => DamageFollows(w, id, c, drawn);
  }

  lemma StepFollows(ws: seq<World>, evs: seq<Event>, k: nat)
    requires IsRun(ws, evs) && k < |evs|
    ensures Follows(ws[k], ws[k + 1])
  {
    RunKeeps(ws, evs, k);
    NextFollows(ws[k], evs[k]);
  }

  lemma {:induction false} StepsFollow(ws: seq<World>, i: nat, j: nat)
    requires i <= j < |ws| && forall k | i <= k < j :: Follows(ws[k], ws[k + 1])
    ensures Follows(ws[i], ws[j])
    decreases j
  {
    if i < j {
      StepsFollow(ws, i, j - 1);
      FollowsTransitive(ws[i], ws[j - 1], ws[j]);
    }
  }

  lemma LaterFollows(ws: seq<World>, evs: seq<Event>, i: nat, j: nat)
    requires IsRun(ws, evs) && i <= j <= |evs|
    ensures Follows(ws[i], ws[j])
  {
    forall k | i <= k < j
      ensures Follows(ws[k], ws[k + 1])
    {
      StepFollows(ws, evs, k);
    }
    StepsFollow(ws, i, j);
  }

  /** What a world says of one of its parties. */
  ghost predicate InPlace(w: World, p: Party) {
    && LogOk(w.log) && PartyOk(w.log, w.Epoch(p), w.Of(p))
    && w.Epoch(p) <= w.ei + 1 && w.Epoch(p) <= w.er + 1
    && w.Epoch(p) % 2 == if p.Initiator? then 1 else 0
  }

  lemma PartiesInPlace(w: World, p: Party)
    requires WorldOk(w)
    ensures InPlace(w, p)
  {
  }

  lemma StolenFrom(w: World, v: World, p: Party, id: Id)
    requires InPlace(w, p) && LogOk(v.log) && Follows(w, v) && Apart(w.log.sk, w.Of(p).dhs) && Sent(v.log, id)
    ensures KnowsKey(w.Of(p), KeyOf(v.log, id)) <==>
              if Reader(id) == p then id.chain <= w.Epoch(p) + 1 && id !in w.log.read
              else id.chain == w.Epoch(p) && id.n >= |w.log.sent[w.Epoch(p)]|
  {
    if id.chain + 1 < w.Epoch(p) {
      assert v.log.sent[id.chain] == w.log.sent[id.chain];
    }
    StateOpens(w.log, w.Epoch(p), w.Of(p), v.log.keys, id);
  }

  /** Of what a run sends, the messages a state stolen from `p` in world `w` opens: to the victim, what it had not
      read then, up to the end of the peer's next chain; from the victim, what it sends until its ratchet turns. */
  ghost predicate OpensFrom(w: World, p: Party, id: Id)
    requires w.Epoch(p) < |w.log.sent|
  {
    if Reader(id) == p then id.chain <= w.Epoch(p) + 1 && id !in w.log.read
    else id.chain == w.Epoch(p) && id.n >= |w.log.sent[w.Epoch(p)]|
  }

  /** A state stolen at one moment of a run opens exactly these. So what was read before stays closed, and so does
      everything on chains begun after one full round trip. */
  lemma StolenStateOpens(ws: seq<World>, evs: seq<Event>, i: nat, j: nat, p: Party, id: Id)
    requires IsRun(ws, evs) && i <= j <= |evs|
    requires Apart(ws[i].log.sk, ws[i].Of(p).dhs)
    ensures WorldOk(ws[i]) && WorldOk(ws[j])
    ensures Sent(ws[j].log, id) ==>
              (KnowsKey(ws[i].Of(p), KeyOf(ws[j].log, id)) <==> OpensFrom(ws[i], p, id))
  {
    RunKeeps(ws, evs, i);
    RunKeeps(ws, evs, j);
    LaterFollows(ws, evs, i, j);
    PartiesInPlace(ws[i], p);
    if Sent(ws[j].log, id) { StolenFrom(ws[i], ws[j], p, id); }
  }

  // ------------------------------------------------------------------ runs that a handshake opened

  /** Every agreement of the handshake leaves out some scalar: the second one, all but the ephemeral and the
      responder's identity. */
  lemma HandshakeApart(identity: X3dh.IdentityKeyPair, store: X3dh.PreKeyStore, ephemeral: nat, secret: nat)
    requires secret != ephemeral && secret != store.identity.dh
    ensures X3dh.Initiate(identity, X3dh.Bundle(store), ephemeral).Ok?
    ensures Apart(X3dh.Initiate(identity, X3dh.Bundle(store), ephemeral).value.0.sharedSecret, secret)
  {
    var sk := X3dh.Initiate(identity, X3dh.Bundle(store), ephemeral).value.0.sharedSecret;
    assert sk.outputs[1] == DiffieHellman(ephemeral, PublicKey(store.identity.dh));
    assert sk.outputs[1] in sk.outputs && !KnowsDh(secret, sk.outputs[1]);
  }

  /** A run that starts from what the two sides of a handshake make of it. */
  ghost predicate HandshakeRun(ws: seq<World>, evs: seq<Event>,
                               identity: X3dh.IdentityKeyPair, store: X3dh.PreKeyStore, ephemeral: nat) {
    && IsRun(ws, evs)
    && X3dh.Initiate(identity, X3dh.Bundle(store), ephemeral).Ok?
    && var (mine, initial) := X3dh.Initiate(identity, X3dh.Bundle(store), ephemeral).value;
    && X3dh.Respond(store, initial).Ok?
    && exists first: nat :: ws[0] == Start(mine, X3dh.Respond(store, initial).value, store.signedPrekey, first)
  }

  /** Ratchet keys are drawn for the ratchet alone. */
  ghost predicate RatchetKeysFresh(w: World, store: X3dh.PreKeyStore, ephemeral: nat) {
    ephemeral !in w.log.keys && store.identity.dh !in w.log.keys
  }

  lemma ApartInRun(ws: seq<World>, evs: seq<Event>, identity: X3dh.IdentityKeyPair, store: X3dh.PreKeyStore,
                   ephemeral: nat, i: nat, p: Party)
    requires HandshakeRun(ws, evs, identity, store, ephemeral) && i <= |evs|
    requires RatchetKeysFresh(ws[i], store, ephemeral)
    ensures Apart(ws[i].log.sk, ws[i].Of(p).dhs)
  {
    RunKeeps(ws, evs, i);
    LaterFollows(ws, evs, 0, i);
    PartiesInPlace(ws[i], p);
    HandshakeApart(identity, store, ephemeral, ws[i].Of(p).dhs);
  }

  /** In every run that a handshake opened, with ratchet keys of its own: the whole of what a stolen state opens. */
  lemma HandshakeStateOpens(ws: seq<World>, evs: seq<Event>, identity: X3dh.IdentityKeyPair, store: X3dh.PreKeyStore,
                            ephemeral: nat, i: nat, j: nat, p: Party, id: Id)
    requires HandshakeRun(ws, evs, identity, store, ephemeral) && i <= j <= |evs|
    requires RatchetKeysFresh(ws[i], store, ephemeral)
    ensures WorldOk(ws[i]) && WorldOk(ws[j])
    ensures Sent(ws[j].log, id) ==>
              (KnowsKey(ws[i].Of(p), KeyOf(ws[j].log, id)) <==> OpensFrom(ws[i], p, id))
  {
    ApartInRun(ws, evs, identity, store, ephemeral, i, p);
    StolenStateOpens(ws, evs, i, j, p, id);
  }

  /** Forward secrecy: no state, of either party, opens a message that was read, or lost to a damaged copy, before it
      was stolen. */
  lemma ReadStaysClosed(ws: seq<World>, evs: seq<Event>, identity: X3dh.IdentityKeyPair, store: X3dh.PreKeyStore,
                        ephemeral: nat, i: nat, p: Party, id: Id)
    requires HandshakeRun(ws, evs, identity, store, ephemeral) && i <= |evs| && id in ws[i].log.read
    requires RatchetKeysFresh(ws[i], store, ephemeral)
    ensures WorldOk(ws[i]) && Sent(ws[i].log, id) && !KnowsKey(ws[i].Of(p), KeyOf(ws[i].log, id))
  {
    HandshakeStateOpens(ws, evs, identity, store, ephemeral, i, i, p, id);
  }

  /** Recovery: what either party writes once the victim has turned its ratchet, on that chain or a later one, is
      closed to the thief for ever. */
  lemma RoundTripHeals(ws: seq<World>, evs: seq<Event>, identity: X3dh.IdentityKeyPair, store: X3dh.PreKeyStore,
                       ephemeral: nat, i: nat, k: nat, j: nat, p: Party, q: Party, plaintext: Bytes)
    requires HandshakeRun(ws, evs, identity, store, ephemeral) && i <= k < j <= |evs|
    requires RatchetKeysFresh(ws[i], store, ephemeral)
    requires evs[k] == Write(q, plaintext) && ws[k].Epoch(q) >= ws[i].Epoch(p) + 2
    ensures WorldOk(ws[j])
    ensures var id := Id(ws[k].Epoch(q), ws[k].Of(q).ns);
            Sent(ws[j].log, id) && !KnowsKey(ws[i].Of(p), KeyOf(ws[j].log, id))
  {
    var id := Id(ws[k].Epoch(q), ws[k].Of(q).ns);
    RunKeeps(ws, evs, k);
    RunKeeps(ws, evs, j);
    WrittenIsSent(ws[k], q, plaintext);
    LaterFollows(ws, evs, k + 1, j);
    HandshakeStateOpens(ws, evs, identity, store, ephemeral, i, j, p, id);
  }

  lemma WrittenIsSent(w: World, q: Party, plaintext: Bytes)
    requires WorldOk(w) && Allowed(w, Write(q, plaintext)) && w.Epoch(q) > 0
    ensures var sent := Next(w, Write(q, plaintext)).log.sent;
            w.Epoch(q) < |sent| && w.Of(q).ns < |sent[w.Epoch(q)]|
  {
    WriteKeeps(w, q, plaintext);
  }
}

/** Receptions outside the genuine order: second copies of messages already read, and messages nobody in the session
    wrote. When they leave the state alone, when they turn the ratchet towards a key other than the peer's next, and
    what is left of the session after that. */
module RatchetReplay {
  import opened Prelude
  import opened RatchetKeys
  import opened Ratchet
  import opened RatchetRuns
  import X3dh

  /** A second copy of a message already read on the current chain changes nothing. */
  lemma {:induction false} ReplayOnCurrentChain(w: World, id: Id, drawn: nat)
    requires WorldOk(w) && id in w.log.read && id.chain + 1 == w.Epoch(Reader(id))
    ensures var r := w.Of(Reader(id));
            Decrypted(r, w.wire[id], drawn) == (r, Err(MessageKeyGone))
  {
    NotStashed(w.log, w.Epoch(Reader(id)), w.Of(Reader(id)), id);
  }

  lemma NotStashed(l: Log, e: nat, r: State, id: Id)
    requires LogOk(l) && PartyOk(l, e, r) && Sent(l, id) && id in l.read && id.chain % 2 != e % 2
    ensures SlotOf(l, id) !in r.skipped
    ensures id.chain < e && (id.chain + 1 == e ==> id.n < r.nr)
    ensures r.dhr == Some(PublicKey(l.keys[id.chain])) <==> id.chain + 1 == e
    ensures e >= 2 && r.ckr.Some?
  {
  }

  /** A second copy of a message read on a chain since abandoned is never opened. It is refused before anything
      moves exactly when the length it announces for the chain before is behind the current position, or too
      far ahead; otherwise the ratchet has turned towards the old key when the seal fails. */
  lemma ReplayOnOldChain(w: World, id: Id, drawn: nat)
    requires WorldOk(w) && id in w.log.read && id.chain + 1 < w.Epoch(Reader(id)) && drawn !in w.log.keys
    ensures var r, m := w.Of(Reader(id)), w.wire[id];
            var (s, result) := Decrypted(r, m, drawn);
            && result.Err?
            && (s == r <==> m.header.pn < r.nr || m.header.pn - r.nr > MAX_SKIP)
  {
    var l, p := w.log, Reader(id);
    var r, m, e := w.Of(p), w.wire[id], w.Epoch(p);
    NotStashed(l, e, r, id);
    ForeignChain(l, e, FirstChain(r.rk, DiffieHellman(r.dhs, m.header.dh)), id);
    ForeignReception(r, m, drawn);
  }

  /** In every run, with whatever damaged on the way: a genuine message handed over at any moment opens if and only if
      no hand-over before, of itself or of a damaged copy of it, has spent its key, and neither of the skips it asks
      for is too long; and then it opens to its own plaintext. */
  lemma OpensExactly(ws: seq<World>, evs: seq<Event>, i: nat, id: Id, drawn: nat)
    requires IsRun(ws, evs) && i <= |evs| && id in ws[i].wire && drawn !in ws[i].log.keys
    ensures WorldOk(ws[i]) && Sent(ws[i].log, id)
    ensures var r := ws[i].Of(Reader(id));
            var owed := Owed(r, ws[i].wire[id].header, ws[i].log.sent[id.chain][id.n]);
            && (Outcome(ws[i], id, drawn).Ok? <==> owed.Ok? && forall j: nat | j < i :: !Spends(ws, evs, j, id))
            && (Outcome(ws[i], id, drawn).Ok? ==> Outcome(ws[i], id, drawn) == owed)
  {
    hide PartyOk, Decrypted, Owed, Spends, Next;
    RunKeeps(ws, evs, i);
    SpentExactly(ws, evs, i, id);
    if id in ws[i].log.read {
      ReadIsBehind(ws[i], id);
      if id.chain + 1 == ws[i].Epoch(Reader(id)) {
        ReplayOnCurrentChain(ws[i], id, drawn);
      } else {
        ReplayOnOldChain(ws[i], id, drawn);
      }
    } else {
      DeliverKeeps(ws[i], id, drawn);
    }
  }

  /** What `decrypt` does with a message under an unknown ratchet key that the derived chain does not open. */
  lemma ForeignReception(r: State, m: Message, drawn: nat)
    requires Slot(m.header.dh, m.header.n) !in r.skipped && r.dhr != Some(m.header.dh)
    requires r.ckr.Some? && r.dhr.Some? && drawn != r.dhs
    requires var chain := FirstChain(r.rk, DiffieHellman(r.dhs, m.header.dh));
             m.ciphertext.mk != MessageKey(Advance(chain, m.header.n))
    ensures var (s, result) := Decrypted(r, m, drawn);
            && result.Err?
            && (s == r <==> m.header.pn < r.nr || m.header.pn - r.nr > MAX_SKIP)
  {
    if Skip(r, m.header.pn).Ok? {
      assert Turn(Skip(r, m.header.pn).value, m.header.dh, drawn).dhs != r.dhs;
    }
  }

  /** A chain seeded from the root of another epoch holds no key of chain `id.chain`. */
  lemma ForeignChain(l: Log, e: nat, chain: ChainKey, id: Id)
    requires LogOk(l) && e < |l.keys| && 0 < id.chain < |l.keys| && id.chain != e + 1
    requires chain.FirstChain? && chain.rk == RootAt(l.sk, l.keys, e)
    ensures Advance(chain, id.n) != Advance(ChainAt(l.sk, l.keys, id.chain), id.n)
  {
    RootAtDepth(l.sk, l.keys, e);
    RootAtDepth(l.sk, l.keys, id.chain - 1);
    if Advance(chain, id.n) == Advance(ChainAt(l.sk, l.keys, id.chain), id.n) {
      AdvanceInjective(chain, ChainAt(l.sk, l.keys, id.chain), id.n);
    }
  }

  // ------------------------------------------------------------------ after such a turn

  /** No chain of the genuine derivation starts where this key's chain starts. */
  ghost predicate Alien(sk: RootKey, keys: seq<nat>, ck: ChainKey) {
    forall k: nat | 0 < k < |keys| :: Base(ck) != ChainAt(sk, keys, k)
  }

  ghost predicate OffTheRoots(sk: RootKey, keys: seq<nat>, rk: RootKey) {
    RootDepth(rk) > RootDepth(sk) && forall k: nat | k < |keys| :: rk != RootAt(sk, keys, k)
  }

  ghost predicate Stashed(s: State, mk: MessageKey) {
    exists slot :: slot in s.skipped && s.skipped[slot] == mk
  }

  /** Root and both chains have left the derivation the peer follows, and beyond the keys `first` had set aside none of
      its keys are to be found. */
  ghost predicate Estranged(sk: RootKey, keys: seq<nat>, first: State, s: State) {
    && OffTheRoots(sk, keys, s.rk)
    && s.ckr.Some? && Alien(sk, keys, s.ckr.value)
    && s.cks.Some? && Base(s.cks.value).FirstChain? && OffTheRoots(sk, keys, Base(s.cks.value).rk)
    && forall slot | slot in s.skipped :: Stashed(first, s.skipped[slot]) || Alien(sk, keys, s.skipped[slot].ck)
  }

  lemma OffTheRootsStays(sk: RootKey, keys: seq<nat>, rk: RootKey, d: DhOutput)
    requires OffTheRoots(sk, keys, rk)
    ensures OffTheRoots(sk, keys, NextRoot(rk, d))
    ensures Alien(sk, keys, FirstChain(rk, d))
  {
    forall k: nat | k < |keys|
      ensures NextRoot(rk, d) != RootAt(sk, keys, k)
    {
      RootAtDepth(sk, keys, k);
      if k > 0 { assert rk != RootAt(sk, keys, k - 1); }
    }
  }

  lemma AlienAdvance(sk: RootKey, keys: seq<nat>, ck: ChainKey, n: nat)
    requires Alien(sk, keys, ck)
    ensures Alien(sk, keys, Advance(ck, n))
  {
    AdvanceFrom(ck, n);
  }

  lemma EstrangedSkips(sk: RootKey, keys: seq<nat>, first: State, s: State, until: nat)
    requires Estranged(sk, keys, first, s) && Skip(s, until).Ok?
    ensures Estranged(sk, keys, first, Skip(s, until).value)
  {
    var t := Skip(s, until).value;
    AlienAdvance(sk, keys, s.ckr.value, until - s.nr);
    StashContents(s.dhr.value, s.ckr.value, s.nr, until);
    forall slot | slot in t.skipped
      ensures Stashed(first, t.skipped[slot]) || Alien(sk, keys, t.skipped[slot].ck)
    {
      if slot in Stash(s.dhr.value, s.ckr.value, s.nr, until) {
        AlienAdvance(sk, keys, s.ckr.value, slot.n - s.nr);
      }
    }
  }

  lemma EstrangedTurns(sk: RootKey, keys: seq<nat>, first: State, s: State, dh: PublicKey, drawn: nat)
    requires Estranged(sk, keys, first, s)
    ensures Estranged(sk, keys, first, Turn(s, dh, drawn))
  {
    OffTheRootsStays(sk, keys, s.rk, DiffieHellman(s.dhs, dh));
    OffTheRootsStays(sk, keys, NextRoot(s.rk, DiffieHellman(s.dhs, dh)), DiffieHellman(drawn, dh));
  }

  lemma EstrangedConsumes(sk: RootKey, keys: seq<nat>, first: State, s: State, m: Message)
    requires Estranged(sk, keys, first, s)
    ensures Estranged(sk, keys, first, Consume(s, m).0)
  {
    AlienAdvance(sk, keys, s.ckr.value, 1);
    assert Advance(s.ckr.value, 0) == s.ckr.value;
  }

  lemma EstrangedReceives(sk: RootKey, keys: seq<nat>, first: State, s: State, m: Message)
    requires Estranged(sk, keys, first, s)
    ensures Estranged(sk, keys, first, Receive(s, m).0)
    ensures Receive(s, m).1.Ok? ==> Alien(sk, keys, m.ciphertext.mk.ck)
  {
    if Skip(s, m.header.n).Ok? {
      EstrangedSkips(sk, keys, first, s, m.header.n);
      EstrangedConsumes(sk, keys, first, Skip(s, m.header.n).value, m);
    }
  }

  /** Whatever message arrives, the estrangement stays; and what opens was set aside before, or is not genuine. */
  lemma EstrangedDecrypts(sk: RootKey, keys: seq<nat>, first: State, s: State, m: Message, drawn: nat)
    requires Estranged(sk, keys, first, s)
    ensures Estranged(sk, keys, first, Decrypted(s, m, drawn).0)
    ensures Decrypted(s, m, drawn).1.Ok? ==> Stashed(first, m.ciphertext.mk) || Alien(sk, keys, m.ciphertext.mk.ck)
  {
    if Slot(m.header.dh, m.header.n) in s.skipped {
    } else if s.dhr != Some(m.header.dh) {
      if Skip(s, m.header.pn).Ok? {
        var settled := Skip(s, m.header.pn).value;
        EstrangedSkips(sk, keys, first, s, m.header.pn);
        EstrangedTurns(sk, keys, first, settled, m.header.dh, drawn);
        EstrangedReceives(sk, keys, first, Turn(settled, m.header.dh, drawn), m);
      }
    } else {
      EstrangedReceives(sk, keys, first, s, m);
    }
  }

  /** Anything a party does next. */
  datatype Act = Get(message: Message, drawn: nat) | Put(plaintext: Bytes)

  function Acted(s: State, act: Act): State {
    match act
    case Get(m, drawn) => Decrypted(s, m, drawn).0
    case Put(plaintext) => Encrypted(s, plaintext).0
  }

  function ActedAll(s: State, acts: seq<Act>): State {
    if acts == [] then s else Acted(ActedAll(s, acts[..|acts| - 1]), acts[|acts| - 1])
  }

  lemma {:induction false} EstrangedForEver(sk: RootKey, keys: seq<nat>, s: State, acts: seq<Act>)
    requires Estranged(sk, keys, s, s)
    ensures Estranged(sk, keys, s, ActedAll(s, acts))
  {
    if acts != [] {
      var before := ActedAll(s, acts[..|acts| - 1]);
      EstrangedForEver(sk, keys, s, acts[..|acts| - 1]);
      match acts[|acts| - 1] {
        case Get(m, drawn) => EstrangedDecrypts(sk, keys, s, before, m, drawn);
        case Put(plaintext) =>
      }
    }
  }

  /** What `decrypt` reads of a message before anything is authenticated: a header that turns the ratchet of a party in
      epoch `e`, and not to the next key of `keys`. */
  predicate TurnsAside(r: State, h: Header, e: nat, keys: seq<nat>) {
    && Slot(h.dh, h.n) !in r.skipped && r.dhr != Some(h.dh)
    && (if e < 2 then h.pn == 0 else r.nr <= h.pn <= r.nr + MAX_SKIP)
    && (e + 1 < |keys| ==> h.dh != PublicKey(keys[e + 1]))
  }

  /** Root and both chains have left the derivation of `keys`. */
  ghost predicate Astray(sk: RootKey, keys: seq<nat>, s: State) {
    && OffTheRoots(sk, keys, s.rk) && s.ckr.Some? && Alien(sk, keys, s.ckr.value)
    && s.cks.Some? && Base(s.cks.value).FirstChain? && OffTheRoots(sk, keys, Base(s.cks.value).rk)
  }

  /** The turn itself: a state that follows a key other than the peer's next one leaves the derivation. */
  lemma WrongTurnEstranges(l: Log, e: nat, r: State, keys: seq<nat>, dh: PublicKey, drawn: nat)
    requires LogOk(l) && e < |l.keys| && r.rk == RootAt(l.sk, l.keys, e) && r.dhs == l.keys[e] && l.keys <= keys
    requires e + 1 < |keys| ==> dh != PublicKey(keys[e + 1])
    ensures Astray(l.sk, keys, Turn(r, dh, drawn))
  {
    hide RootAt, ChainAt, OffTheRoots, Alien, DiffieHellman;
    var d := DiffieHellman(r.dhs, dh);
    DerivationStable(l.sk, l.keys, keys, e);
    if e + 1 < |keys| { OneAgreementEach(keys, e, dh); }
    OtherAgreementLeaves(l.sk, keys, e, d);
    OffTheRootsStays(l.sk, keys, NextRoot(r.rk, d), DiffieHellman(drawn, dh));
  }

  lemma OneAgreementEach(keys: seq<nat>, e: nat, dh: PublicKey)
    requires e + 1 < |keys| && dh != PublicKey(keys[e + 1])
    ensures DiffieHellman(keys[e], dh) != Agreed(keys, e + 1)
  {
  }

  /** A derivation step that does not take the agreement of the next key leaves the genuine derivation. */
  lemma OtherAgreementLeaves(sk: RootKey, keys: seq<nat>, e: nat, d: DhOutput)
    requires e < |keys| && (e + 1 < |keys| ==> d != Agreed(keys, e + 1))
    ensures OffTheRoots(sk, keys, NextRoot(RootAt(sk, keys, e), d))
    ensures Alien(sk, keys, FirstChain(RootAt(sk, keys, e), d))
  {
    hide Agreed;
    RootAtDepth(sk, keys, e);
    forall i: nat | i < |keys|
      ensures NextRoot(RootAt(sk, keys, e), d) != RootAt(sk, keys, i)
      ensures i > 0 ==> FirstChain(RootAt(sk, keys, e), d) != ChainAt(sk, keys, i)
    {
      RootAtDepth(sk, keys, i);
      if i > 0 { RootAtDepth(sk, keys, i - 1); }
    }
  }

  /** And one that follows the next key receives on the next chain of the derivation. */
  lemma RightTurnFollows(l: Log, e: nat, r: State, keys: seq<nat>, m: Message, drawn: nat)
    requires LogOk(l) && e < |l.keys| && r.rk == RootAt(l.sk, l.keys, e) && r.dhs == l.keys[e] && l.keys <= keys
    requires e + 1 < |keys| && m.header.dh == PublicKey(keys[e + 1])
    ensures var s := Receive(Turn(r, m.header.dh, drawn), m).0;
            s.ckr.Some? && !Alien(l.sk, keys, s.ckr.value)
  {
    DerivationStable(l.sk, l.keys, keys, e);
    var chain := ChainAt(l.sk, keys, e + 1);
    AdvanceFrom(chain, m.header.n);
    AdvanceFrom(chain, 0);
    assert Base(NextChain(Advance(chain, m.header.n))) == chain;
  }

  lemma SkipOnly(r: State, until: nat)
    requires Skip(r, until).Ok?
    ensures var s := Skip(r, until).value;
            s.rk == r.rk && s.dhs == r.dhs && s.cks == r.cks && s.dhr == r.dhr
  {
  }

  lemma StayingReceptionKeepsTheRoot(r: State, m: Message, drawn: nat)
    requires Slot(m.header.dh, m.header.n) in r.skipped || r.dhr == Some(m.header.dh) || Skip(r, m.header.pn).Err?
    ensures Decrypted(r, m, drawn).0.rk == r.rk
  {
  }

  /** One header decides. Whatever reaches a party in step, with whatever ciphertext under it: the party is estranged
      from then on if the header turns its ratchet to a key other than the peer's next, and only then. */
  lemma EstrangedExactly(l: Log, e: nat, r: State, m: Message, drawn: nat, keys: seq<nat>)
    requires LogOk(l) && PartyOk(l, e, r) && l.keys <= keys
    ensures var s := Decrypted(r, m, drawn).0;
            Estranged(l.sk, keys, s, s) <==> TurnsAside(r, m.header, e, keys)
  {
    hide StashOk, Receive, Alien, OffTheRoots, Astray;
    var s, h := Decrypted(r, m, drawn).0, m.header;
    if Slot(h.dh, h.n) in r.skipped || r.dhr == Some(h.dh) || Skip(r, h.pn).Err? {
      StayingReceptionKeepsTheRoot(r, m, drawn);
      OnTheRoots(l, e, keys);
    } else {
      var settled := Skip(r, h.pn).value;
      SkipOnly(r, h.pn);
      if e + 1 < |keys| && h.dh == PublicKey(keys[e + 1]) {
        RightTurnFollows(l, e, settled, keys, m, drawn);
      } else {
        WrongTurnEstranges(l, e, settled, keys, h.dh, drawn);
        AstrayReceives(l.sk, keys, Turn(settled, h.dh, drawn), m);
      }
    }
  }

  lemma OnTheRoots(l: Log, e: nat, keys: seq<nat>)
    requires e < |l.keys| && l.keys <= keys
    ensures !OffTheRoots(l.sk, keys, RootAt(l.sk, l.keys, e))
  {
    DerivationStable(l.sk, l.keys, keys, e);
  }

  lemma AstrayReceives(sk: RootKey, keys: seq<nat>, turned: State, m: Message)
    requires Astray(sk, keys, turned)
    ensures Estranged(sk, keys, Receive(turned, m).0, Receive(turned, m).0)
  {
    hide Alien, OffTheRoots, Receive;
    assert Estranged(sk, keys, turned, turned);
    EstrangedReceives(sk, keys, turned, turned, m);
  }

  /** Such a header is never far: in every world each party has one, whatever the keys still to be drawn. */
  lemma SomeHeaderTurnsAside(w: World, p: Party, keys: seq<nat>) returns (h: Header)
    requires WorldOk(w) && w.log.keys <= keys
    ensures TurnsAside(w.Of(p), h, w.Epoch(p), keys)
  {
    var l, r, e := w.log, w.Of(p), w.Epoch(p);
    h := Header(PublicKey(Unused(keys)), if e < 2 then 0 else r.nr, 0);
    assert PartyOk(l, e, r);
    assert !Known(l, h.dh) by {
      assert forall k | 0 <= k < |l.keys| :: l.keys[k] == keys[k] && keys[k] in keys;
    }
  }

  /** A second copy from an abandoned chain is a case of it, exactly when it moves the state. */
  lemma ReplayTurnsAside(w: World, id: Id, drawn: nat, keys: seq<nat>)
    requires WorldOk(w) && id in w.log.read && id.chain + 1 < w.Epoch(Reader(id)) && drawn !in w.log.keys
    requires w.log.keys <= keys && forall i, j | 0 <= i < j < |keys| :: keys[i] != keys[j]
    ensures var r, m := w.Of(Reader(id)), w.wire[id];
            TurnsAside(r, m.header, w.Epoch(Reader(id)), keys) <==> Decrypted(r, m, drawn).0 != r
  {
    hide Decrypted;
    ReplayOnOldChain(w, id, drawn);
    NotStashed(w.log, w.Epoch(Reader(id)), w.Of(Reader(id)), id);
    HeaderOnWire(w, id);
  }

  lemma GenuineIsNotAlien(sk: RootKey, keys: seq<nat>, k: nat, n: nat)
    requires 0 < k < |keys|
    ensures !Alien(sk, keys, Advance(ChainAt(sk, keys, k), n))
  {
    AdvanceFrom(ChainAt(sk, keys, k), n);
    assert Base(Advance(ChainAt(sk, keys, k), n)) == ChainAt(sk, keys, k);
  }

  /** One such message ends the reception: whatever the party then receives and sends, no message sealed under any key
      of the genuine derivation opens again, present chains or future ones, save those whose keys it had set aside by
      then. */
  lemma SessionDies(w: World, p: Party, forged: Message, drawn: nat, keys: seq<nat>, acts: seq<Act>,
                    m: Message, next: nat, chain: nat, n: nat)
    requires WorldOk(w) && w.log.keys <= keys && TurnsAside(w.Of(p), forged.header, w.Epoch(p), keys)
    requires 0 < chain < |keys| && m.ciphertext.mk == MessageKey(Advance(ChainAt(w.log.sk, keys, chain), n))
    ensures var s := Decrypted(w.Of(p), forged, drawn).0;
            Decrypted(ActedAll(s, acts), m, next).1.Ok? ==> Stashed(s, m.ciphertext.mk)
  {
    hide PartyOk, Decrypted, Estranged, Alien, TurnsAside, Stashed;
    var s := Decrypted(w.Of(p), forged, drawn).0;
    EstrangedExactly(w.log, w.Epoch(p), w.Of(p), forged, drawn, keys);
    EstrangedForEver(w.log.sk, keys, s, acts);
    EstrangedDecrypts(w.log.sk, keys, s, ActedAll(s, acts), m, next);
    GenuineIsNotAlien(w.log.sk, keys, chain, n);
  }

  /** The chain starts at a root of the genuine derivation. */
  ghost predicate Rooted(l: Log, ck: ChainKey) {
    Base(ck).FirstChain? && exists k: nat :: k < |l.keys| && Base(ck).rk == RootAt(l.sk, l.keys, k)
  }

  lemma RootedAdvance(l: Log, ck: ChainKey, n: nat)
    requires Rooted(l, ck)
    ensures Rooted(l, Advance(ck, n))
  {
    AdvanceFrom(ck, n);
  }

  lemma ReceiveOpensRooted(l: Log, s: State, m: Message)
    requires s.ckr.Some? && Rooted(l, s.ckr.value) && Receive(s, m).1.Ok?
    ensures Rooted(l, m.ciphertext.mk.ck)
  {
    RootedAdvance(l, s.ckr.value, m.header.n - s.nr);
  }

  /** A party in step opens nothing but keys of the genuine derivation. */
  lemma OpensRooted(l: Log, e: nat, r: State, m: Message, drawn: nat)
    requires LogOk(l) && PartyOk(l, e, r) && Decrypted(r, m, drawn).1.Ok?
    ensures Rooted(l, m.ciphertext.mk.ck)
  {
    var slot := Slot(m.header.dh, m.header.n);
    if slot in r.skipped {
      assert Known(l, slot.dh);
      var k: nat :| k < |l.keys| && slot.dh == PublicKey(l.keys[k]);
      assert slot == SlotOf(l, Id(k, slot.n)) && Waiting(l, e, r.nr, Id(k, slot.n));
      AdvanceFrom(ChainAt(l.sk, l.keys, k), slot.n);
    } else if r.dhr != Some(m.header.dh) {
      ReceiveOpensRooted(l, Turn(Skip(r, m.header.pn).value, m.header.dh, drawn), m);
    } else {
      if e >= 2 { AdvanceFrom(ChainAt(l.sk, l.keys, e - 1), r.nr); }
      ReceiveOpensRooted(l, r, m);
    }
  }

  /** And nobody hears the party either: whatever it writes after that, a peer that is in step refuses. */
  lemma VictimIsUnheard(w: World, p: Party, forged: Message, drawn: nat, acts: seq<Act>, plaintext: Bytes,
                        l: Log, e: nat, peer: State, next: nat)
    requires WorldOk(w) && TurnsAside(w.Of(p), forged.header, w.Epoch(p), l.keys)
    requires LogOk(l) && w.log.keys <= l.keys && w.log.sk == l.sk && PartyOk(l, e, peer)
    ensures var s := ActedAll(Decrypted(w.Of(p), forged, drawn).0, acts);
            && Encrypted(s, plaintext).1.Ok?
            && Decrypted(peer, Encrypted(s, plaintext).1.value, next).1.Err?
  {
    hide PartyOk, Decrypted, Alien, TurnsAside;
    var first := Decrypted(w.Of(p), forged, drawn).0;
    EstrangedExactly(w.log, w.Epoch(p), w.Of(p), forged, drawn, l.keys);
    EstrangedForEver(l.sk, l.keys, first, acts);
    var m := Encrypted(ActedAll(first, acts), plaintext).1.value;
    if Decrypted(peer, m, next).1.Ok? { OpensRooted(l, e, peer, m, next); }
  }

  // ------------------------------------------------------------------ a run that gets there

  /** Both have written once a turn, and all of it is read: the party in epoch `e` is to write next. */
  ghost predicate Turns(l: Log, e: nat) {
    && e >= 1 && |l.keys| == |l.sent| == e + 1 && l.sent[e] == []
    && forall k: nat | 1 <= k < e :: |l.sent[k]| == 1 && Id(k, 0) in l.read
  }

  /** It has written, and its peer has not read. */
  ghost predicate Written(l: Log, e: nat) {
    && e >= 1 && |l.keys| == |l.sent| == e + 1 && l.sent[e] == [[0]]
    && forall k: nat | 1 <= k < e :: |l.sent[k]| == 1 && Id(k, 0) in l.read
  }

  lemma LogWritten(l: Log, e: nat)
    requires Turns(l, e)
    ensures Written(l.(sent := l.sent[e := l.sent[e] + [[0]]]), e)
  {
    assert l.sent[e] + [[0]] == [[0]];
  }

  lemma LogRead(l: Log, e: nat, drawn: nat)
    requires Written(l, e)
    ensures Turns(After(l, Id(e, 0), drawn, true, true), e + 1)
  {
    var l' := After(l, Id(e, 0), drawn, true, true);
    forall k: nat | 1 <= k < e + 1
      ensures |l'.sent[k]| == 1 && Id(k, 0) in l'.read
    {
      assert k < e ==> |l.sent[k]| == 1 && Id(k, 0) in l.read;
    }
  }

  function Leader(e: nat): Party { if e % 2 == 1 then Party.Initiator else Party.Responder }

  function Unused(keys: seq<nat>): (k: nat)
    ensures k !in keys
    ensures forall x | x in keys :: x < k
  {
    if keys == [] then 0
    else
      var rest := Unused(keys[1..]);
      assert keys == [keys[0]] + keys[1..];
      if keys[0] < rest then rest else keys[0] + 1
  }

  lemma LeaderLeads(w: World, e: nat)
    requires WorldOk(w) && |w.log.keys| == e + 1
    ensures w.Epoch(Leader(e)) == e && w.Epoch(Peer(Leader(e))) + 1 == e
    ensures e < |w.log.sent| && w.Of(Leader(e)).ns == |w.log.sent[e]|
    ensures forall n :: Id(e, n) !in w.log.read
    ensures e >= 2 && |w.log.sent[e - 1]| == 1 && Id(e - 1, 0) in w.log.read ==> w.Of(Leader(e)).nr == 1
  {
  }

  lemma HeaderOnWire(w: World, id: Id)
    requires WorldOk(w) && Sent(w.log, id)
    ensures id in w.wire
    ensures w.wire[id].header == Header(PublicKey(w.log.keys[id.chain]), Previous(w.log, id.chain), id.n)
  {
  }

  lemma ReadIsBehind(w: World, id: Id)
    requires WorldOk(w) && id in w.log.read
    ensures id.chain < w.Epoch(Reader(id))
  {
  }

  lemma ShortSkipsOpen(r: State, h: Header, plaintext: Bytes)
    requires h.pn <= MAX_SKIP && h.n <= MAX_SKIP
    ensures Owed(r, h, plaintext) == Ok(plaintext)
  {
  }

  lemma WriteMoves(w: World, p: Party, plaintext: Bytes)
    requires Allowed(w, Write(p, plaintext)) && Encrypted(w.Of(p), plaintext).1.Ok?
    ensures var v, e := Next(w, Write(p, plaintext)), w.Epoch(p);
            && v.log == w.log.(sent := w.log.sent[e := w.log.sent[e] + [plaintext]])
            && v.ei == w.ei && v.er == w.er
  {
  }

  lemma DeliverMoves(w: World, id: Id, drawn: nat)
    requires Allowed(w, Deliver(id, drawn))
    ensures var u := Next(w, Deliver(id, drawn));
            var turned := u.Epoch(Reader(id)) != w.Epoch(Reader(id));
            u.log == After(w.log, id, drawn, turned, Outcome(w, id, drawn).Ok?)
  {
  }

  lemma LeaderWrites(w: World, e: nat)
    requires WorldOk(w) && Turns(w.log, e)
    ensures Allowed(w, Write(Leader(e), [0]))
    ensures var v := Next(w, Write(Leader(e), [0])); WorldOk(v) && Written(v.log, e)
  {
    LeaderLeads(w, e);
    WriteKeeps(w, Leader(e), [0]);
    WriteMoves(w, Leader(e), [0]);
    LogWritten(w.log, e);
  }

  lemma PeerReads(v: World, e: nat, drawn: nat)
    requires WorldOk(v) && Written(v.log, e) && drawn !in v.log.keys
    ensures Allowed(v, Deliver(Id(e, 0), drawn))
    ensures var u := Next(v, Deliver(Id(e, 0), drawn)); WorldOk(u) && Turns(u.log, e + 1)
  {
    var id := Id(e, 0);
    LeaderLeads(v, e);
    HeaderOnWire(v, id);
    ShortSkipsOpen(v.Of(Reader(id)), v.wire[id].header, [0]);
    DeliverKeeps(v, id, drawn);
    DeliverMoves(v, id, drawn);
    ReadIsBehind(Next(v, Deliver(id, drawn)), id);
    LogRead(v.log, e, drawn);
  }

  /** Some run gets there. */
  ghost predicate Reachable(w: World) {
    exists ws, evs :: IsRun(ws, evs) && ws[|evs|] == w
  }

  lemma RunStarts(w: World)
    requires Opening(w)
    ensures Reachable(w)
  {
    assert IsRun([w], []);
  }

  lemma RunGoesOn(w: World, ev: Event)
    requires Reachable(w) && Allowed(w, ev)
    ensures Reachable(Next(w, ev))
  {
    hide Opening, Allowed, Next;
    var ws, evs :| IsRun(ws, evs) && ws[|evs|] == w;
    var more, all := ws + [Next(w, ev)], evs + [ev];
    forall i | 0 <= i < |all|
      ensures Allowed(more[i], all[i]) && more[i + 1] == Next(more[i], all[i])
    {
      if i < |evs| { assert more[i] == ws[i] && more[i + 1] == ws[i + 1]; }
    }
    assert IsRun(more, all) && more[|all|] == Next(w, ev);
  }

  ghost predicate InTurn(w: World, e: nat) {
    WorldOk(w) && Turns(w.log, e)
  }

  ghost predicate Stage(w: World, e: nat) {
    Reachable(w) && InTurn(w, e)
  }

  lemma OneTurn(w: World, e: nat) returns (u: World)
    requires Stage(w, e)
    ensures Stage(u, e + 1)
  {
    LeaderWrites(w, e);
    var v := Next(w, Write(Leader(e), [0]));
    RunGoesOn(w, Write(Leader(e), [0]));
    var drawn := Unused(v.log.keys);
    PeerReads(v, e, drawn);
    RunGoesOn(v, Deliver(Id(e, 0), drawn));
    u := Next(v, Deliver(Id(e, 0), drawn));
  }

  lemma Handshaken() returns (w: World)
    ensures Opening(w) && InTurn(w, 1)
  {
    var outcome := X3dh.Outcome(X3dhKey([]), Binding(IdentityPublic(PublicKey(1), PublicKey(2)),
                                                     IdentityPublic(PublicKey(3), PublicKey(4))));
    w := Start(outcome, outcome, 0, 6);
    assert Opened(w, outcome, 0, 6);
    OpeningOk(w);
  }

  lemma FirstTurn() returns (w: World)
    ensures Stage(w, 1)
  {
    w := Handshaken();
    RunStarts(w);
  }

  /** A conversation of single messages, each answered. */
  lemma {:induction false} PingPong(e: nat) returns (w: World)
    requires e >= 1
    ensures Stage(w, e)
  {
    hide *;
    if e == 1 {
      w := FirstTurn();
    } else {
      w := PingPong(e - 1);
      w := OneTurn(w, e - 1);
    }
  }

  lemma ThirdLastSent(l: Log, e: nat)
    requires LogOk(l) && Turns(l, e) && e >= 6
    ensures Sent(l, Id(e - 3, 0)) && Id(e - 3, 0) in l.read && Previous(l, e - 3) == 1
    ensures |l.sent[e - 1]| == 1 && Id(e - 1, 0) in l.read
    ensures Reader(Id(e - 3, 0)) == Leader(e)
  {
    assert |l.sent[e - 3]| == 1 && |l.sent[e - 5]| == 1;
  }

  lemma ThirdLast(w: World, e: nat)
    requires InTurn(w, e) && e >= 6
    ensures var id := Id(e - 3, 0);
            && id in w.log.read && id in w.wire && id.chain + 1 < w.Epoch(Reader(id))
            && w.wire[id].header.pn == w.Of(Reader(id)).nr
  {
    ThirdLastSent(w.log, e);
    LeaderLeads(w, e);
    HeaderOnWire(w, Id(e - 3, 0));
  }

  lemma ThirdLastAgain(w: World, e: nat, drawn: nat)
    requires InTurn(w, e) && e >= 6 && drawn !in w.log.keys
    ensures Id(e - 3, 0) in w.wire
    ensures var id := Id(e - 3, 0);
            Decrypted(w.Of(Reader(id)), w.wire[id], drawn).0 != w.Of(Reader(id))
  {
    ThirdLast(w, e);
    ReplayOnOldChain(w, Id(e - 3, 0), drawn);
  }

  /** Plain conversations reach it: from six turns of one message each on, the packet of three turns ago once more. */
  lemma ReplayTurnsTheRatchet(e: nat) returns (w: World)
    requires e >= 6
    ensures Reachable(w) && WorldOk(w)
    ensures var id := Id(e - 3, 0);
            && id in w.log.read && id in w.wire && id.chain + 1 < w.Epoch(Reader(id))
            && forall drawn | drawn !in w.log.keys ::
                 Decrypted(w.Of(Reader(id)), w.wire[id], drawn).0 != w.Of(Reader(id))
  {
    w := PingPong(e);
    ThirdLast(w, e);
    forall drawn | drawn !in w.log.keys
      ensures Decrypted(w.Of(Reader(Id(e - 3, 0))), w.wire[Id(e - 3, 0)], drawn).0 != w.Of(Reader(Id(e - 3, 0)))
    {
      ThirdLastAgain(w, e, drawn);
    }
  }
}

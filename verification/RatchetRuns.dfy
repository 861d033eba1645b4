/** Two parties of the Double Ratchet over a network that reorders, delays, drops and damages genuine messages.

    Ratchet keys are numbered in the order they are drawn: key 0 is the responder's signed prekey, odd keys
    are the initiator's, even keys the responder's. Chain `k` carries what the owner of key `k` sends while
    `k` is its ratchet key. A party in epoch `e` sends on chain `e` and receives on chain `e - 1`. */
module RatchetRuns {
  import opened Prelude
  import opened RatchetKeys
  import opened Ratchet
  import X3dh

  /** A message, by its chain and its position there. */
  datatype Id = Id(chain: nat, n: nat)

  /** What has happened so far, seen by nobody in particular. `read` are the messages whose key is spent: opened, or
      lost to a damaged copy. */
  datatype Log = Log(sk: RootKey, ad: Binding, keys: seq<nat>, sent: seq<seq<Bytes>>, read: set<Id>)

  ghost predicate LogOk(l: Log) {
    && |l.keys| == |l.sent| >= 2
    && l.sent[0] == []
    && forall i, j | 0 <= i < j < |l.keys| :: l.keys[i] != l.keys[j]
  }

  // ------------------------------------------------------------------ the shared derivation

  function Agreed(keys: seq<nat>, k: nat): DhOutput
    requires 0 < k < |keys|
  {
    DiffieHellman(keys[k - 1], PublicKey(keys[k]))
  }

  function RootAt(sk: RootKey, keys: seq<nat>, k: nat): RootKey
    requires k < |keys|
  {
    if k == 0 then sk else KdfRk(RootAt(sk, keys, k - 1), Agreed(keys, k)).0
  }

  function ChainAt(sk: RootKey, keys: seq<nat>, k: nat): ChainKey
    requires 0 < k < |keys|
  {
    KdfRk(RootAt(sk, keys, k - 1), Agreed(keys, k)).1
  }

  lemma {:induction false} DerivationStable(sk: RootKey, keys: seq<nat>, more: seq<nat>, k: nat)
    requires k < |keys| && keys <= more
    ensures RootAt(sk, more, k) == RootAt(sk, keys, k)
    ensures k > 0 ==> ChainAt(sk, more, k) == ChainAt(sk, keys, k)
  {
    if k > 0 { DerivationStable(sk, keys, more, k - 1); }
  }

  // ------------------------------------------------------------------ genuine messages

  ghost predicate Sent(l: Log, id: Id)
    requires LogOk(l)
  {
    id.chain < |l.sent| && id.n < |l.sent[id.chain]|
  }

  /** Length of the chain its owner used before chain `k`. */
  function Previous(l: Log, k: nat): nat
    requires k < |l.sent|
  {
    if k >= 2 then |l.sent[k - 2]| else 0
  }

  ghost function KeyOf(l: Log, id: Id): MessageKey
    requires LogOk(l) && 0 < id.chain < |l.keys|
  {
    MessageKey(Advance(ChainAt(l.sk, l.keys, id.chain), id.n))
  }

  ghost function Genuine(l: Log, id: Id): Message
    requires LogOk(l) && Sent(l, id)
  {
    var header := Header(PublicKey(l.keys[id.chain]), Previous(l, id.chain), id.n);
    Message(header, Sealed(KeyOf(l, id), l.sent[id.chain][id.n], Aad(l.ad, header)))
  }

  // ------------------------------------------------------------------ one party

  /** A message a party in epoch `e`, `nr` messages into its receiving chain, has stepped over and not read. */
  ghost predicate Waiting(l: Log, e: nat, nr: nat, id: Id)
    requires LogOk(l) && e < |l.keys|
  {
    && 0 < id.chain < e && id.chain % 2 != e % 2
    && id.n < (if id.chain + 1 == e then nr else |l.sent[id.chain]|)
    && id !in l.read
  }

  ghost function SlotOf(l: Log, id: Id): Slot
    requires LogOk(l) && id.chain < |l.keys|
  {
    Slot(PublicKey(l.keys[id.chain]), id.n)
  }

  /** The stash holds exactly the messages stepped over and not read, each with its own key. */
  ghost predicate StashOk(l: Log, e: nat, nr: nat, stash: map<Slot, MessageKey>)
    requires LogOk(l) && e < |l.keys|
  {
    && (forall id: Id | id.chain < |l.keys| :: SlotOf(l, id) in stash <==> Waiting(l, e, nr, id))
    && (forall id: Id | Waiting(l, e, nr, id) :: SlotOf(l, id) in stash && stash[SlotOf(l, id)] == KeyOf(l, id))
    && (forall s | s in stash :: Known(l, s.dh))
  }

  ghost predicate Known(l: Log, dh: PublicKey) {
    exists k :: 0 <= k < |l.keys| && dh == PublicKey(l.keys[k])
  }

  ghost predicate PartyOk(l: Log, e: nat, r: State)
    requires LogOk(l)
  {
    && e < |l.keys|
    && r.ad == l.ad && r.dhs == l.keys[e] && r.rk == RootAt(l.sk, l.keys, e)
    && r.dhr == (if e == 0 then None else Some(PublicKey(l.keys[e - 1])))
    && r.cks == (if e == 0 then None else Some(Advance(ChainAt(l.sk, l.keys, e), |l.sent[e]|)))
    && r.ckr == (if e < 2 then None else Some(Advance(ChainAt(l.sk, l.keys, e - 1), r.nr)))
    && r.ns == |l.sent[e]| && r.pn == Previous(l, e)
    && r.nr <= (if e < 2 then 0 else |l.sent[e - 1]|)
    && StashOk(l, e, r.nr, r.skipped)
    && forall id | id in l.read && id.chain % 2 != e % 2 :: id.chain < e && (id.chain + 1 == e ==> id.n < r.nr)
  }

  // ------------------------------------------------------------------ one reception

  lemma SkipKeeps(l: Log, e: nat, r: State, until: nat)
    requires LogOk(l) && PartyOk(l, e, r) && e >= 2
    requires r.nr <= until <= |l.sent[e - 1]| && until - r.nr <= MAX_SKIP
    ensures Skip(r, until).Ok? && Skip(r, until).value.nr == until
    ensures PartyOk(l, e, Skip(r, until).value)
  {
    var s, ck := Skip(r, until).value, ChainAt(l.sk, l.keys, e - 1);
    StashContents(r.dhr.value, r.ckr.value, r.nr, until);
    AdvanceAdds(ck, r.nr, until - r.nr);
    forall id: Id | id.chain < |l.keys|
      ensures SlotOf(l, id) in s.skipped <==> Waiting(l, e, until, id)
      ensures Waiting(l, e, until, id) ==> s.skipped[SlotOf(l, id)] == KeyOf(l, id)
    {
      if id.chain == e - 1 && r.nr <= id.n < until {
        AdvanceAdds(ck, r.nr, id.n - r.nr);
      } else {
        assert Waiting(l, e, until, id) <==> Waiting(l, e, r.nr, id);
      }
    }
  }

  lemma ConsumeKeeps(l: Log, e: nat, r: State)
    requires LogOk(l) && PartyOk(l, e, r) && e >= 2 && r.nr < |l.sent[e - 1]|
    ensures var id := Id(e - 1, r.nr);
            var (s, result) := Consume(r, Genuine(l, id));
            && result == Ok(l.sent[e - 1][r.nr])
            && PartyOk(l.(read := l.read + {id}), e, s)
  {
    var id := Id(e - 1, r.nr);
    var s, l' := Consume(r, Genuine(l, id)).0, l.(read := l.read + {id});
    forall other: Id | other.chain < |l.keys|
      ensures Waiting(l', e, s.nr, other) <==> Waiting(l, e, r.nr, other)
    {
    }
  }

  lemma TakeKeeps(l: Log, e: nat, r: State, id: Id, drawn: nat)
    requires LogOk(l) && PartyOk(l, e, r) && Waiting(l, e, r.nr, id) && Sent(l, id)
    ensures var (s, result) := Decrypted(r, Genuine(l, id), drawn);
            && result == Ok(l.sent[id.chain][id.n])
            && PartyOk(l.(read := l.read + {id}), e, s) && s.dhs == r.dhs
  {
    var s, l' := Decrypted(r, Genuine(l, id), drawn).0, l.(read := l.read + {id});
    forall other: Id | other.chain < |l.keys|
      ensures SlotOf(l', other) in s.skipped <==> Waiting(l', e, s.nr, other)
    {
      assert SlotOf(l, other) == SlotOf(l, id) <==> other == id;
    }
  }

  /** The log with one more ratchet key, and an empty chain for it. */
  ghost function Drawn(l: Log, drawn: nat): Log {
    l.(keys := l.keys + [drawn], sent := l.sent + [[]])
  }

  /** A stash stays right when the log grows and the same messages stay waiting. */
  lemma StashMoves(l: Log, e: nat, nr: nat, stash: map<Slot, MessageKey>, l': Log, e': nat, nr': nat)
    requires LogOk(l) && e < |l.keys| && StashOk(l, e, nr, stash)
    requires LogOk(l') && e' < |l'.keys| && l.keys <= l'.keys && l.sk == l'.sk
    requires forall id :: Waiting(l', e', nr', id) <==> Waiting(l, e, nr, id)
    ensures StashOk(l', e', nr', stash)
  {
    forall id: Id | id.chain < |l'.keys|
      ensures SlotOf(l', id) in stash <==> Waiting(l', e', nr', id)
      ensures Waiting(l', e', nr', id) ==> stash[SlotOf(l', id)] == KeyOf(l', id)
    {
      if id.chain < |l.keys| {
        assert SlotOf(l', id) == SlotOf(l, id);
        DerivationStable(l.sk, l.keys, l'.keys, id.chain);
      } else {
        assert !Known(l, SlotOf(l', id).dh) by {
          assert forall k | 0 <= k < |l.keys| :: l.keys[k] == l'.keys[k] != l'.keys[id.chain];
        }
      }
    }
    forall s | s in stash
      ensures Known(l', s.dh)
    {
      var k :| 0 <= k < |l.keys| && s.dh == PublicKey(l.keys[k]);
      assert l'.keys[k] == l.keys[k];
    }
  }

  /** Following the peer into its next chain: both derivations land where the peer's did. */
  lemma TurnKeeps(l: Log, e: nat, r: State, drawn: nat)
    requires LogOk(l) && PartyOk(l, e, r) && |l.keys| == e + 2 && drawn !in l.keys
    requires e >= 2 ==> r.nr == |l.sent[e - 1]|
    ensures LogOk(Drawn(l, drawn)) && PartyOk(Drawn(l, drawn), e + 2, Turn(r, PublicKey(l.keys[e + 1]), drawn))
  {
    hide StashOk;
    StashMoves(l, e, r.nr, r.skipped, Drawn(l, drawn), e + 2, 0);
    var keys := l.keys + [drawn];
    DerivationStable(l.sk, l.keys, keys, e);
    assert RootAt(l.sk, keys, e + 2) == KdfRk(RootAt(l.sk, keys, e + 1), Agreed(keys, e + 2)).0;
  }

  // ------------------------------------------------------------------ what the network hands over

  /** Keys a reception of `h` skips before following the peer's ratchet, and after. */
  function SkipBefore(r: State, h: Header): int {
    if r.dhr == Some(h.dh) || r.ckr.None? then 0 else h.pn - r.nr
  }

  function SkipAfter(r: State, h: Header): int {
    if r.dhr == Some(h.dh) then h.n - r.nr else h.n
  }

  /** What `decrypt` owes for a genuine message not read before: the plaintext, unless a skip is too long. */
  function Owed(r: State, h: Header, plaintext: Bytes): Result<Bytes, RatchetError> {
    if Slot(h.dh, h.n) in r.skipped then Ok(plaintext)
    else if SkipBefore(r, h) > MAX_SKIP then Err(TooManySkipped(SkipBefore(r, h), MAX_SKIP))
    else if SkipAfter(r, h) > MAX_SKIP then Err(TooManySkipped(SkipAfter(r, h), MAX_SKIP))
    else Ok(plaintext)
  }

  /** The log once a party in epoch `e` has processed a message: a turned ratchet draws a key, a message
      that opened is read. */
  function After(l: Log, id: Id, drawn: nat, turned: bool, accepted: bool): Log {
    Log(l.sk, l.ad,
        if turned then l.keys + [drawn] else l.keys,
        if turned then l.sent + [[]] else l.sent,
        if accepted then l.read + {id} else l.read)
  }

  lemma ReceiveKeeps(l: Log, e: nat, r: State, n: nat)
    requires LogOk(l) && PartyOk(l, e, r) && e >= 2 && r.nr <= n < |l.sent[e - 1]|
    ensures var id := Id(e - 1, n);
            var (s, result) := Receive(r, Genuine(l, id));
            && result == (if n - r.nr > MAX_SKIP then Err(TooManySkipped(n - r.nr, MAX_SKIP)) else Ok(l.sent[e - 1][n]))
            && PartyOk(After(l, id, 0, false, result.Ok?), e, s) && s.dhs == r.dhs
  {
    if n - r.nr <= MAX_SKIP {
      SkipKeeps(l, e, r, n);
      ConsumeKeeps(l, e, Skip(r, n).value);
    }
  }

  /** What one reception owes and leaves behind. */
  ghost predicate Reception(l: Log, e: nat, r: State, id: Id, drawn: nat)
    requires LogOk(l) && Sent(l, id)
  {
    var m := Genuine(l, id);
    var (s, result) := Decrypted(r, m, drawn);
    var turned := s.dhs != r.dhs;
    && result == Owed(r, m.header, l.sent[id.chain][id.n])
    && (turned ==> s.dhs == drawn && id.chain == e + 1)
    && var l' := After(l, id, drawn, turned, result.Ok?);
       LogOk(l') && PartyOk(l', e + (if turned then 2 else 0), s)
  }

  lemma GenuineStable(l: Log, l': Log, id: Id)
    requires LogOk(l) && LogOk(l') && Sent(l, id)
    requires l.keys <= l'.keys && l.sk == l'.sk && l.ad == l'.ad
    requires l.sent[id.chain] <= l'.sent[id.chain] && Previous(l', id.chain) == Previous(l, id.chain)
    ensures Sent(l', id) && Genuine(l', id) == Genuine(l, id)
  {
    DerivationStable(l.sk, l.keys, l'.keys, id.chain);
  }

  /** Settling the old chain up to the length the peer announces for it. */
  lemma SettleKeeps(l: Log, e: nat, r: State, n: nat)
    requires LogOk(l) && PartyOk(l, e, r) && |l.keys| == e + 2 && n < |l.sent[e + 1]|
    ensures var h := Genuine(l, Id(e + 1, n)).header;
            && Slot(h.dh, h.n) !in r.skipped && r.dhr != Some(h.dh)
            && match Skip(r, h.pn)
               case Err(error) => SkipBefore(r, h) > MAX_SKIP && error == TooManySkipped(SkipBefore(r, h), MAX_SKIP)
               case Ok(s) =>
                 && SkipBefore(r, h) <= MAX_SKIP && PartyOk(l, e, s) && s.dhs == r.dhs
                 && (e >= 2 ==> s.nr == |l.sent[e - 1]|)
  {
    var h := Genuine(l, Id(e + 1, n)).header;
    assert SlotOf(l, Id(e + 1, n)) !in r.skipped;
    if e >= 2 && SkipBefore(r, h) <= MAX_SKIP { SkipKeeps(l, e, r, h.pn); }
  }

  /** Following and receiving, once the old chain is settled. */
  lemma FollowSettled(l: Log, e: nat, r: State, n: nat, drawn: nat)
    requires LogOk(l) && PartyOk(l, e, r) && |l.keys| == e + 2 && drawn !in l.keys
    requires (e >= 2 ==> r.nr == |l.sent[e - 1]|) && n < |l.sent[e + 1]|
    ensures var id := Id(e + 1, n);
            var (s, result) := Receive(Turn(r, Genuine(l, id).header.dh, drawn), Genuine(l, id));
            var l' := After(l, id, drawn, true, result.Ok?);
            && result == (if n > MAX_SKIP then Err(TooManySkipped(n, MAX_SKIP)) else Ok(l.sent[e + 1][n]))
            && LogOk(l') && PartyOk(l', e + 2, s) && s.dhs == drawn
  {
    hide PartyOk, Receive, KeyOf;
    var id, l' := Id(e + 1, n), Drawn(l, drawn);
    TurnKeeps(l, e, r, drawn);
    GenuineStable(l, l', id);
    ReceiveKeeps(l', e + 2, Turn(r, Genuine(l, id).header.dh, drawn), n);
  }

  /** The first message seen of the peer's next chain: settle the old chain, follow, then receive. */
  lemma FollowKeeps(l: Log, e: nat, r: State, n: nat, drawn: nat)
    requires LogOk(l) && PartyOk(l, e, r) && |l.keys| == e + 2 && drawn !in l.keys
    requires n < |l.sent[e + 1]|
    ensures Reception(l, e, r, Id(e + 1, n), drawn)
  {
    var m := Genuine(l, Id(e + 1, n));
    SettleKeeps(l, e, r, n);
    if Skip(r, m.header.pn).Ok? {
      FollowSettled(l, e, Skip(r, m.header.pn).value, n, drawn);
      assert r.dhs == l.keys[e] && r.dhs != drawn;
    }
  }

  /** The whole of `decrypt` on a genuine message of the peer that was not read before. */
  lemma DecryptKeeps(l: Log, e: nat, r: State, id: Id, drawn: nat)
    requires LogOk(l) && PartyOk(l, e, r) && Sent(l, id) && id !in l.read
    requires id.chain % 2 != e % 2 && |l.keys| <= e + 2 && drawn !in l.keys
    ensures Reception(l, e, r, id, drawn)
  {
    assert SlotOf(l, id) in r.skipped <==> Waiting(l, e, r.nr, id);
    if Waiting(l, e, r.nr, id) {
      hide StashOk;
      TakeKeeps(l, e, r, id, drawn);
    } else if id.chain + 1 == e {
      hide StashOk;
      ReceiveKeeps(l, e, r, id.n);
    } else {
      FollowKeeps(l, e, r, id.n, drawn);
    }
  }

  /** A party keeps its invariant while only its peer acts: the chain it receives on may grow, keys may be
      drawn and its own messages read. */
  lemma PeerActs(l: Log, l': Log, e: nat, r: State)
    requires LogOk(l) && LogOk(l') && PartyOk(l, e, r)
    requires l.keys <= l'.keys && l.sk == l'.sk && l.ad == l'.ad
    requires forall k: nat | k <= e && k + 1 != e :: l'.sent[k] == l.sent[k]
    requires e > 0 ==> l.sent[e - 1] <= l'.sent[e - 1]
    requires forall id: Id | id.chain % 2 != e % 2 :: id in l'.read <==> id in l.read
    ensures PartyOk(l', e, r)
  {
    StashMoves(l, e, r.nr, r.skipped, l', e, r.nr);
    DerivationStable(l.sk, l.keys, l'.keys, e);
    if e > 0 { DerivationStable(l.sk, l.keys, l'.keys, e - 1); }
  }

  // ------------------------------------------------------------------ both parties and the network

  datatype Party = Initiator | Responder

  datatype World = World(log: Log, initiator: State, ei: nat, responder: State, er: nat, wire: map<Id, Message>) {
    function Of(p: Party): State { if p.Initiator? then initiator else responder }

    function Epoch(p: Party): nat { if p.Initiator? then ei else er }

    function With(p: Party, l: Log, r: State, e: nat): World {
      if p.Initiator? then this.(log := l, initiator := r, ei := e) else this.(log := l, responder := r, er := e)
    }
  }

  function Peer(p: Party): Party { if p.Initiator? then Responder else Initiator }

  /** Who reads a chain: its owner's peer. */
  function Reader(id: Id): Party { if id.chain % 2 == 1 then Responder else Initiator }

  /** The wire has carried exactly what was sent, and nothing is read that it did not carry. */
  ghost predicate WireOk(l: Log, wire: map<Id, Message>)
    requires LogOk(l)
  {
    && (forall id: Id :: id in wire <==> Sent(l, id))
    && (forall id | id in wire :: wire[id] == Genuine(l, id))
    && (forall id | id in l.read :: id in wire)
  }

  ghost predicate WorldOk(w: World) {
    && LogOk(w.log) && WireOk(w.log, w.wire)
    && PartyOk(w.log, w.ei, w.initiator) && PartyOk(w.log, w.er, w.responder)
    && InStep(w.ei, w.er, |w.log.keys|)
  }

  /** The initiator's epochs are odd, the two are one apart, and the later one is the last key drawn. */
  ghost predicate InStep(ei: nat, er: nat, drawn: nat) {
    && ei % 2 == 1 && er % 2 == 0
    && ((ei == er + 1 && drawn == ei + 1) || (er == ei + 1 && drawn == er + 1))
  }

  lemma TurnInStep(ei: nat, er: nat, drawn: nat)
    requires InStep(ei, er, drawn)
    ensures er == ei + 1 ==> InStep(ei + 2, er, drawn + 1)
    ensures ei == er + 1 ==> InStep(ei, er + 2, drawn + 1)
  {
  }

  /** What the two sides of a handshake make of it. */
  function Start(mine: X3dh.Outcome, theirs: X3dh.Outcome, prekey: nat, first: nat): World {
    World(Log(mine.sharedSecret, mine.associatedData, [prekey, first], [[], []], {}),
          Ratchet.Initiator(mine.sharedSecret, mine.associatedData, PublicKey(prekey), first), 1,
          Ratchet.Responder(theirs.sharedSecret, theirs.associatedData, prekey), 0,
          map[])
  }

  /** Two fresh ratchets over what X3DH agreed on, the responder's prekey and the initiator's first key drawn. */
  ghost predicate Opening(w: World) {
    exists outcome: X3dh.Outcome, prekey: nat, first: nat :: Opened(w, outcome, prekey, first)
  }

  ghost predicate Opened(w: World, outcome: X3dh.Outcome, prekey: nat, first: nat) {
    && prekey != first
    && w == Start(outcome, outcome, prekey, first)
  }

  /** A party writes, or the network hands over a message, or its header with another ciphertext under it; with a key
      drawn in case it turns the ratchet. */
  datatype Event =
    | Write(writer: Party, plaintext: Bytes)
    | Deliver(id: Id, drawn: nat)
    | Damage(id: Id, ciphertext: Ciphertext, drawn: nat)

  /** Not what the message was sealed as. */
  predicate Foreign(m: Message, c: Ciphertext) {
    c.mk != m.ciphertext.mk || c.aad != m.ciphertext.aad
  }

  /** Counters stay below 2^32, each key is spent at most once, and drawn keys never repeat. (The first conjunct only
      names the writer's chain: it holds in every world of a run.) */
  ghost predicate Allowed(w: World, ev: Event) {
    match ev
    case Write(p, _) => w.Epoch(p) < |w.log.sent| && w.Of(p).ns < U32_MAX
    case Deliver(id, drawn) => id in w.wire && id !in w.log.read && drawn !in w.log.keys
    case Damage(id, c, drawn) => id in w.wire && id !in w.log.read && drawn !in w.log.keys && Foreign(w.wire[id], c)
  }

  /** The packet as it arrives. */
  function Damaged(w: World, id: Id, c: Ciphertext): Message
    requires id in w.wire
  {
    Message(w.wire[id].header, c)
  }

  function Outcome(w: World, id: Id, drawn: nat): Result<Bytes, RatchetError>
    requires id in w.wire
  {
    Decrypted(w.Of(Reader(id)), w.wire[id], drawn).1
  }

  ghost function Next(w: World, ev: Event): World
    requires Allowed(w, ev)
  {
    match ev
    case Write(p, plaintext) =>
      (var (r, result) := Encrypted(w.Of(p), plaintext);
       match result
       case Err(_) => w.With(p, w.log, r, w.Epoch(p))
       case Ok(m) =>
         var k := w.Epoch(p);
         w.With(p, w.log.(sent := w.log.sent[k := w.log.sent[k] + [plaintext]]), r, k)
          .(wire := w.wire[Id(k, |w.log.sent[k]|) := m]))
    case Deliver(id, drawn) =>
      var p := Reader(id);
      var (r, result) := Decrypted(w.Of(p), w.wire[id], drawn);
      var turned := r.dhs != w.Of(p).dhs;
      w.With(p, After(w.log, id, drawn, turned, result.Ok?), r, w.Epoch(p) + (if turned then 2 else 0))
    case Damage(id, c, drawn) =>
      var p := Reader(id);
      var (r, result) := Decrypted(w.Of(p), Damaged(w, id, c), drawn);
      var turned, spent := r.dhs != w.Of(p).dhs, result == Err(DecryptionFailed);
      w.With(p, After(w.log, id, drawn, turned, spent), r, w.Epoch(p) + (if turned then 2 else 0))
  }

  /** The two states that a handshake leaves are such an opening. */
  lemma HandshakeOpens(identity: X3dh.IdentityKeyPair, store: X3dh.PreKeyStore, ephemeral: nat, first: nat)
    requires first != store.signedPrekey
    ensures X3dh.Initiate(identity, X3dh.Bundle(store), ephemeral).Ok?
    ensures var (mine, initial) := X3dh.Initiate(identity, X3dh.Bundle(store), ephemeral).value;
            && X3dh.Bundle(store).signedPrekey == PublicKey(store.signedPrekey)
            && X3dh.Respond(store, initial).Ok?
            && Opening(Start(mine, X3dh.Respond(store, initial).value, store.signedPrekey, first))
  {
    var (mine, initial) := X3dh.Initiate(identity, X3dh.Bundle(store), ephemeral).value;
    X3dh.OutcomesAgree(identity, store, ephemeral, initial);
    assert Opened(Start(mine, mine, store.signedPrekey, first), mine, store.signedPrekey, first);
  }

  lemma OpeningOk(w: World)
    requires Opening(w)
    ensures WorldOk(w)
  {
  }

  lemma EncryptKeeps(l: Log, k: nat, r: State, plaintext: Bytes)
    requires LogOk(l) && PartyOk(l, k, r) && k > 0
    ensures var l' := l.(sent := l.sent[k := l.sent[k] + [plaintext]]);
            var (s, result) := Encrypted(r, plaintext);
            LogOk(l') && PartyOk(l', k, s) && result == Ok(Genuine(l', Id(k, |l.sent[k]|)))
  {
    var l' := l.(sent := l.sent[k := l.sent[k] + [plaintext]]);
    StashMoves(l, k, r.nr, r.skipped, l', k, r.nr);
  }

  lemma WireWrite(l: Log, wire: map<Id, Message>, k: nat, plaintext: Bytes)
    requires LogOk(l) && WireOk(l, wire) && 0 < k < |l.keys| <= k + 2
    ensures var l' := l.(sent := l.sent[k := l.sent[k] + [plaintext]]);
            var id := Id(k, |l.sent[k]|);
            LogOk(l') && WireOk(l', wire[id := Genuine(l', id)])
  {
    var l' := l.(sent := l.sent[k := l.sent[k] + [plaintext]]);
    forall id: Id | Sent(l, id)
      ensures Sent(l', id) && Genuine(l', id) == Genuine(l, id)
    {
      GenuineStable(l, l', id);
    }
  }

  lemma WriteKeeps(w: World, p: Party, plaintext: Bytes)
    requires WorldOk(w) && Allowed(w, Write(p, plaintext))
    ensures WorldOk(Next(w, Write(p, plaintext)))
    ensures Encrypted(w.Of(p), plaintext).1.Ok? <==> w.Epoch(p) > 0
  {
    var k, l, q := w.Epoch(p), w.log, Peer(p);
    if k > 0 {
      EncryptKeeps(l, k, w.Of(p), plaintext);
      WireWrite(l, w.wire, k, plaintext);
      PeerActs(l, l.(sent := l.sent[k := l.sent[k] + [plaintext]]), w.Epoch(q), w.Of(q));
    }
  }

  lemma WireDeliver(l: Log, wire: map<Id, Message>, l': Log)
    requires LogOk(l) && LogOk(l') && WireOk(l, wire)
    requires l.keys <= l'.keys && l.sk == l'.sk && l.ad == l'.ad
    requires l'.sent == l.sent || l'.sent == l.sent + [[]]
    requires forall id | id in l'.read :: id in wire
    ensures WireOk(l', wire)
  {
    forall id: Id | Sent(l, id)
      ensures Sent(l', id) && Genuine(l', id) == Genuine(l, id)
    {
      GenuineStable(l, l', id);
    }
  }

  /** The log and the epochs a reception in epoch `e0` may lead to. */
  ghost predicate Progress(l: Log, l': Log, id: Id, e0: nat, e: nat) {
    && l.sk == l'.sk && l.ad == l'.ad && l.keys <= l'.keys
    && (l'.sent == l.sent || l'.sent == l.sent + [[]])
    && (l'.read == l.read || l'.read == l.read + {id})
    && (|| (|l'.keys| == |l.keys| && e == e0)
        || (|l'.keys| == |l.keys| + 1 && e == e0 + 2 && id.chain == e0 + 1))
  }

  lemma WorldAfterResponder(w: World, id: Id, l': Log, s: State, e: nat)
    requires WorldOk(w) && id in w.wire && id.chain % 2 == 1
    requires LogOk(l') && Progress(w.log, l', id, w.er, e) && PartyOk(l', e, s)
    requires WireOk(l', w.wire) && PartyOk(l', w.ei, w.initiator)
    ensures WorldOk(World(l', w.initiator, w.ei, s, e, w.wire))
  {
    TurnInStep(w.ei, w.er, |w.log.keys|);
    assert InStep(w.ei, e, |l'.keys|);
  }

  lemma WorldAfterInitiator(w: World, id: Id, l': Log, s: State, e: nat)
    requires WorldOk(w) && id in w.wire && id.chain % 2 == 0
    requires LogOk(l') && Progress(w.log, l', id, w.ei, e) && PartyOk(l', e, s)
    requires WireOk(l', w.wire) && PartyOk(l', w.er, w.responder)
    ensures WorldOk(World(l', s, e, w.responder, w.er, w.wire))
  {
    TurnInStep(w.ei, w.er, |w.log.keys|);
  }

  lemma WireStays(w: World, id: Id, l': Log, e: nat)
    requires WorldOk(w) && id in w.wire && LogOk(l') && Progress(w.log, l', id, w.Epoch(Reader(id)), e)
    ensures WireOk(l', w.wire)
  {
    WireDeliver(w.log, w.wire, l');
  }

  lemma WriterStays(w: World, id: Id, l': Log, e: nat)
    requires WorldOk(w) && id in w.wire && LogOk(l') && Progress(w.log, l', id, w.Epoch(Reader(id)), e)
    ensures PartyOk(l', w.Epoch(Peer(Reader(id))), w.Of(Peer(Reader(id))))
  {
    PeerActs(w.log, l', w.Epoch(Peer(Reader(id))), w.Of(Peer(Reader(id))));
  }

  lemma WorldAfter(w: World, id: Id, l': Log, s: State, e: nat)
    requires WorldOk(w) && id in w.wire
    requires LogOk(l') && Progress(w.log, l', id, w.Epoch(Reader(id)), e) && PartyOk(l', e, s)
    ensures WorldOk(w.With(Reader(id), l', s, e))
  {
    WireStays(w, id, l', e);
    WriterStays(w, id, l', e);
    if Reader(id).Responder? { WorldAfterResponder(w, id, l', s, e); } else { WorldAfterInitiator(w, id, l', s, e); }
  }

  lemma DeliverKeeps(w: World, id: Id, drawn: nat)
    requires WorldOk(w) && Allowed(w, Deliver(id, drawn))
    ensures WorldOk(Next(w, Deliver(id, drawn)))
    ensures Outcome(w, id, drawn) == Owed(w.Of(Reader(id)), w.wire[id].header, w.log.sent[id.chain][id.n])
  {
    hide PartyOk, Decrypted, Owed;
    var r := w.Of(Reader(id));
    DecryptKeeps(w.log, w.Epoch(Reader(id)), r, id, drawn);
    var (s, result) := Decrypted(r, w.wire[id], drawn);
    var turned := s.dhs != r.dhs;
    var l' := After(w.log, id, drawn, turned, result.Ok?);
    var e := w.Epoch(Reader(id)) + (if turned then 2 else 0);
    WorldAfter(w, id, l', s, e);
  }

  /** A damaged copy is never opened, and leaves the world as the message itself would have: it costs that message, at
      most, and nothing else. */
  lemma DamageIsDelivery(w: World, id: Id, c: Ciphertext, drawn: nat)
    requires WorldOk(w) && Allowed(w, Damage(id, c, drawn))
    ensures Next(w, Damage(id, c, drawn)) == Next(w, Deliver(id, drawn))
    ensures Decrypted(w.Of(Reader(id)), Damaged(w, id, c), drawn).1
         == match Outcome(w, id, drawn)
            case Ok(_) => Err(DecryptionFailed)
            case Err(e) => Err(e)
  {
    hide PartyOk, Decrypted, WireOk;
    var r := w.Of(Reader(id));
    DeliverKeeps(w, id, drawn);
    StateIgnoresTheSeal(r, w.wire[id], Damaged(w, id, c), drawn);
    OneKeyPerHeader(r, w.wire[id], Damaged(w, id, c), drawn);
  }

  // ------------------------------------------------------------------ runs

  ghost predicate IsRun(ws: seq<World>, evs: seq<Event>) {
    && |ws| == |evs| + 1
    && Opening(ws[0])
    && forall i | 0 <= i < |evs| :: Allowed(ws[i], evs[i]) && ws[i + 1] == Next(ws[i], evs[i])
  }

  lemma NextKeeps(w: World, ev: Event)
    requires WorldOk(w) && Allowed(w, ev)
    ensures WorldOk(Next(w, ev))
  {
    match ev
    case Write(p, plaintext) => WriteKeeps(w, p, plaintext);
    case Deliver(id, drawn) => DeliverKeeps(w, id, drawn);
    case Damage(id, c, drawn) =>
      DamageIsDelivery(w, id, c, drawn);
      DeliverKeeps(w, id, drawn);
  }

  lemma {:induction false} RunKeeps(ws: seq<World>, evs: seq<Event>, i: nat)
    requires IsRun(ws, evs) && i <= |evs|
    ensures WorldOk(ws[i])
  {
    if i == 0 {
      OpeningOk(ws[0]);
    } else {
      RunKeeps(ws, evs, i - 1);
      NextKeeps(ws[i - 1], evs[i - 1]);
    }
  }

  /** In every run, whatever was delayed, reordered or lost before, a genuine message opens to its own
      plaintext unless one of the two skips it asks for is longer than `MAX_SKIP`, and is refused with exactly
      that error otherwise. */
  lemma EveryDeliveryOpens(ws: seq<World>, evs: seq<Event>, i: nat)
    requires IsRun(ws, evs) && i < |evs| && evs[i].Deliver?
    ensures WorldOk(ws[i]) && evs[i].id in ws[i].wire && Sent(ws[i].log, evs[i].id)
    ensures var w, id := ws[i], evs[i].id;
            Outcome(w, id, evs[i].drawn) == Owed(w.Of(Reader(id)), w.wire[id].header, w.log.sent[id.chain][id.n])
  {
    RunKeeps(ws, evs, i);
    DeliverKeeps(ws[i], evs[i].id, evs[i].drawn);
  }

  /** Step `j` hands over the message, whole or damaged, and its key is spent on it. */
  ghost predicate Spends(ws: seq<World>, evs: seq<Event>, j: nat, id: Id)
    requires j < |ws| && j < |evs|
  {
    && (evs[j].Deliver? || evs[j].Damage?) && evs[j].id == id && id in ws[j].wire
    && Outcome(ws[j], id, evs[j].drawn).Ok?
  }

  lemma StepSpends(ws: seq<World>, evs: seq<Event>, j: nat, id: Id)
    requires IsRun(ws, evs) && j < |evs|
    ensures id in ws[j + 1].log.read <==> id in ws[j].log.read || Spends(ws, evs, j, id)
  {
    hide WorldOk, Decrypted, Encrypted;
    RunKeeps(ws, evs, j);
    if evs[j].Damage? { DamageIsDelivery(ws[j], evs[j].id, evs[j].ciphertext, evs[j].drawn); }
  }

  /** In every run a key is spent exactly by an earlier hand-over of its own message: whatever is damaged, no other
      message pays for it. */
  lemma {:induction false} SpentExactly(ws: seq<World>, evs: seq<Event>, i: nat, id: Id)
    requires IsRun(ws, evs) && i <= |evs|
    ensures id in ws[i].log.read <==> exists j: nat :: j < i && Spends(ws, evs, j, id)
  {
    hide Spends, Next, Allowed;
    if i == 0 {
      NothingRead(ws[0]);
    } else {
      SpentExactly(ws, evs, i - 1, id);
      StepSpends(ws, evs, i - 1, id);
    }
  }

  lemma NothingRead(w: World)
    requires Opening(w)
    ensures w.log.read == {}
  {
  }

  lemma StashOfCurrentChain(l: Log, e: nat, r: State, n: nat)
    requires LogOk(l) && PartyOk(l, e, r) && e >= 2
    ensures var slot, id := Slot(r.dhr.value, n), Id(e - 1, n);
            && (slot in r.skipped <==> n < r.nr && id !in l.read)
            && (slot in r.skipped ==> Sent(l, id) && r.skipped[slot] == KeyOf(l, id))
  {
    assert Slot(r.dhr.value, n) == SlotOf(l, Id(e - 1, n));
  }

  lemma StashInWorld(w: World, p: Party, n: nat)
    requires WorldOk(w) && w.Epoch(p) >= 2
    ensures var slot, id := Slot(w.Of(p).dhr.value, n), Id(w.Epoch(p) - 1, n);
            && (slot in w.Of(p).skipped <==> n < w.Of(p).nr && id !in w.log.read)
            && (slot in w.Of(p).skipped ==> id in w.wire && w.Of(p).skipped[slot] == w.wire[id].ciphertext.mk)
  {
    StashOfCurrentChain(w.log, w.Epoch(p), w.Of(p), n);
  }

  /** In every run the stash holds, for the peer's current key, exactly the unread positions already stepped
      over, each with the key its message was sealed under. */
  lemma StashIsExact(ws: seq<World>, evs: seq<Event>, i: nat, p: Party, n: nat)
    requires IsRun(ws, evs) && i <= |evs| && ws[i].Epoch(p) >= 2
    ensures WorldOk(ws[i])
    ensures var w, slot, id := ws[i], Slot(ws[i].Of(p).dhr.value, n), Id(ws[i].Epoch(p) - 1, n);
            && (slot in w.Of(p).skipped <==> n < w.Of(p).nr && id !in w.log.read)
            && (slot in w.Of(p).skipped ==> id in w.wire && w.Of(p).skipped[slot] == w.wire[id].ciphertext.mk)
  {
    hide WorldOk;
    RunKeeps(ws, evs, i);
    StashInWorld(ws[i], p, n);
  }

  // ------------------------------------------------------------------ roots know their depth

  function RootDepth(rk: RootKey): nat {
    match rk case X3dhKey(_) => 0 case NextRoot(r, _) => 1 + RootDepth(r)
  }

  lemma {:induction false} RootAtDepth(sk: RootKey, keys: seq<nat>, k: nat)
    requires k < |keys|
    ensures RootDepth(RootAt(sk, keys, k)) == RootDepth(sk) + k
  {
    if k > 0 { RootAtDepth(sk, keys, k - 1); }
  }
}

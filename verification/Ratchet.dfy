/** One party of the Double Ratchet: what each operation does to its state, and the class whose methods do it. */
module Ratchet {
  import opened Prelude
  import opened RatchetKeys

  const MAX_SKIP: nat := 1000

  /** Index of the stash: a ratchet key of the peer and a position in its chain. */
  datatype Slot = Slot(dh: PublicKey, n: nat)

  datatype State = State(
    dhs: nat,
    dhr: Option<PublicKey>,
    rk: RootKey,
    cks: Option<ChainKey>,
    ckr: Option<ChainKey>,
    ns: nat,
    nr: nat,
    pn: nat,
    skipped: map<Slot, MessageKey>,
    ad: Binding)

  // ------------------------------------------------------------------ operations on states

  /** The keys of messages `from..until` of the chain that stands at `ck` for message `from`. */
  function Stash(dh: PublicKey, ck: ChainKey, from: nat, until: nat): (m: map<Slot, MessageKey>)
    requires from <= until
    decreases until - from
  {
    if from == until then map[]
    else Stash(dh, ck, from, until - 1)[Slot(dh, until - 1) := MessageKey(Advance(ck, until - 1 - from))]
  }

  lemma {:induction false} StashContents(dh: PublicKey, ck: ChainKey, from: nat, until: nat)
    requires from <= until
    ensures forall d :: d in Stash(dh, ck, from, until) <==> d.dh == dh && from <= d.n < until
    ensures forall d | d in Stash(dh, ck, from, until) ::
              Stash(dh, ck, from, until)[d] == MessageKey(Advance(ck, d.n - from))
    decreases until - from
  {
    if from < until { StashContents(dh, ck, from, until - 1); }
  }

  function Skip(r: State, until: nat): Result<State, RatchetError> {
    if r.ckr.None? then
      if until == 0 then Ok(r) else Err(NoSession)
    else if until < r.nr then Err(MessageKeyGone)
    else if until - r.nr > MAX_SKIP then Err(TooManySkipped(until - r.nr, MAX_SKIP))
    else if r.dhr.None? then Err(NoSession)
    else Ok(r.(skipped := r.skipped + Stash(r.dhr.value, r.ckr.value, r.nr, until),
               ckr := Some(Advance(r.ckr.value, until - r.nr)),
               nr := until))
  }

  /** `dh_ratchet`: a receiving chain with the old pair, a sending chain with the freshly drawn one. */
  function Turn(r: State, dh: PublicKey, drawn: nat): State {
    var (rk1, ckr) := KdfRk(r.rk, DiffieHellman(r.dhs, dh));
    var (rk2, cks) := KdfRk(rk1, DiffieHellman(drawn, dh));
    r.(pn := r.ns, ns := 0, nr := 0, dhr := Some(dh), ckr := Some(ckr), dhs := drawn, rk := rk2, cks := Some(cks))
  }

  /** The last step of a reception: consume the key at the head of the receiving chain. */
  function Consume(r: State, m: Message): (State, Result<Bytes, RatchetError>) {
    if r.ckr.None? then (r, Err(NoSession))
    else
      var (next, mk) := KdfCk(r.ckr.value);
      (r.(ckr := Some(next), nr := r.nr + 1), AeadOpen(mk, m.ciphertext, Aad(r.ad, m.header)))
  }

  /** Cases 2 and 3 of `decrypt`, once the peer's ratchet has been followed. */
  function Receive(r: State, m: Message): (State, Result<Bytes, RatchetError>) {
    match Skip(r, m.header.n)
    case Err(e) => (r, Err(e))
    case Ok(s) => Consume(s, m)
  }

  /** `decrypt`. An error returned halfway leaves the changes made so far: the state is part of the result. */
  function Decrypted(r: State, m: Message, drawn: nat): (State, Result<Bytes, RatchetError>) {
    var key := Slot(m.header.dh, m.header.n);
    if key in r.skipped then
      (r.(skipped := r.skipped - {key}), AeadOpen(r.skipped[key], m.ciphertext, Aad(r.ad, m.header)))
    else if r.dhr != Some(m.header.dh) then
      match Skip(r, m.header.pn)
      case Err(e) => (r, Err(e))
      case Ok(s) => Receive(Turn(s, m.header.dh, drawn), m)
    else Receive(r, m)
  }

  function Encrypted(r: State, plaintext: Bytes): (State, Result<Message, RatchetError>) {
    if r.cks.None? then (r, Err(NoSession))
    else
      var (next, mk) := KdfCk(r.cks.value);
      var header := Header(PublicKey(r.dhs), r.pn, r.ns);
      (r.(cks := Some(next), ns := r.ns + 1), Ok(Message(header, Sealed(mk, plaintext, Aad(r.ad, header)))))
  }

  // ------------------------------------------------------------------ what a header decides and what the seal does

  /** Where a reception leaves the state is decided by the header alone: a damaged ciphertext, or one of nobody's, moves
      it exactly as the message it was put in the place of. */
  lemma StateIgnoresTheSeal(r: State, a: Message, b: Message, drawn: nat)
    requires a.header == b.header
    ensures Decrypted(r, a, drawn).0 == Decrypted(r, b, drawn).0
  {
  }

  /** And the result by one key: of all messages under a header at most those sealed with that key open, the others get
      the failed seal, unless the header itself is refused, which it then is for all of them alike. */
  lemma OneKeyPerHeader(r: State, a: Message, b: Message, drawn: nat)
    requires a.header == b.header
    ensures var x, y := Decrypted(r, a, drawn).1, Decrypted(r, b, drawn).1;
            && (x.Ok? ==>
                  y == if b.ciphertext.mk == a.ciphertext.mk && b.ciphertext.aad == a.ciphertext.aad
                       then Ok(b.ciphertext.plaintext) else Err(DecryptionFailed))
            && (x.Err? && x.error != DecryptionFailed ==> y == x)
  {
  }

  function Initiator(sharedSecret: RootKey, ad: Binding, responderKey: PublicKey, drawn: nat): State {
    var (rk, cks) := KdfRk(sharedSecret, DiffieHellman(drawn, responderKey));
    State(drawn, Some(responderKey), rk, Some(cks), None, 0, 0, 0, map[], ad)
  }

  function Responder(sharedSecret: RootKey, ad: Binding, signedPrekey: nat): State {
    State(signedPrekey, None, sharedSecret, None, None, 0, 0, 0, map[], ad)
  }

  // ------------------------------------------------------------------ bounded memory

  lemma {:induction false} StashSize(dh: PublicKey, ck: ChainKey, from: nat, until: nat)
    requires from <= until
    ensures |Stash(dh, ck, from, until)| == until - from
    decreases until - from
  {
    if from < until {
      StashSize(dh, ck, from, until - 1);
      StashContents(dh, ck, from, until - 1);
    }
  }

  lemma UnionSize<K, V>(a: map<K, V>, b: map<K, V>)
    ensures |a + b| <= |a| + |b|
  {
    assert (a + b).Keys == a.Keys + b.Keys;
  }

  lemma RemovalSize<K, V>(a: map<K, V>, k: K)
    ensures |a - {k}| <= |a|
  {
    assert a.Keys == (a - {k}).Keys + (a.Keys * {k});
  }

  lemma SkipBounded(r: State, until: nat)
    ensures Skip(r, until).Ok? ==> |Skip(r, until).value.skipped| <= |r.skipped| + MAX_SKIP
  {
    if Skip(r, until).Ok? && r.ckr.Some? {
      StashSize(r.dhr.value, r.ckr.value, r.nr, until);
      UnionSize(r.skipped, Stash(r.dhr.value, r.ckr.value, r.nr, until));
    }
  }

  /** Whatever a peer or the network sends, one reception stashes at most `2 * MAX_SKIP` keys. */
  lemma DecryptBounded(r: State, m: Message, drawn: nat)
    ensures |Decrypted(r, m, drawn).0.skipped| <= |r.skipped| + 2 * MAX_SKIP
  {
    RemovalSize(r.skipped, Slot(m.header.dh, m.header.n));
    SkipBounded(r, m.header.pn);
    SkipBounded(r, m.header.n);
    if Skip(r, m.header.pn).Ok? {
      SkipBounded(Turn(Skip(r, m.header.pn).value, m.header.dh, drawn), m.header.n);
    }
  }

  // ------------------------------------------------------------------ the class

  class DoubleRatchet {
    var dhs: nat
    var dhr: Option<PublicKey>
    var rk: RootKey
    var cks: Option<ChainKey>
    var ckr: Option<ChainKey>
    var ns: nat
    var nr: nat
    var pn: nat
    var skipped: map<Slot, MessageKey>
    var ad: Binding

    ghost function View(): State
      reads this
    {
      State(dhs, dhr, rk, cks, ckr, ns, nr, pn, skipped, ad)
    }

    constructor InitInitiator(sharedSecret: RootKey, associatedData: Binding, responderRatchetKey: PublicKey,
                              drawn: nat)
      ensures View() == Initiator(sharedSecret, associatedData, responderRatchetKey, drawn)
    {
      var (root, sending) := KdfRk(sharedSecret, DiffieHellman(drawn, responderRatchetKey));
      dhs, dhr, rk, cks, ckr := drawn, Some(responderRatchetKey), root, Some(sending), None;
      ns, nr, pn, skipped, ad := 0, 0, 0, map[], associatedData;
    }

    constructor InitResponder(sharedSecret: RootKey, associatedData: Binding, signedPrekey: nat)
      ensures View() == Responder(sharedSecret, associatedData, signedPrekey)
    {
      dhs, dhr, rk, cks, ckr := signedPrekey, None, sharedSecret, None, None;
      ns, nr, pn, skipped, ad := 0, 0, 0, map[], associatedData;
    }

    method Encrypt(plaintext: Bytes) returns (r: Result<Message, RatchetError>)
      requires ns < U32_MAX
      modifies this
      ensures (View(), r) == Encrypted(old(View()), plaintext)
    {
      if cks.None? {
        return Err(NoSession);
      }
      var (next, mk) := KdfCk(cks.value);
      cks := Some(next);
      var header := Header(PublicKey(dhs), pn, ns);
      ns := ns + 1;
      return Ok(Message(header, Sealed(mk, plaintext, Aad(ad, header))));
    }

    method Decrypt(message: Message, drawn: nat) returns (r: Result<Bytes, RatchetError>)
      modifies this
      ensures (View(), r) == Decrypted(old(View()), message, drawn)
    {
      var key := Slot(message.header.dh, message.header.n);
      if key in skipped {
        var mk := skipped[key];
        skipped := skipped - {key};
        return AeadOpen(mk, message.ciphertext, Aad(ad, message.header));
      }
      if dhr != Some(message.header.dh) {
        var settled := SkipMessageKeys(message.header.pn);
        if settled.Err? {
          return Err(settled.error);
        }
        DhRatchet(message.header, drawn);
      }
      var reached := SkipMessageKeys(message.header.n);
      if reached.Err? {
        return Err(reached.error);
      }
      if ckr.None? {
        return Err(NoSession);
      }
      var (next, mk) := KdfCk(ckr.value);
      ckr := Some(next);
      nr := nr + 1;
      return AeadOpen(mk, message.ciphertext, Aad(ad, message.header));
    }

    method SkipMessageKeys(until: nat) returns (r: Result<(), RatchetError>)
      modifies this
      ensures match Skip(old(View()), until)
              case Ok(s) => r == Ok(()) && View() == s
              case Err(e) => r == Err(e) && View() == old(View())
    {
      if ckr.None? {
        return if until == 0 then Ok(()) else Err(NoSession);
      }
      if until < nr {
        return Err(MessageKeyGone);
      }
      var toSkip := until - nr;
      if toSkip > MAX_SKIP {
        return Err(TooManySkipped(toSkip, MAX_SKIP));
      }
      if dhr.None? {
        return Err(NoSession);
      }
      var chain := ckr.value;
      for n := nr to until
        invariant nr == old(nr) && dhr == old(dhr) && dhr.Some?
        invariant chain == Advance(old(ckr).value, n - nr)
        invariant skipped == old(skipped) + Stash(dhr.value, old(ckr).value, old(nr), n)
        invariant View() == old(View()).(skipped := skipped)
      {
        var (next, mk) := KdfCk(chain);
        skipped := skipped[Slot(dhr.value, n) := mk];
        chain := next;
      }
      ckr := Some(chain);
      nr := until;
      return Ok(());
    }

    method DhRatchet(header: Header, drawn: nat)
      modifies this
      ensures View() == Turn(old(View()), header.dh, drawn)
    {
      pn, ns, nr := ns, 0, 0;
      dhr := Some(header.dh);
      var (rk1, receiving) := KdfRk(rk, DiffieHellman(dhs, header.dh));
      rk, ckr := rk1, Some(receiving);
      dhs := drawn;
      var (rk2, sending) := KdfRk(rk, DiffieHellman(dhs, header.dh));
      rk, cks := rk2, Some(sending);
    }
  }
}

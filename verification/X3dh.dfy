/** X3DH: how both sides come by the root key and the associated data a ratchet starts from. */
module X3dh {
  import opened Prelude
  import opened RatchetKeys

  /** Private scalars of a long-term identity. */
  datatype IdentityKeyPair = IdentityKeyPair(dh: nat, sign: nat)

  function Public(identity: IdentityKeyPair): IdentityPublic {
    IdentityPublic(PublicKey(identity.dh), PublicKey(identity.sign))
  }

  /** A signature names its signing key and the key it covers; nothing else verifies. */
  datatype Signature = Signature(signer: nat, covers: PublicKey)

  datatype PreKeyBundle = PreKeyBundle(
    identity: IdentityPublic,
    signedPrekey: PublicKey,
    signature: Signature,
    oneTimePrekey: Option<PublicKey>)

  predicate Verifies(bundle: PreKeyBundle) {
    PublicKey(bundle.signature.signer) == bundle.identity.sign && bundle.signature.covers == bundle.signedPrekey
  }

  datatype PreKeyStore = PreKeyStore(identity: IdentityKeyPair, signedPrekey: nat, oneTimePrekey: Option<nat>)

  function Bundle(store: PreKeyStore): PreKeyBundle {
    PreKeyBundle(
      Public(store.identity),
      PublicKey(store.signedPrekey),
      Signature(store.identity.sign, PublicKey(store.signedPrekey)),
      match store.oneTimePrekey case None => None case Some(k) => Some(PublicKey(k)))
  }

  datatype InitialMessage = InitialMessage(identity: IdentityPublic, ephemeral: PublicKey, usedOneTimePrekey: bool)

  datatype Outcome = Outcome(sharedSecret: RootKey, associatedData: Binding)

  function Initiate(identity: IdentityKeyPair, bundle: PreKeyBundle, ephemeral: nat)
    : Result<(Outcome, InitialMessage), RatchetError>
  {
    if !Verifies(bundle) then Err(BadPreKeySignature)
    else
      var dhs := [DiffieHellman(identity.dh, bundle.signedPrekey),
                  DiffieHellman(ephemeral, bundle.identity.dh),
                  DiffieHellman(ephemeral, bundle.signedPrekey)]
                 + match bundle.oneTimePrekey case None => [] case Some(k) => [DiffieHellman(ephemeral, k)];
      Ok((Outcome(X3dhKey(dhs), Binding(Public(identity), bundle.identity)),
          InitialMessage(Public(identity), PublicKey(ephemeral), bundle.oneTimePrekey.Some?)))
  }

  function Respond(store: PreKeyStore, initial: InitialMessage): Result<Outcome, RatchetError> {
    if initial.usedOneTimePrekey && store.oneTimePrekey.None? then Err(Malformed)
    else
      var dhs := [DiffieHellman(store.signedPrekey, initial.identity.dh),
                  DiffieHellman(store.identity.dh, initial.ephemeral),
                  DiffieHellman(store.signedPrekey, initial.ephemeral)]
                 + if initial.usedOneTimePrekey then [DiffieHellman(store.oneTimePrekey.value, initial.ephemeral)]
                   else [];
      Ok(Outcome(X3dhKey(dhs), Binding(initial.identity, Public(store.identity))))
  }

  /** Against a bundle the responder published, both sides reach one outcome exactly when the initial message
      arrives as it was sent. */
  lemma OutcomesAgree(identity: IdentityKeyPair, store: PreKeyStore, ephemeral: nat, received: InitialMessage)
    ensures Initiate(identity, Bundle(store), ephemeral).Ok?
    ensures var (outcome, initial) := Initiate(identity, Bundle(store), ephemeral).value;
            Respond(store, received) == Ok(outcome) <==> received == initial
  {
    var (outcome, initial) := Initiate(identity, Bundle(store), ephemeral).value;
    var r := Respond(store, received);
    if r == Ok(outcome) {
      var mine, theirs := outcome.sharedSecret.outputs, r.value.sharedSecret.outputs;
      assert |mine| == |theirs| && mine[2] == theirs[2];
    }
  }

  /** The associated data names both parties, the initiator first: an initiator and a responder share it exactly when
      each has in mind the identity the other one is. */
  lemma AssociatedDataNamesBoth(identity: IdentityKeyPair, bundle: PreKeyBundle, ephemeral: nat,
                                store: PreKeyStore, initial: InitialMessage)
    requires Initiate(identity, bundle, ephemeral).Ok? && Respond(store, initial).Ok?
    ensures var mine := Initiate(identity, bundle, ephemeral).value.0.associatedData;
            var theirs := Respond(store, initial).value.associatedData;
            && mine.initiator == Public(identity) && mine.responder == bundle.identity
            && (mine == theirs <==> initial.identity == Public(identity) && bundle.identity == Public(store.identity))
  {
  }

  /** Neither side says yes to what it cannot check: an unsigned prekey, a one-time prekey that is not there. */
  lemma RefusalsExact(identity: IdentityKeyPair, bundle: PreKeyBundle, ephemeral: nat,
                      store: PreKeyStore, initial: InitialMessage)
    ensures Initiate(identity, bundle, ephemeral).Err? <==>
              bundle.signature != Signature(bundle.identity.sign.secret, bundle.signedPrekey)
    ensures Respond(store, initial).Err? <==> initial.usedOneTimePrekey && store.oneTimePrekey.None?
  {
  }

  /** Whatever bundle a server hands out in an owner's name, with any signature it can get hold of: the session rests
      on a prekey that owner signed, on its first and on its third agreement, or there is no session. */
  lemma SessionsRestOnSignedPrekeys(identity: IdentityKeyPair, owner: IdentityKeyPair, signed: set<PublicKey>,
                                    bundle: PreKeyBundle, ephemeral: nat) returns (prekey: PublicKey)
    requires bundle.identity == Public(owner)
    requires bundle.signature.signer == owner.sign ==> bundle.signature.covers in signed
    requires Initiate(identity, bundle, ephemeral).Ok?
    ensures prekey in signed
    ensures var outputs := Initiate(identity, bundle, ephemeral).value.0.sharedSecret.outputs;
            && |outputs| >= 3
            && outputs[0] == DiffieHellman(identity.dh, prekey) && outputs[2] == DiffieHellman(ephemeral, prekey)
            && (bundle.oneTimePrekey.Some? ==>
                  |outputs| == 4 && outputs[3] == DiffieHellman(ephemeral, bundle.oneTimePrekey.value))
  {
    prekey := bundle.signedPrekey;
  }
}

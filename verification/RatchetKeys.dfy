/** Symbolic key material of the ratchet: key agreement commutes, every derivation is a constructor, and a
    sealed message opens only under the key and the associated data it was sealed with. */
module RatchetKeys {
  import opened Prelude

  /** The public half of the key pair whose private scalar is `secret`. */
  datatype PublicKey = PublicKey(secret: nat)

  datatype DhOutput = DhOutput(low: nat, high: nat)

  function DiffieHellman(secret: nat, peer: PublicKey): DhOutput {
    if secret <= peer.secret then DhOutput(secret, peer.secret) else DhOutput(peer.secret, secret)
  }

  datatype RootKey = X3dhKey(outputs: seq<DhOutput>) | NextRoot(rk: RootKey, dh: DhOutput)

  datatype ChainKey = FirstChain(rk: RootKey, dh: DhOutput) | NextChain(ck: ChainKey)

  datatype MessageKey = MessageKey(ck: ChainKey)

  /** `kdf_rk`: the next root and a fresh chain. */
  function KdfRk(rk: RootKey, dh: DhOutput): (RootKey, ChainKey) {
    (NextRoot(rk, dh), FirstChain(rk, dh))
  }

  /** `kdf_ck`: the next chain key and the key of one message. */
  function KdfCk(ck: ChainKey): (ChainKey, MessageKey) {
    (NextChain(ck), MessageKey(ck))
  }

  /** The chain key `steps` messages later. */
  function Advance(ck: ChainKey, steps: nat): ChainKey {
    if steps == 0 then ck else NextChain(Advance(ck, steps - 1))
  }

  lemma {:induction false} AdvanceAdds(ck: ChainKey, i: nat, j: nat)
    ensures Advance(Advance(ck, i), j) == Advance(ck, i + j)
    decreases j
  {
    if j > 0 { AdvanceAdds(ck, i, j - 1); }
  }

  /** How far a chain key is from the start of its chain, and that start. */
  function Steps(ck: ChainKey): nat {
    match ck case FirstChain(_, _) => 0 case NextChain(c) => 1 + Steps(c)
  }

  function Base(ck: ChainKey): ChainKey {
    match ck case FirstChain(_, _) => ck case NextChain(c) => Base(c)
  }

  lemma {:induction false} AdvanceFrom(ck: ChainKey, n: nat)
    ensures Steps(Advance(ck, n)) == Steps(ck) + n && Base(Advance(ck, n)) == Base(ck)
  {
    if n > 0 { AdvanceFrom(ck, n - 1); }
  }

  lemma {:induction false} AdvanceInjective(a: ChainKey, b: ChainKey, n: nat)
    requires Advance(a, n) == Advance(b, n)
    ensures a == b
  {
    if n > 0 { AdvanceInjective(a, b, n - 1); }
  }

  datatype Header = Header(dh: PublicKey, pn: nat, n: nat)

  /** A long-term identity as its peer knows it: an agreement key and a verification key. */
  datatype IdentityPublic = IdentityPublic(dh: PublicKey, sign: PublicKey)

  /** The associated data of a session: both identities, the initiator's first. */
  datatype Binding = Binding(initiator: IdentityPublic, responder: IdentityPublic)

  /** The associated data of a message: that of the session followed by its header. */
  datatype Aad = Aad(session: Binding, header: Header)

  datatype Ciphertext = Sealed(mk: MessageKey, plaintext: Bytes, aad: Aad)

  datatype Message = Message(header: Header, ciphertext: Ciphertext)

  datatype RatchetError =
    | NoSession
    | MessageKeyGone
    | TooManySkipped(asked: nat, cap: nat)
    | DecryptionFailed
    | BadPreKeySignature
    | Malformed

  function AeadOpen(mk: MessageKey, c: Ciphertext, aad: Aad): Result<Bytes, RatchetError> {
    if c.mk == mk && c.aad == aad then Ok(c.plaintext) else Err(DecryptionFailed)
  }
}

/** The forty bytes of a ratchet header, which the associated data of every message ends with. */
module HeaderCodec {
  import opened Prelude
  import opened RatchetKeys

  const LEN: nat := 40

  type Key = b: Bytes | |b| == 32 witness seq(32, _ => 0)

  /** How public keys are written: each on thirty-two bytes, no two alike. */
  ghost predicate Writes(encode: PublicKey -> Key) {
    forall a, b | encode(a) == encode(b) :: a == b
  }

  /** The counters of the header are `u32`. */
  predicate CountersFit(h: Header) {
    h.pn <= U32_MAX && h.n <= U32_MAX
  }

  function Encoded(encode: PublicKey -> Key, h: Header): (r: Bytes)
    ensures |r| == LEN
  {
    encode(h.dh) + BigEndian(h.pn, 4) + BigEndian(h.n, 4)
  }

  datatype Malformed = InvalidHeaderSize

  /** Key bytes and counters. */
  datatype Parts = Parts(dh: Key, pn: nat, n: nat)

  function Decoded(b: Bytes): (r: Result<Parts, Malformed>)
    ensures r.Ok? <==> |b| == LEN
  {
    if |b| != LEN then Err(InvalidHeaderSize)
    else Ok(Parts(b[..32], FromBigEndian(b[32..36]), FromBigEndian(b[36..])))
  }

  /** A header reads back from its bytes, and only from them. */
  lemma HeaderRoundTrip(encode: PublicKey -> Key, h: Header, b: Bytes)
    requires CountersFit(h)
    ensures Decoded(b) == Ok(Parts(encode(h.dh), h.pn, h.n)) <==> b == Encoded(encode, h)
    ensures var e := Encoded(encode, h);
            && e[..32] == encode(h.dh)
            && FromBigEndian(e[32..36]) == h.pn && FromBigEndian(e[36..]) == h.n
  {
    assert Pow256(4) == U32_MAX + 1;
    BigEndianRoundTrip(h.pn, 4);
    BigEndianRoundTrip(h.n, 4);
    var e := Encoded(encode, h);
    assert e[..32] == encode(h.dh) && e[32..36] == BigEndian(h.pn, 4) && e[36..] == BigEndian(h.n, 4);
    if |b| == LEN {
      BigEndianInverse(b[32..36]);
      BigEndianInverse(b[36..]);
      assert b == b[..32] + b[32..36] + b[36..];
    }
  }

  /** The bytes tell any two headers apart, whatever session bytes of one length go before them: binding a message to
      the value of its header, as the ratchet model does, is binding it to those bytes. */
  lemma BytesBindTheHeader(encode: PublicKey -> Key, session: Bytes, other: Bytes, h: Header, k: Header)
    requires Writes(encode) && CountersFit(h) && CountersFit(k) && |session| == |other|
    ensures session + Encoded(encode, h) == other + Encoded(encode, k) <==> session == other && h == k
  {
    if session + Encoded(encode, h) == other + Encoded(encode, k) {
      SplitConcat(session, Encoded(encode, h), other, Encoded(encode, k));
      HeaderRoundTrip(encode, h, Encoded(encode, h));
      HeaderRoundTrip(encode, k, Encoded(encode, k));
    }
  }
}

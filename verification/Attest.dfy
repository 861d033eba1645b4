/** The messages accounts, devices and groups sign or authenticate, and why no two of them share bytes. */
module Attest {
  import opened Prelude

  datatype AttestError = FieldTooLong

  /** Unix seconds, a `u64`. */
  type Timestamp = n: nat | n <= 0xFFFF_FFFF_FFFF_FFFF

  /** What a message states. Text fields are their UTF-8 bytes. */
  datatype Claim =
    | Device(account: Bytes, deviceId: Bytes, authKey: Bytes, mlsKey: Bytes)
    | Revocation(account: Bytes, deviceId: Bytes, revokedAt: Timestamp)
    | Rotation(account: Bytes, newIdentityKey: Bytes, rotatedAt: Timestamp)
    | Post(groupId: Bytes, nonce: Bytes, bodyDigest: Bytes)
    | Signal(groupId: Bytes, nonce: Bytes, bodyDigest: Bytes)
    | Gateway(deviceId: Bytes, nonce: Bytes)

  function Ascii(s: string): (r: Bytes)
    requires forall i | 0 <= i < |s| :: s[i] < 128 as char
    ensures |r| == |s| && forall i | 0 <= i < |s| :: r[i] == s[i] as int
  {
    if s == [] then []
    else
      var first: Byte := s[0] as int;
      [first] + Ascii(s[1..])
  }

  function Label(claim: Claim): string {
    match claim
    case Device(_, _, _, _) => "wac-attest-v2"
    case Revocation(_, _, _) => "wac-revoke-v2"
    case Rotation(_, _, _) => "wac-rotate-v2"
    case Post(_, _, _) => "wac-post-v1"
    case Signal(_, _, _) => "wac-signal-mac-v1"
    case Gateway(_, _) => "wac-gateway-v1"
  }

  function Domain(claim: Claim): Bytes {
    Ascii(Label(claim))
  }

  function Fields(claim: Claim): seq<Bytes> {
    match claim
    case Device(account, deviceId, authKey, mlsKey) => [account, deviceId, authKey, mlsKey]
    case Revocation(account, deviceId, at) => [account, deviceId, BigEndian(at, 8)]
    case Rotation(account, key, at) => [account, key, BigEndian(at, 8)]
    case Post(groupId, nonce, digest) => [groupId, nonce, digest]
    case Signal(groupId, nonce, digest) => [groupId, nonce, digest]
    case Gateway(deviceId, nonce) => [deviceId, nonce]
  }

  predicate Fit(parts: seq<Bytes>) {
    forall p | p in parts :: |p| <= U16_MAX
  }

  function Prefixed(parts: seq<Bytes>): Bytes {
    if parts == [] then [] else U16Be(|parts[0]|) + parts[0] + Prefixed(parts[1..])
  }

  function Message(claim: Claim): Result<Bytes, AttestError> {
    if Fit(Fields(claim)) then Ok(Domain(claim) + Prefixed(Fields(claim))) else Err(FieldTooLong)
  }

  lemma {:induction false} PrefixedSnoc(parts: seq<Bytes>, i: nat)
    requires i < |parts|
    ensures Prefixed(parts[..i + 1]) == Prefixed(parts[..i]) + U16Be(|parts[i]|) + parts[i]
  {
    if i == 0 {
      assert parts[..1][1..] == [] && parts[..0] == [];
    } else {
      PrefixedSnoc(parts[1..], i - 1);
      assert parts[..i + 1][1..] == parts[1..][..i] && parts[..i][1..] == parts[1..][..i - 1];
    }
  }

  /** `encode`: refuses a field its prefix could not describe, and appends the rest one by one. */
  method Encode(domain: Bytes, parts: seq<Bytes>) returns (r: Result<Bytes, AttestError>)
    ensures r == if Fit(parts) then Ok(domain + Prefixed(parts)) else Err(FieldTooLong)
  {
    if exists p :: p in parts && |p| > U16_MAX {
      return Err(FieldTooLong);
    }
    var out := domain;
    for i := 0 to |parts|
      invariant out == domain + Prefixed(parts[..i])
    {
      PrefixedSnoc(parts, i);
      out := out + U16Be(|parts[i]|);
      out := out + parts[i];
    }
    assert parts[..|parts|] == parts;
    return Ok(out);
  }

  method Build(claim: Claim) returns (r: Result<Bytes, AttestError>)
    ensures r == Message(claim)
  {
    r := Encode(Domain(claim), Fields(claim));
  }

  /** Fields come back from the bytes, whatever follows them. */
  lemma PrefixedHead(parts: seq<Bytes>, x: Bytes)
    requires parts != []
    ensures Prefixed(parts) + x == U16Be(|parts[0]|) + (parts[0] + (Prefixed(parts[1..]) + x))
  {
  }

  lemma {:induction false} PrefixedSplits(a: seq<Bytes>, b: seq<Bytes>, x: Bytes, y: Bytes)
    requires Fit(a) && Fit(b) && |a| == |b| && Prefixed(a) + x == Prefixed(b) + y
    ensures a == b && x == y
  {
    if a == [] {
      assert [] + x == x && [] + y == y;
    } else {
      var s, t := U16Be(|a[0]|), U16Be(|b[0]|);
      var u, v := Prefixed(a[1..]) + x, Prefixed(b[1..]) + y;
      PrefixedHead(a, x);
      PrefixedHead(b, y);
      SplitConcat(s, a[0] + u, t, b[0] + v);
      assert a[0] in a && b[0] in b;
      U16RoundTrip(|a[0]|);
      U16RoundTrip(|b[0]|);
      SplitConcat(a[0], u, b[0], v);
      PrefixedSplits(a[1..], b[1..], x, y);
    }
  }

  /** The labels part ways within their first six letters. */
  lemma LabelsPartWays(x: Claim, y: Claim)
    requires Label(x) != Label(y)
    ensures Domain(x)[4] != Domain(y)[4] || Domain(x)[5] != Domain(y)[5]
  {
  }

  lemma SameFieldsSameClaim(x: Claim, y: Claim)
    requires Label(x) == Label(y) && Fields(x) == Fields(y)
    ensures x == y
  {
    assert Pow256(8) == 0x1_0000_0000_0000_0000;
    if x.Revocation? {
      assert Fields(x)[2] == Fields(y)[2];
      BigEndianRoundTrip(x.revokedAt, 8);
      BigEndianRoundTrip(y.revokedAt, 8);
    }
    if x.Rotation? {
      assert Fields(x)[2] == Fields(y)[2];
      BigEndianRoundTrip(x.rotatedAt, 8);
      BigEndianRoundTrip(y.rotatedAt, 8);
    }
    assert Fields(x)[0] == Fields(y)[0] && Fields(x)[1] == Fields(y)[1];
    if |Fields(x)| > 2 { assert Fields(x)[2] == Fields(y)[2]; }
    if |Fields(x)| > 3 { assert Fields(x)[3] == Fields(y)[3]; }
  }

  lemma EarlyDifference(a: Bytes, x: Bytes, b: Bytes, y: Bytes)
    requires |a| > 5 && |b| > 5 && (a[4] != b[4] || a[5] != b[5])
    ensures a + x != b + y
  {
    assert (a + x)[4] == a[4] && (a + x)[5] == a[5] && (b + y)[4] == b[4] && (b + y)[5] == b[5];
  }

  lemma SameLabel(x: Claim, y: Claim, a: Bytes, b: Bytes)
    requires Domain(x) + a == Domain(y) + b
    ensures Label(x) == Label(y)
  {
    if Label(x) != Label(y) {
      LabelsPartWays(x, y);
      EarlyDifference(Domain(x), a, Domain(y), b);
    }
  }

  /** No message is the beginning of another, whichever builders made them: bytes that verify for one claim say
      nothing of any other, even with more bytes after them. */
  lemma MessagesArePrefixFree(x: Claim, y: Claim, tail: Bytes)
    requires Message(x).Ok? && Message(y).Ok? && Message(x).value + tail == Message(y).value
    ensures x == y && tail == []
  {
    var fx, fy := Prefixed(Fields(x)), Prefixed(Fields(y));
    Append(Domain(x), fx, tail);
    Append(Domain(y), fy, []);
    SameLabel(x, y, fx + tail, fy + []);
    SplitConcat(Domain(x), fx + tail, Domain(y), fy + []);
    PrefixedSplits(Fields(x), Fields(y), tail, []);
    SameFieldsSameClaim(x, y);
  }

  /** Two messages are the same bytes only when they are the same claim. */
  lemma MessagesNeverCollide(x: Claim, y: Claim)
    requires Message(x).Ok? && Message(x) == Message(y)
    ensures x == y
  {
    assert Message(x).value + [] == Message(y).value;
    MessagesArePrefixFree(x, y, []);
  }
}

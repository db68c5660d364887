/**
 Presence beacons (crates/daemonseed-core/src/heartbeat.rs): signed, padded to one constant length,
 sealed; and opened and verified on the other side.
 */
module Heartbeat {
  import opened Wrappers
  import opened Bytes
  import opened AeadEnvelope
  import T = Transcripts

  const HEARTBEAT_AAD: seq<Byte> := Ascii("daemonseed/presence/heartbeat/v1")
  const HEARTBEAT_PADDED_PLAINTEXT_LEN: nat := 8192
  const HEARTBEAT_LEN_PREFIX: nat := 4
  const HEARTBEAT_SEALED_LEN: nat := NONCE_LEN + HEARTBEAT_PADDED_PLAINTEXT_LEN + TAG_LEN

  datatype MemberHeartbeat = MemberHeartbeat(
    room: Blob, senderPubkey: Blob, senderHandle: Blob, sentUnixMs: T.I64, signature: Blob,
    liveShareIds: seq<Blob>, isLeave: bool)
  {
    /** What the signature binds: everything but the advisory handle and the signature itself. */
    function Bound(): T.Signed {
      T.Heartbeat(room, senderPubkey, sentUnixMs, liveShareIds, isLeave)
    }
  }

  datatype Fields = Fields(room: Blob, senderHandle: Blob, sentUnixMs: T.I64, liveShareIds: seq<Blob>, isLeave: bool)

  datatype HeartbeatError =
    | EntropyFailed
    | CipherFailed
    | Authentication
    | Truncated
    | TooLarge(got: nat, max: nat)
    | Undecodable
    | Provenance

  /** The protobuf codec of the wire message. */
  datatype Proto = Proto(encode: MemberHeartbeat -> seq<Byte>, decode: seq<Byte> -> Option<MemberHeartbeat>) {
    ghost predicate Correct() {
      forall m :: decode(encode(m)) == Some(m)
    }
  }

  function FromEnvelope(e: EnvelopeError): HeartbeatError {
    match e
    case EntropySource => EntropyFailed
    case Encrypt(_) => CipherFailed
    case TooShort => Truncated
    case Decrypt(TagMismatch) => Authentication
    case Decrypt(ModeError) => CipherFailed
  }

  // ---------------------------------------------------------------------------------------------
  // Constant-length framing
  // ---------------------------------------------------------------------------------------------

  /** Length prefix, message, zeros. */
  function Padded(encoded: seq<Byte>): seq<Byte>
    requires HEARTBEAT_LEN_PREFIX + |encoded| <= HEARTBEAT_PADDED_PLAINTEXT_LEN
  {
    LittleEndian(|encoded|, HEARTBEAT_LEN_PREFIX) + encoded
    + seq(HEARTBEAT_PADDED_PLAINTEXT_LEN - HEARTBEAT_LEN_PREFIX - |encoded|, _ => 0)
  }

  method CopyInto(buf: array<Byte>, at: nat, s: seq<Byte>)
    requires at + |s| <= buf.Length
    modifies buf
    ensures buf[..] == old(buf[..at]) + s + old(buf[at + |s|..])
  {
    for i := 0 to |s|
      invariant buf[..at] == old(buf[..at])
      invariant buf[at..at + i] == s[..i]
      invariant buf[at + i..] == old(buf[at + i..])
    {
      buf[at + i] := s[i];
      assert buf[at..at + i + 1] == s[..i + 1];
    }
    assert buf[..] == buf[..at] + buf[at..at + |s|] + buf[at + |s|..];
  }

  method PadPlaintext(encoded: seq<Byte>) returns (r: Result<array<Byte>, HeartbeatError>)
    ensures HEARTBEAT_LEN_PREFIX + |encoded| > HEARTBEAT_PADDED_PLAINTEXT_LEN ==>
              r == Err(TooLarge(HEARTBEAT_LEN_PREFIX + |encoded|, HEARTBEAT_PADDED_PLAINTEXT_LEN))
    ensures HEARTBEAT_LEN_PREFIX + |encoded| <= HEARTBEAT_PADDED_PLAINTEXT_LEN ==>
              r.Ok? && fresh(r.value) && r.value[..] == Padded(encoded)
  {
    if HEARTBEAT_LEN_PREFIX + |encoded| > HEARTBEAT_PADDED_PLAINTEXT_LEN {
      return Err(TooLarge(HEARTBEAT_LEN_PREFIX + |encoded|, HEARTBEAT_PADDED_PLAINTEXT_LEN));
    }
    var buf := new Byte[HEARTBEAT_PADDED_PLAINTEXT_LEN](_ => 0);
    var prefix := LittleEndian(|encoded|, HEARTBEAT_LEN_PREFIX);
    CopyInto(buf, 0, prefix);
    assert buf[..HEARTBEAT_LEN_PREFIX] == prefix;
    assert forall i :: HEARTBEAT_LEN_PREFIX <= i < buf.Length ==> buf[i] == buf[..][i] == 0;
    ghost var rest := buf[HEARTBEAT_LEN_PREFIX + |encoded|..];
    assert rest == seq(HEARTBEAT_PADDED_PLAINTEXT_LEN - HEARTBEAT_LEN_PREFIX - |encoded|, _ => 0);
    CopyInto(buf, HEARTBEAT_LEN_PREFIX, encoded);
    assert buf[..] == prefix + encoded + rest;
    r := Ok(buf);
  }

  function Unpadded(padded: seq<Byte>): Result<seq<Byte>, HeartbeatError> {
    if |padded| < HEARTBEAT_LEN_PREFIX then Err(Truncated)
    else
      var end := HEARTBEAT_LEN_PREFIX + FromLittleEndian(padded[..HEARTBEAT_LEN_PREFIX]);
      if end > |padded| then Err(Truncated) else Ok(padded[HEARTBEAT_LEN_PREFIX..end])
  }

  /** The frame: four bytes of length, least significant first, the message, and nothing but zeros. */
  lemma PaddedLayout(encoded: seq<Byte>)
    requires 4 + |encoded| <= 8192
    ensures var n, frame := |encoded|, Padded(encoded);
      && |frame| == 8192
      && frame[..4] == [n % 256, n / 0x100 % 256, n / 0x1_0000 % 256, n / 0x100_0000 % 256]
      && frame[4..4 + n] == encoded
      && forall i :: 4 + n <= i < 8192 ==> frame[i] == 0
  {
    LittleEndianBytes(|encoded|);
    hide LittleEndian;
  }

  /** Every frame is 8192 bytes whatever it holds, and unpadding recovers what was framed. */
  lemma PadRoundTrip(encoded: seq<Byte>)
    requires HEARTBEAT_LEN_PREFIX + |encoded| <= HEARTBEAT_PADDED_PLAINTEXT_LEN
    ensures |Padded(encoded)| == 8192
    ensures Unpadded(Padded(encoded)) == Ok(encoded)
  {
    Pow256Values();
    LittleEndianRoundTrip(|encoded|, HEARTBEAT_LEN_PREFIX);
    hide LittleEndian, FromLittleEndian;
    assert Padded(encoded)[..HEARTBEAT_LEN_PREFIX] == LittleEndian(|encoded|, HEARTBEAT_LEN_PREFIX);
    assert Padded(encoded)[HEARTBEAT_LEN_PREFIX..HEARTBEAT_LEN_PREFIX + |encoded|] == encoded;
  }

  // ---------------------------------------------------------------------------------------------
  // Seal and open
  // ---------------------------------------------------------------------------------------------

  /** The wire message a member signs. */
  function Message(scheme: Scheme, sk: seq<Byte>, f: Fields): MemberHeartbeat {
    var pk := scheme.publicKey(sk);
    var signature := scheme.sign(sk, T.Transcript(T.Heartbeat(f.room, pk, f.sentUnixMs, f.liveShareIds, f.isLeave)));
    MemberHeartbeat(f.room, pk, f.senderHandle, f.sentUnixMs, signature, f.liveShareIds, f.isLeave)
  }

  method SealHeartbeat(aead: Aead, scheme: Scheme, proto: Proto, key: seq<Byte>, sk: seq<Byte>, f: Fields,
                       nonce: Option<Nonce>)
    returns (r: Result<seq<Byte>, HeartbeatError>)
    ensures var encoded := proto.encode(Message(scheme, sk, f));
      if HEARTBEAT_LEN_PREFIX + |encoded| > HEARTBEAT_PADDED_PLAINTEXT_LEN
      then r == Err(TooLarge(HEARTBEAT_LEN_PREFIX + |encoded|, HEARTBEAT_PADDED_PLAINTEXT_LEN))
      else if nonce == None then r == Err(EntropyFailed)
      else
        match Sealed(aead, key, HEARTBEAT_AAD, Padded(encoded), nonce.value)
        case Ok(sealed) => r == Ok(sealed)
        case Err(_) => r == Err(CipherFailed)
  {
    hide Padded, Sealed;
    var pk := scheme.publicKey(sk);
    var input := T.HeartbeatInput(f.room, pk, f.sentUnixMs, f.liveShareIds, f.isLeave);
    var message := MemberHeartbeat(f.room, pk, f.senderHandle, f.sentUnixMs, scheme.sign(sk, input),
                                   f.liveShareIds, f.isLeave);
    var padded := PadPlaintext(proto.encode(message));
    if padded.Err? {
      return Err(padded.error);
    }
    var sealed := SealEnvelope(aead, key, HEARTBEAT_AAD, padded.value[..], nonce);
    if sealed.Err? {
      return Err(FromEnvelope(sealed.error));
    }
    r := Ok(sealed.value);
  }

  function OpenHeartbeat(aead: Aead, scheme: Scheme, proto: Proto, key: seq<Byte>, sealed: seq<Byte>)
    : Result<MemberHeartbeat, HeartbeatError>
  {
    match OpenEnvelope(aead, key, HEARTBEAT_AAD, sealed)
    case Err(e) => Err(FromEnvelope(e))
    case Ok(plaintext) =>
      match Unpadded(plaintext)
      case Err(e) => Err(e)
      case Ok(encoded) =>
        match proto.decode(encoded)
        case None => Err(Undecodable)
        case Some(m) =>
          if scheme.Accepts(m.senderPubkey, T.Transcript(m.Bound()), m.signature) then Ok(m) else Err(Provenance)
  }

  /**
   Whatever its fields, a beacon that seals is 8220 bytes long and opens to the message that was signed,
   each field in its place.
   */
  lemma SealedBeaconOpens(aead: Aead, scheme: Scheme, proto: Proto, key: seq<Byte>, sk: seq<Byte>, f: Fields,
                          nonce: Nonce)
    requires aead.Correct() && scheme.Correct() && proto.Correct()
    requires HEARTBEAT_LEN_PREFIX + |proto.encode(Message(scheme, sk, f))| <= HEARTBEAT_PADDED_PLAINTEXT_LEN
    ensures var m := Message(scheme, sk, f);
      var sealed := Sealed(aead, key, HEARTBEAT_AAD, Padded(proto.encode(m)), nonce);
      sealed.Ok? ==>
        && |sealed.value| == HEARTBEAT_SEALED_LEN == 8220
        && OpenHeartbeat(aead, scheme, proto, key, sealed.value) == Ok(m)
    ensures var m := Message(scheme, sk, f);
      && m.room == f.room && m.senderPubkey == scheme.publicKey(sk) && m.senderHandle == f.senderHandle
      && m.sentUnixMs == f.sentUnixMs && m.liveShareIds == f.liveShareIds && m.isLeave == f.isLeave
  {
    RelabelledBeaconOpens(aead, scheme, proto, key, sk, f, f.senderHandle, nonce);
  }

  /** The handle is not signed: a beacon resealed under any other handle that fits opens, with that handle. */
  lemma RelabelledBeaconOpens(aead: Aead, scheme: Scheme, proto: Proto, key: seq<Byte>, sk: seq<Byte>, f: Fields,
                              other: Blob,
                              nonce: Nonce)
    requires aead.Correct() && scheme.Correct() && proto.Correct()
    requires var m := Message(scheme, sk, f).(senderHandle := other);
      HEARTBEAT_LEN_PREFIX + |proto.encode(m)| <= HEARTBEAT_PADDED_PLAINTEXT_LEN
    ensures var m := Message(scheme, sk, f).(senderHandle := other);
      var sealed := Sealed(aead, key, HEARTBEAT_AAD, Padded(proto.encode(m)), nonce);
      sealed.Ok? ==>
        && |sealed.value| == HEARTBEAT_SEALED_LEN == 8220
        && OpenHeartbeat(aead, scheme, proto, key, sealed.value) == Ok(m)
  {
    hide T.Transcript, Padded, Unpadded, Sealed, OpenEnvelope;
    var m := Message(scheme, sk, f).(senderHandle := other);
    var encoded := proto.encode(m);
    PadRoundTrip(encoded);
    EnvelopeRoundTrip(aead, key, HEARTBEAT_AAD, Padded(encoded), nonce);
    assert proto.decode(encoded) == Some(m);
    assert scheme.verify(m.senderPubkey, T.Transcript(m.Bound()), m.signature);
  }

  /**
   A signature that verifies for one transcript only fixes what can be opened with it: no opened beacon
   carries it with another room, time, digest or leave flag.
   */
  lemma OpenedBeaconIsAsSigned(aead: Aead, scheme: Scheme, proto: Proto, key: seq<Byte>, sealed: seq<Byte>,
                               signed: MemberHeartbeat)
    requires OpenHeartbeat(aead, scheme, proto, key, sealed).Ok?
    requires var m := OpenHeartbeat(aead, scheme, proto, key, sealed).value;
      && m.signature == signed.signature && m.senderPubkey == signed.senderPubkey
      && m.Bound().Countable() && signed.Bound().Countable()
    requires forall t :: scheme.verify(signed.senderPubkey, t, signed.signature) ==> t == T.Transcript(signed.Bound())
    ensures OpenHeartbeat(aead, scheme, proto, key, sealed).value.(senderHandle := signed.senderHandle) == signed
  {
    hide T.Transcript, OpenEnvelope, Unpadded;
    var m := OpenHeartbeat(aead, scheme, proto, key, sealed).value;
    T.TranscriptInjective(m.Bound(), signed.Bound());
  }

  /**
   Nothing unverified is surfaced, and every malformed length is refused: a short envelope, a short
   frame, a prefix that overruns. A failed tag, and nothing else, reads as an authentication failure.
   */
  lemma OpenFailsClosed(aead: Aead, scheme: Scheme, proto: Proto, key: seq<Byte>, sealed: seq<Byte>)
    ensures var r := OpenHeartbeat(aead, scheme, proto, key, sealed);
      && (r.Ok? ==> && |r.value.senderPubkey| == 2592 && |r.value.signature| == 4627
                    && scheme.verify(r.value.senderPubkey, T.Transcript(r.value.Bound()), r.value.signature))
      && (|sealed| < 28 ==> r == Err(Truncated))
      && (r == Err(Authentication) <==> OpenEnvelope(aead, key, HEARTBEAT_AAD, sealed) == Err(Decrypt(TagMismatch)))
      && (r == Err(CipherFailed) <==> OpenEnvelope(aead, key, HEARTBEAT_AAD, sealed) == Err(Decrypt(ModeError)))
    ensures var plain := OpenEnvelope(aead, key, HEARTBEAT_AAD, sealed);
      plain.Ok? && (|plain.value| < 4 || 4 + FromLittleEndian(plain.value[..4]) > |plain.value|) ==>
        OpenHeartbeat(aead, scheme, proto, key, sealed) == Err(Truncated)
  {
    hide FromLittleEndian, T.Transcript;
  }

  /** What an opened frame holds decides the rest: nothing decodable, a message that is not signed, or one that is. */
  lemma OpenedFrameIsJudged(aead: Aead, scheme: Scheme, proto: Proto, key: seq<Byte>, sealed: seq<Byte>,
                            plain: seq<Byte>, encoded: seq<Byte>)
    requires OpenEnvelope(aead, key, HEARTBEAT_AAD, sealed) == Ok(plain) && Unpadded(plain) == Ok(encoded)
    ensures var r := OpenHeartbeat(aead, scheme, proto, key, sealed);
      && (r == Err(Undecodable) <==> proto.decode(encoded) == None)
      && (r.Ok? ==> proto.decode(encoded) == Some(r.value))
      && (proto.decode(encoded).Some? ==>
            var m := proto.decode(encoded).value;
            if |m.senderPubkey| == 2592 && |m.signature| == 4627
               && scheme.verify(m.senderPubkey, T.Transcript(m.Bound()), m.signature)
            then r == Ok(m) else r == Err(Provenance))
  {
    hide T.Transcript, OpenEnvelope, Unpadded;
  }
}

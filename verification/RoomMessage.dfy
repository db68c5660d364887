/** The one signed room-message path (crates/daemonseed-core/src/room_message.rs) behind public rooms and circles. */
module RoomMessage {
  import opened Wrappers
  import opened Bytes
  import opened AeadEnvelope
  import HB = Heartbeat
  import T = Transcripts

  datatype WireMessage = WireMessage(
    roomId: Blob, senderPubkey: Blob, senderHandle: Blob, body: Blob, sentUnixMs: T.I64, signature: Blob)

  datatype RoomMessageError = EntropyFailed | CipherFailed | Authentication | Truncated | Undecodable | Provenance

  datatype Proto = Proto(encode: WireMessage -> seq<Byte>, decode: seq<Byte> -> Option<WireMessage>) {
    ghost predicate Correct() {
      forall m :: decode(encode(m)) == Some(m)
    }
  }

  /** A surface's tag as additional data is its provenance domain. */
  function AadOf(surface: T.Surface): seq<Byte> {
    Ascii(if surface.PublicRoom? then T.ROOM_PROVENANCE_DOMAIN else T.CIRCLE_PROVENANCE_DOMAIN)
  }

  function FromEnvelope(e: EnvelopeError): RoomMessageError {
    match e
    case EntropySource => EntropyFailed
    case Encrypt(_) => CipherFailed
    case TooShort => Truncated
    case Decrypt(TagMismatch) => Authentication
    case Decrypt(ModeError) => CipherFailed
  }

  function Message(scheme: Scheme, surface: T.Surface, sk: seq<Byte>, roomId: Blob, handle: Blob, body: Blob,
                   sent: T.I64): WireMessage {
    var pk := scheme.publicKey(sk);
    var signature := scheme.sign(sk, T.Transcript(T.RoomPost(surface, roomId, pk, sent, body)));
    WireMessage(roomId, pk, handle, body, sent, signature)
  }

  method SealSignedRoomMessage(aead: Aead, scheme: Scheme, proto: Proto, key: seq<Byte>, surface: T.Surface,
                               sk: seq<Byte>,
                               roomId: Blob, handle: Blob, body: Blob, sent: T.I64, nonce: Option<Nonce>)
    returns (r: Result<seq<Byte>, RoomMessageError>)
    ensures nonce == None ==> r == Err(EntropyFailed)
    ensures nonce.Some? ==>
              var m := Message(scheme, surface, sk, roomId, handle, body, sent);
              match Sealed(aead, key, AadOf(surface), proto.encode(m), nonce.value)
              case Ok(sealed) => r == Ok(sealed)
              case Err(_) => r == Err(CipherFailed)
  {
    hide Sealed;
    var pk := scheme.publicKey(sk);
    var input := T.RoomInput(surface, roomId, pk, sent, body);
    var message := WireMessage(roomId, pk, handle, body, sent, scheme.sign(sk, input));
    var sealed := SealEnvelope(aead, key, AadOf(surface), proto.encode(message), nonce);
    if sealed.Err? {
      return Err(FromEnvelope(sealed.error));
    }
    r := Ok(sealed.value);
  }

  /** The signature is checked over `expectedRoomId`, never over the id the message carries. */
  function OpenSignedRoomMessage(aead: Aead, scheme: Scheme, proto: Proto, key: seq<Byte>, surface: T.Surface,
                                 sealed: seq<Byte>, expectedRoomId: Blob): Result<WireMessage, RoomMessageError>
  {
    match OpenEnvelope(aead, key, AadOf(surface), sealed)
    case Err(e) => Err(FromEnvelope(e))
    case Ok(plaintext) =>
      match proto.decode(plaintext)
      case None => Err(Undecodable)
      case Some(m) =>
        var input := T.Transcript(T.RoomPost(surface, expectedRoomId, m.senderPubkey, m.sentUnixMs, m.body));
        if scheme.Accepts(m.senderPubkey, input, m.signature) then Ok(m) else Err(Provenance)
  }

  /**
   A sealed message opens under the key and surface it was sealed for, with the room, sender, handle,
   body and time it was made from; and where its signature verifies for its own transcript only, it opens
   for the room it was signed for and for no other.
   */
  lemma SealedMessageOpensInItsRoom(aead: Aead, scheme: Scheme, proto: Proto, key: seq<Byte>, surface: T.Surface,
                                    sk: seq<Byte>,
                                    roomId: Blob, handle: Blob, body: Blob, sent: T.I64, nonce: Nonce, expected: Blob)
    requires aead.Correct() && scheme.Correct() && proto.Correct()
    requires var m := Message(scheme, surface, sk, roomId, handle, body, sent);
      forall t :: scheme.verify(m.senderPubkey, t, m.signature) ==>
        t == T.Transcript(T.RoomPost(surface, roomId, m.senderPubkey, sent, body))
    ensures var m := Message(scheme, surface, sk, roomId, handle, body, sent);
      var sealed := Sealed(aead, key, AadOf(surface), proto.encode(m), nonce);
      sealed.Ok? ==>
        OpenSignedRoomMessage(aead, scheme, proto, key, surface, sealed.value, expected)
          == if expected == roomId then Ok(m) else Err(Provenance)
    ensures Message(scheme, surface, sk, roomId, handle, body, sent)
         == WireMessage(roomId, scheme.publicKey(sk), handle, body, sent,
                        Message(scheme, surface, sk, roomId, handle, body, sent).signature)
  {
    hide T.Transcript, Sealed, OpenEnvelope, AadOf;
    var m := Message(scheme, surface, sk, roomId, handle, body, sent);
    EnvelopeRoundTrip(aead, key, AadOf(surface), proto.encode(m), nonce);
    assert proto.decode(proto.encode(m)) == Some(m);
    var signed := T.RoomPost(surface, roomId, m.senderPubkey, sent, body);
    var asked := T.RoomPost(surface, expected, m.senderPubkey, sent, body);
    assert scheme.verify(m.senderPubkey, T.Transcript(signed), m.signature);
    if scheme.verify(m.senderPubkey, T.Transcript(asked), m.signature) {
      T.TranscriptInjective(asked, signed);
    }
  }

  /**
   The room id a message carries is never looked at: with any other id in its place the message is
   opened exactly when it was, and comes back carrying that id.
   */
  lemma CarriedRoomIsUnchecked(aead: Aead, scheme: Scheme, proto: Proto, key: seq<Byte>, surface: T.Surface,
                               m: WireMessage,
                               other: Blob, nonce: Nonce, nonce': Nonce, expected: Blob)
    requires aead.Correct() && proto.Correct()
    requires Sealed(aead, key, AadOf(surface), proto.encode(m), nonce).Ok?
    requires Sealed(aead, key, AadOf(surface), proto.encode(m.(roomId := other)), nonce').Ok?
    ensures var moved := m.(roomId := other);
      var sealed, sealed' := Sealed(aead, key, AadOf(surface), proto.encode(m), nonce).value,
                             Sealed(aead, key, AadOf(surface), proto.encode(moved), nonce').value;
      OpenSignedRoomMessage(aead, scheme, proto, key, surface, sealed, expected) == Ok(m)
      <==> OpenSignedRoomMessage(aead, scheme, proto, key, surface, sealed', expected) == Ok(moved)
  {
    hide T.Transcript, Sealed, OpenEnvelope, AadOf;
    var moved := m.(roomId := other);
    EnvelopeRoundTrip(aead, key, AadOf(surface), proto.encode(m), nonce);
    EnvelopeRoundTrip(aead, key, AadOf(surface), proto.encode(moved), nonce');
    assert proto.decode(proto.encode(m)) == Some(m) && proto.decode(proto.encode(moved)) == Some(moved);
  }

  /** Heartbeats and both surfaces seal under tags of their own, so none opens as another. */
  lemma TagsAreApart()
    ensures AadOf(T.PublicRoom) == Ascii("daemonseed/public-room/message/v1")
    ensures AadOf(T.Circle) == Ascii("daemonseed/circle/message/v2")
    ensures HB.HEARTBEAT_AAD == Ascii("daemonseed/presence/heartbeat/v1")
    ensures AadOf(T.PublicRoom) != AadOf(T.Circle)
    ensures HB.HEARTBEAT_AAD != AadOf(T.PublicRoom) && HB.HEARTBEAT_AAD != AadOf(T.Circle)
  {
    assert |AadOf(T.PublicRoom)| == 33 && |AadOf(T.Circle)| == 28 && |HB.HEARTBEAT_AAD| == 32;
  }

  /**
   Nothing unverified is surfaced: what opens carries a key and a signature of the right lengths that
   verifies over the expected room. A short envelope is Truncated, a failed tag and nothing else
   Authentication, and what decodes but is not so signed is Provenance.
   */
  lemma OpenFailsClosed(aead: Aead, scheme: Scheme, proto: Proto, key: seq<Byte>, surface: T.Surface, sealed: seq<Byte>,
                        expected: Blob)
    ensures var r := OpenSignedRoomMessage(aead, scheme, proto, key, surface, sealed, expected);
      var plain := OpenEnvelope(aead, key, AadOf(surface), sealed);
      && (r == Err(Truncated) <==> |sealed| < 28)
      && (r == Err(Authentication) <==> plain == Err(Decrypt(TagMismatch)))
      && (r == Err(CipherFailed) <==> plain == Err(Decrypt(ModeError)))
      && (r == Err(Undecodable) <==> plain.Ok? && proto.decode(plain.value) == None)
      && (plain.Ok? && proto.decode(plain.value).Some? ==>
            var m := proto.decode(plain.value).value;
            var input := T.Transcript(T.RoomPost(surface, expected, m.senderPubkey, m.sentUnixMs, m.body));
            if |m.senderPubkey| == 2592 && |m.signature| == 4627 && scheme.verify(m.senderPubkey, input, m.signature)
            then r == Ok(m) else r == Err(Provenance))
  {
    hide T.Transcript, AadOf;
  }

  /** A signature made for one surface cannot be opened on the other, even with one key for both. */
  lemma NoCrossSurfaceReplay(aead: Aead, scheme: Scheme, proto: Proto, key: seq<Byte>, surface: T.Surface,
                             sealed: seq<Byte>,
                             expected: Blob, signed: T.Signed)
    requires OpenSignedRoomMessage(aead, scheme, proto, key, surface, sealed, expected).Ok?
    requires signed.Countable()
    requires var m := OpenSignedRoomMessage(aead, scheme, proto, key, surface, sealed, expected).value;
      forall t :: scheme.verify(m.senderPubkey, t, m.signature) ==> t == T.Transcript(signed)
    ensures var m := OpenSignedRoomMessage(aead, scheme, proto, key, surface, sealed, expected).value;
      signed == T.RoomPost(surface, expected, m.senderPubkey, m.sentUnixMs, m.body)
  {
    hide T.Transcript, OpenEnvelope, AadOf;
    var m := OpenSignedRoomMessage(aead, scheme, proto, key, surface, sealed, expected).value;
    T.TranscriptInjective(T.RoomPost(surface, expected, m.senderPubkey, m.sentUnixMs, m.body), signed);
  }
}

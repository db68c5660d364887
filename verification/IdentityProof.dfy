/**
 Identity proofs (crates/daemonseed-core/src/identity_proof.rs): the signed input, the verifier, and
 what recording the highest accepted counter buys over a whole run.
 */
module IdentityProof {
  import opened Wrappers
  import opened Bytes
  import opened AeadEnvelope
  import H = Handle
  import T = Transcripts

  const CHANNEL_BINDING_LEN := 32
  const SKEW_WINDOW_MS: nat := 300_000

  type U16 = n: nat | n < 0x1_0000
  type U32 = n: nat | n < 0x1_0000_0000
  type U64 = n: nat | n < 0x1_0000_0000_0000_0000
  type ChannelBinding = s: seq<Byte> | |s| == CHANNEL_BINDING_LEN witness seq(CHANNEL_BINDING_LEN, _ => 0)

  /** A field the 16-bit prefix can carry; the source panics on a longer one. */
  type Short = s: seq<Byte> | |s| < 0x1_0000

  datatype ProtocolVersion = ProtocolVersion(major: U32, minor: U32)

  datatype Role = Unspecified | Client | Server

  /** `suiteId` is absent, or any 32-bit value; the role is any wire number's reading. */
  datatype Envelope = Envelope(
    suiteId: Option<U32>, role: Option<Role>, claimedHandle: Short, claimedPubkey: Short,
    signedAtUnixMs: U64, counter: U64, signature: Blob)

  datatype VerifiedPeer = VerifiedPeer(handle: Short, pubkey: Short, counter: U64, counterGap: bool)

  /** What one verification is given beside the envelope: all recomputed locally. */
  datatype Context = Context(channelBinding: ChannelBinding, version: ProtocolVersion, nowUnixMs: U64)

  /** The verifier's fixed surroundings: the scheme, the hash, the suites it knows, and UTF-8 text as characters. */
  datatype Verifier = Verifier(
    scheme: Scheme, sha384: seq<Byte> -> Digest, supportedSuite: U16 -> bool, text: seq<Byte> -> string)

  function VersionContext(v: ProtocolVersion): seq<Byte> {
    BigEndian(v.major, 4) + BigEndian(v.minor, 4)
  }

  function SigningInput(binding: ChannelBinding, handle: Short, pubkey: Short, version: ProtocolVersion,
                        signedAt: U64, counter: U64)
    : seq<Byte>
  {
    var times := BigEndian(signedAt, 8) + BigEndian(counter, 8);
    binding + (Lp(2, handle) + (Lp(2, pubkey) + (VersionContext(version) + times)))
  }

  method BuildSigningInput(binding: ChannelBinding, handle: Short, pubkey: Short, version: ProtocolVersion,
                           signedAt: U64, counter: U64)
    returns (bytes: seq<Byte>)
    ensures bytes == SigningInput(binding, handle, pubkey, version, signedAt, counter)
  {
    hide BigEndian, Lp;
    var buf := new Buffer();
    buf.Append(binding);
    buf.PushLp(2, handle);
    buf.PushLp(2, pubkey);
    buf.Append(VersionContext(version));
    buf.Append(BigEndian(signedAt, 8));
    buf.Append(BigEndian(counter, 8));
    Nest(binding, Lp(2, handle), Lp(2, pubkey), VersionContext(version), BigEndian(signedAt, 8), BigEndian(counter, 8));
    bytes := buf.data;
  }

  lemma Nest(a: seq<Byte>, b: seq<Byte>, c: seq<Byte>, d: seq<Byte>, e: seq<Byte>, f: seq<Byte>)
    ensures [] + a + b + c + d + e + f == a + (b + (c + (d + (e + f))))
  {
  }

  lemma BigEndianInjective(v: nat, w: nat, width: nat)
    requires v < Pow256(width) && w < Pow256(width) && BigEndian(v, width) == BigEndian(w, width)
    ensures v == w
  {
    BigEndianRoundTrip(v, width);
    BigEndianRoundTrip(w, width);
  }

  /** The signed input determines the session, the version and every signed field. */
  lemma SigningInputInjective(b: ChannelBinding, h: Short, pk: Short, v: ProtocolVersion, t: U64, n: U64,
                              b': ChannelBinding, h': Short, pk': Short, v': ProtocolVersion, t': U64, n': U64)
    requires SigningInput(b, h, pk, v, t, n) == SigningInput(b', h', pk', v', t', n')
    ensures b == b' && h == h' && pk == pk' && v == v' && t == t' && n == n'
  {
    hide BigEndian, Lp;
    Pow256Values();
    var times, times' := BigEndian(t, 8) + BigEndian(n, 8), BigEndian(t', 8) + BigEndian(n', 8);
    var tail, tail' := VersionContext(v) + times, VersionContext(v') + times';
    FixedInjective(b, Lp(2, h) + (Lp(2, pk) + tail), b', Lp(2, h') + (Lp(2, pk') + tail'));
    LpInjective(2, h, Lp(2, pk) + tail, h', Lp(2, pk') + tail');
    LpInjective(2, pk, tail, pk', tail');
    FixedInjective(VersionContext(v), times, VersionContext(v'), times');
    FixedInjective(BigEndian(v.major, 4), BigEndian(v.minor, 4), BigEndian(v'.major, 4), BigEndian(v'.minor, 4));
    FixedInjective(BigEndian(t, 8), BigEndian(n, 8), BigEndian(t', 8), BigEndian(n', 8));
    BigEndianInjective(v.major, v'.major, 4);
    BigEndianInjective(v.minor, v'.minor, 4);
    BigEndianInjective(t, t', 8);
    BigEndianInjective(n, n', 8);
  }

  // ---------------------------------------------------------------------------------------------
  // Apart from the tagged transcripts
  // ---------------------------------------------------------------------------------------------

  /** The 16-bit big-endian integer at position i. */
  function U16At(s: seq<Byte>, i: nat): nat
    requires i + 1 < |s|
  {
    var hi: nat, lo: nat := s[i], s[i + 1];
    256 * hi + lo
  }

  /** Dropping the last two bytes divides by 2 to the 16. */
  lemma BigEndianFront(v: nat, width: nat)
    ensures BigEndian(v, width + 2)[..width] == BigEndian(v / 0x1_0000, width)
  {
    var w1 := BigEndian(v / 256, width + 1);
    assert BigEndian(v, width + 2) == w1 + [v % 256];
    assert w1 == BigEndian(v / 256 / 256, width) + [v / 256 % 256];
    assert v / 256 / 256 == v / 0x1_0000;
    hide BigEndian;
    assert (w1 + [v % 256])[..width] == w1[..width];
  }

  lemma SplitAt16(top: nat, low: nat)
    requires low < 0x1_0000
    ensures (0x1_0000 * top + low) % 0x1_0000 == low
  {
  }

  lemma LowBits(v: nat)
    ensures v % 0x1_0000 == 256 * (v / 256 % 256) + v % 256
  {
    var top, hi, lo := v / 256 / 256, v / 256 % 256, v % 256;
    SplitAt16(top, 256 * hi + lo);
  }

  lemma TopBits(v: nat)
    requires v < 0x1_0000_0000_0000_0000
    ensures v / 0x1_0000 / 0x1_0000 == v / 0x1_0000_0000
    ensures v / 0x1_0000_0000 / 0x1_0000 == v / 0x1_0000_0000_0000 < 0x1_0000
    ensures v / 0x1_0000_0000_0000 / 256 == v / 0x100_0000_0000_0000
  {
  }

  /** The last two bytes are the low 16 bits. */
  lemma BigEndianLast(v: nat, width: nat)
    ensures U16At(BigEndian(v, width + 2), width) == v % 0x1_0000
  {
    var w1, hi, lo := BigEndian(v / 256, width + 1), v / 256 % 256, v % 256;
    assert BigEndian(v, width + 2) == w1 + [lo];
    assert w1 == BigEndian(v / 256 / 256, width) + [hi];
    LowBits(v);
    hide BigEndian;
    assert (w1 + [lo])[width] == hi && (w1 + [lo])[width + 1] == lo;
  }

  /** Where an identity proof's input holds its handle's length, as a tagged transcript would have it. */
  function LengthInPlace(s: T.Signed): nat {
    match s
    case ShareAnnounce(_, _, _, _, _, _, _, _) => 0x616E
    case RollCall(room, _, _) => |room| / 0x1_0000 % 0x1_0000
    case Heartbeat(room, _, _, _, _) => |room| / 0x1_0000_0000_0000
    case RoomPost(surface, room, _, _, _) =>
      if surface.PublicRoom? then 0x3100 + |room| / 0x100_0000_0000_0000 else |room| / 0x1_0000 % 0x1_0000
  }

  lemma PrefixOfFields(s: T.Signed)
    ensures BigEndian(|s.room|, 8) <= T.Fields(T.FieldsOf(s))
  {
    assert T.FieldsOf(s)[0] == s.room;
    assert T.Fields(T.FieldsOf(s)) == Lp(8, s.room) + T.Fields(T.FieldsOf(s)[1..]);
  }

  /** The bytes of a 64-bit room length that come to stand in that place, by how far the tag reaches. */
  lemma LengthBytes(v: nat)
    requires v < 0x1_0000_0000_0000_0000
    ensures U16At(BigEndian(v, 8), 0) == v / 0x1_0000_0000_0000
    ensures U16At(BigEndian(v, 8), 4) == v / 0x1_0000 % 0x1_0000
    ensures BigEndian(v, 8)[0] == v / 0x100_0000_0000_0000
  {
    hide BigEndian;
    TopBits(v);
    var v6, v4, v2 := v / 0x1_0000, v / 0x1_0000_0000, v / 0x1_0000_0000_0000;
    BigEndianFront(v, 6);
    BigEndianFront(v6, 4);
    BigEndianFront(v4, 2);
    BigEndianLast(v6, 4);
    BigEndianLast(v2, 0);
    var b8, b6, b4, b2 := BigEndian(v, 8), BigEndian(v6, 6), BigEndian(v4, 4), BigEndian(v2, 2);
    assert b8[..6] == b6 && b6[..4] == b4 && b4[..2] == b2;
    assert b8[0] == b6[0] == b4[0] == b2[0] && b8[1] == b6[1] == b4[1] == b2[1] && b8[4] == b6[4] && b8[5] == b6[5];
  }

  /** What stands at 32 and 33 behind a tag of 28, 32, 33 or 39 bytes. */
  lemma InPlace(d: string, f: seq<Byte>, b: seq<Byte>)
    requires |b| == 8 && b <= f && 28 <= |d|
    ensures |Ascii(d) + f| > 33
    ensures |d| == 28 ==> U16At(Ascii(d) + f, 32) == U16At(b, 4)
    ensures |d| == 32 ==> U16At(Ascii(d) + f, 32) == U16At(b, 0)
    ensures |d| == 33 ==> U16At(Ascii(d) + f, 32) == 256 * (d[32] as int % 256) + b[0]
    ensures |d| >= 34 ==> U16At(Ascii(d) + f, 32) == 256 * (d[32] as int % 256) + d[33] as int % 256
  {
  }

  /** How far each tag reaches, and what of it reaches that place. */
  lemma TagsInPlace(s: T.Signed)
    ensures var d := T.Domain(s);
      match s
      case ShareAnnounce(_, _, _, _, _, _, _, _) => |d| == 39 && d[32] == 'a' && d[33] == 'n'
      case RollCall(_, _, _) => |d| == 28
      case Heartbeat(_, _, _, _, _) => |d| == 32
      case RoomPost(surface, _, _, _, _) => if surface.PublicRoom? then |d| == 33 && d[32] == '1' else |d| == 28
  {
  }

  lemma TranscriptParts(s: T.Signed)
    ensures T.Transcript(s) == Ascii(T.Domain(s)) + T.Fields(T.FieldsOf(s))
  {
  }

  lemma TranscriptInPlace(s: T.Signed)
    ensures |T.Transcript(s)| > 33 && U16At(T.Transcript(s), 32) == LengthInPlace(s)
  {
    hide BigEndian, T.Fields, T.FieldsOf, T.Transcript, T.Domain, U16At, Ascii;
    TranscriptParts(s);
    PrefixOfFields(s);
    LengthBytes(|s.room|);
    TagsInPlace(s);
    InPlace(T.Domain(s), T.Fields(T.FieldsOf(s)), BigEndian(|s.room|, 8));
  }

  lemma InputInPlace(b: ChannelBinding, h: Short, pk: Short, v: ProtocolVersion, t: U64, n: U64)
    ensures |SigningInput(b, h, pk, v, t, n)| > 33 && U16At(SigningInput(b, h, pk, v, t, n), 32) == |h|
  {
    BigEndianLast(|h|, 0);
    hide BigEndian;
    assert Lp(2, h) == BigEndian(|h|, 2) + h;
  }

  /**
   An identity proof's input is no other signature's, though it carries no domain tag: it could equal a
   tagged transcript only with a handle of the length that transcript puts in its place. So it never
   equals a heartbeat of a room under 2^48 bytes, nor a circle message or roll-call of one under 2^16,
   unless the handle is empty; nor a public-room message or an announcement under a handle shorter than
   12,544 bytes.
   */
  lemma InputIsNoTranscript(b: ChannelBinding, h: Short, pk: Short, v: ProtocolVersion, t: U64, n: U64, s: T.Signed)
    ensures SigningInput(b, h, pk, v, t, n) == T.Transcript(s) ==> |h| == LengthInPlace(s)
    ensures h != [] && s.Heartbeat? && |s.room| < 0x1_0000_0000_0000 ==>
              SigningInput(b, h, pk, v, t, n) != T.Transcript(s)
    ensures 0 < |h| < 0x3100 && |s.room| < 0x1_0000 ==> SigningInput(b, h, pk, v, t, n) != T.Transcript(s)
  {
    hide SigningInput, T.Transcript;
    TranscriptInPlace(s);
    InputInPlace(b, h, pk, v, t, n);
  }

  function InputOf(e: Envelope, c: Context): seq<Byte> {
    SigningInput(c.channelBinding, e.claimedHandle, e.claimedPubkey, c.version, e.signedAtUnixMs, e.counter)
  }

  function AbsDiff(a: nat, b: nat): nat {
    if a < b then b - a else a - b
  }

  /** `None` is the one uniform rejection. */
  function VerifyEnvelope(verifier: Verifier, e: Envelope, c: Context, highestSeen: Option<U64>): Option<VerifiedPeer> {
    if e.suiteId == None || e.suiteId.value >= 0x1_0000 || !verifier.supportedSuite(e.suiteId.value) then None
    else if e.role != Some(Client) && e.role != Some(Server) then None
    else
      match H.Parse(verifier.text(e.claimedHandle))
      case Err(_) => None
      case Ok(claimed) =>
        if claimed.hashPrefix != verifier.sha384(e.claimedPubkey)[..H.HASH_PREFIX_BYTES] then None
        else if !verifier.scheme.Accepts(e.claimedPubkey, InputOf(e, c), e.signature) then None
        else if AbsDiff(c.nowUnixMs, e.signedAtUnixMs) > SKEW_WINDOW_MS then None
        else if highestSeen.Some? && e.counter <= highestSeen.value then None
        else Some(VerifiedPeer(e.claimedHandle, e.claimedPubkey, e.counter,
                               highestSeen.Some? && e.counter > highestSeen.value + 1))
  }

  /** The signed input: the binding, handle and key behind 16-bit lengths, version, time and counter raw. */
  lemma SigningInputLayout(binding: ChannelBinding, handle: Short, pubkey: Short, version: ProtocolVersion,
                           signedAt: U64, counter: U64)
    ensures SigningInput(binding, handle, pubkey, version, signedAt, counter)
         == binding + Lp(2, handle) + Lp(2, pubkey) + BigEndian(version.major, 4) + BigEndian(version.minor, 4)
            + BigEndian(signedAt, 8) + BigEndian(counter, 8)
  {
    hide BigEndian, Lp;
    Nest(binding, Lp(2, handle), Lp(2, pubkey), VersionContext(version), BigEndian(signedAt, 8), BigEndian(counter, 8));
    var start := binding + Lp(2, handle) + Lp(2, pubkey);
    assert start + VersionContext(version) == start + BigEndian(version.major, 4) + BigEndian(version.minor, 4);
    assert [] + binding == binding;
  }

  /**
   Which envelopes are accepted, whoever made them: those of a known suite and a client or server role,
   whose handle parses and carries the first six bytes of the key's hash, signed under a key and with a
   signature of the right lengths over this session's input, no more than five minutes off the clock,
   with a counter past the highest seen.
   */
  lemma AcceptedExactly(verifier: Verifier, e: Envelope, c: Context, seen: Option<U64>)
    ensures var parsed := H.Parse(verifier.text(e.claimedHandle));
      VerifyEnvelope(verifier, e, c, seen).Some? <==>
        && e.suiteId.Some? && e.suiteId.value < 65_536 && verifier.supportedSuite(e.suiteId.value)
        && (e.role == Some(Client) || e.role == Some(Server))
        && parsed.Ok? && parsed.value.hashPrefix == verifier.sha384(e.claimedPubkey)[..6]
        && |e.claimedPubkey| == 2592 && |e.signature| == 4627
        && verifier.scheme.verify(e.claimedPubkey,
                                  SigningInput(c.channelBinding, e.claimedHandle, e.claimedPubkey, c.version,
                                               e.signedAtUnixMs, e.counter), e.signature)
        && c.nowUnixMs - e.signedAtUnixMs <= 300_000 && e.signedAtUnixMs - c.nowUnixMs <= 300_000
        && (seen.Some? ==> e.counter > seen.value)
  {
    hide SigningInput;
  }

  /** The envelope a peer builds and signs for itself. */
  method BuildEnvelope(scheme: Scheme, sk: seq<Byte>, binding: ChannelBinding, handle: Short, role: Role, suite: U32,
                       version: ProtocolVersion, signedAt: U64, counter: U64)
    returns (e: Envelope)
    requires |scheme.publicKey(sk)| < 0x1_0000
    ensures e == Built(scheme, sk, binding, handle, role, suite, version, signedAt, counter)
  {
    var pk := scheme.publicKey(sk);
    var input := BuildSigningInput(binding, handle, pk, version, signedAt, counter);
    e := Envelope(Some(suite), Some(role), handle, pk, signedAt, counter, scheme.sign(sk, input));
  }

  function Built(scheme: Scheme, sk: seq<Byte>, binding: ChannelBinding, handle: Short, role: Role, suite: U32,
                 version: ProtocolVersion, signedAt: U64, counter: U64): Envelope
    requires |scheme.publicKey(sk)| < 0x1_0000
  {
    var pk: Short := scheme.publicKey(sk);
    Envelope(Some(suite), Some(role), handle, pk, signedAt, counter,
             scheme.sign(sk, SigningInput(binding, handle, pk, version, signedAt, counter)))
  }

  ghost predicate PassedOver(seen: nat, n: nat, counter: nat) {
    seen < n < counter
  }

  /**
   An envelope built for a session is accepted in that session exactly when its suite is known, its role
   is client or server, its handle carries the key's own prefix, its time is within five minutes and its
   counter moves past the highest seen; and a gap is flagged exactly when a counter value was passed over.
   */
  lemma HonestEnvelopeAccepted(verifier: Verifier, sk: seq<Byte>, c: Context, handle: Short, role: Role, suite: U32,
                               signedAt: U64, counter: U64, seen: Option<U64>)
    requires verifier.scheme.Correct()
    ensures |verifier.scheme.publicKey(sk)| < 0x1_0000
    ensures var e := Built(verifier.scheme, sk, c.channelBinding, handle, role, suite, c.version, signedAt, counter);
      var peer := VerifyEnvelope(verifier, e, c, seen);
      && (peer.Some? <==>
            && suite < 0x1_0000 && verifier.supportedSuite(suite)
            && role != Unspecified
            && (exists name :: H.Parse(verifier.text(handle))
                               == Ok(H.Handle(name, verifier.sha384(e.claimedPubkey)[..H.HASH_PREFIX_BYTES])))
            && c.nowUnixMs - 300_000 <= signedAt <= c.nowUnixMs + 300_000
            && (seen.Some? ==> counter > seen.value))
      && (peer.Some? ==> && peer.value.handle == handle && peer.value.pubkey == e.claimedPubkey
                         && peer.value.counter == counter
                         && (peer.value.counterGap <==> seen.Some? && exists n :: PassedOver(seen.value, n, counter)))
  {
    hide SigningInput;
    assert |verifier.scheme.sign(sk, [])| == SIG_LEN;
    var pk: Short := verifier.scheme.publicKey(sk);
    var input := SigningInput(c.channelBinding, handle, pk, c.version, signedAt, counter);
    assert verifier.scheme.verify(pk, input, verifier.scheme.sign(sk, input));
    if H.Parse(verifier.text(handle)).Ok? {
      var claimed := H.Parse(verifier.text(handle)).value;
      assert claimed == H.Handle(claimed.displayName, claimed.hashPrefix);
    }
    if seen.Some? && counter > seen.value + 1 {
      assert PassedOver(seen.value, seen.value + 1, counter);
    }
  }

  /**
   An envelope accepted in one session is accepted in another only if the two share the channel binding
   and the version, wherever its signature verifies for one input only.
   */
  lemma NoCrossSessionReplay(verifier: Verifier, e: Envelope, c: Context, seen: Option<U64>, c': Context,
                             seen': Option<U64>)
    requires VerifyEnvelope(verifier, e, c, seen).Some? && VerifyEnvelope(verifier, e, c', seen').Some?
    requires forall m, m' ::
               && verifier.scheme.verify(e.claimedPubkey, m, e.signature)
               && verifier.scheme.verify(e.claimedPubkey, m', e.signature)
               ==> m == m'
    ensures c.channelBinding == c'.channelBinding && c.version == c'.version
  {
    hide SigningInput;
    assert InputOf(e, c) == InputOf(e, c');
    SigningInputInjective(c.channelBinding, e.claimedHandle, e.claimedPubkey, c.version, e.signedAtUnixMs, e.counter,
                          c'.channelBinding, e.claimedHandle, e.claimedPubkey, c'.version, e.signedAtUnixMs, e.counter);
  }

  // ---------------------------------------------------------------------------------------------
  // Runs of one verifier
  // ---------------------------------------------------------------------------------------------

  /** Highest accepted counter per signer key, each acceptance recording its own. */
  type Seen = map<Short, U64>

  function SeenOf(seen: Seen, pk: Short): Option<U64> {
    if pk in seen then Some(seen[pk]) else None
  }

  function Record(verifier: Verifier, seen: Seen, e: Envelope, c: Context): Seen {
    var peer := VerifyEnvelope(verifier, e, c, SeenOf(seen, e.claimedPubkey));
    if peer.Some? then seen[e.claimedPubkey := peer.value.counter] else seen
  }

  function SeenAfter(verifier: Verifier, run: seq<(Envelope, Context)>): Seen {
    if run == [] then map[]
    else Record(verifier, SeenAfter(verifier, run[..|run| - 1]), run[|run| - 1].0, run[|run| - 1].1)
  }

  /** The verifier accepted the envelope at position i. */
  predicate AcceptedAt(verifier: Verifier, run: seq<(Envelope, Context)>, i: nat)
    requires i < |run|
  {
    VerifyEnvelope(verifier, run[i].0, run[i].1, SeenOf(SeenAfter(verifier, run[..i]), run[i].0.claimedPubkey)).Some?
  }

  lemma {:induction false} SeenCoversAccepted(verifier: Verifier, run: seq<(Envelope, Context)>, i: nat, j: nat)
    requires i < j <= |run| && AcceptedAt(verifier, run, i)
    ensures var seen, e := SeenAfter(verifier, run[..j]), run[i].0;
      e.claimedPubkey in seen && e.counter <= seen[e.claimedPubkey]
  {
    hide VerifyEnvelope;
    var front, last := run[..j][..j - 1], run[..j][j - 1];
    assert front == run[..j - 1] && last == run[j - 1];
    AcceptedAdvances(verifier, SeenAfter(verifier, front), last.0, last.1);
    if i < j - 1 {
      SeenCoversAccepted(verifier, run, i, j - 1);
    }
  }

  lemma AcceptedAdvances(verifier: Verifier, seen: Seen, e: Envelope, c: Context)
    ensures var peer := VerifyEnvelope(verifier, e, c, SeenOf(seen, e.claimedPubkey));
      peer.Some? ==> peer.value.counter == e.counter
                     && (e.claimedPubkey in seen ==> e.counter > seen[e.claimedPubkey])
  {
  }

  /**
   Over any run, the counters accepted from one key strictly increase, across sessions and however the
   clock moves; so no envelope is ever accepted twice.
   */
  lemma AcceptedCountersIncrease(verifier: Verifier, run: seq<(Envelope, Context)>, i: nat, j: nat)
    requires i < j < |run| && AcceptedAt(verifier, run, i) && AcceptedAt(verifier, run, j)
    requires run[i].0.claimedPubkey == run[j].0.claimedPubkey
    ensures run[i].0.counter < run[j].0.counter
  {
    hide VerifyEnvelope;
    SeenCoversAccepted(verifier, run, i, j);
    AcceptedAdvances(verifier, SeenAfter(verifier, run[..j]), run[j].0, run[j].1);
  }
}

/**
 The byte strings that provenance signatures cover: share announcements, roll-calls, heartbeats and
 room or circle messages. Each is a bare domain tag followed by 64-bit length-prefixed fields.
 */
module Transcripts {
  import opened Bytes

  type I64 = t: int | -0x8000_0000_0000_0000 <= t < 0x8000_0000_0000_0000

  const SHARE_ANNOUNCE_PROVENANCE_DOMAIN := "daemonseed/share/announce/provenance/v2"
  const SHARE_ROLLCALL_PROVENANCE_DOMAIN := "daemonseed/share/rollcall/v1"
  const HEARTBEAT_PROVENANCE_DOMAIN := "daemonseed/presence/heartbeat/v1"
  const ROOM_PROVENANCE_DOMAIN := "daemonseed/public-room/message/v1"
  const CIRCLE_PROVENANCE_DOMAIN := "daemonseed/circle/message/v2"

  /** The surface a room message is posted to. */
  datatype Surface = PublicRoom | Circle

  /** Everything a provenance signature binds. Text fields are their UTF-8 bytes. */
  datatype Signed =
    | ShareAnnounce(room: Blob, pubkey: Blob, shareId: Blob, rootCommitment: Blob, name: Blob, rating: Blob,
                    withdraw: bool, sent: I64)
    | RollCall(room: Blob, pubkey: Blob, sent: I64)
    | Heartbeat(room: Blob, pubkey: Blob, sent: I64, liveShareIds: seq<Blob>, isLeave: bool)
    | RoomPost(surface: Surface, room: Blob, pubkey: Blob, sent: I64, body: Blob)
  {
    /** A 64-bit length can hold the number of ids, as it can any slice's. */
    ghost predicate Countable() {
      Heartbeat? ==> |liveShareIds| < 0x1_0000_0000_0000_0000
    }
  }

  /** A signed 64-bit integer, two's complement, most significant byte first. */
  function I64Bytes(t: I64): Blob {
    BigEndian(if t < 0 then t + 0x1_0000_0000_0000_0000 else t, 8)
  }

  function Flag(b: bool): Blob {
    [if b then 1 else 0]
  }

  function Domain(s: Signed): string {
    match s
    case ShareAnnounce(_, _, _, _, _, _, _, _) => SHARE_ANNOUNCE_PROVENANCE_DOMAIN
    case RollCall(_, _, _) => SHARE_ROLLCALL_PROVENANCE_DOMAIN
    case Heartbeat(_, _, _, _, _) => HEARTBEAT_PROVENANCE_DOMAIN
    case RoomPost(surface, _, _, _, _) =>
      if surface.PublicRoom? then ROOM_PROVENANCE_DOMAIN else CIRCLE_PROVENANCE_DOMAIN
  }

  /** The fields in the order they are pushed. */
  function FieldsOf(s: Signed): seq<Blob> {
    match s
    case ShareAnnounce(room, pk, id, rc, name, rating, withdraw, sent) =>
      [room, pk, id, rc, name, rating, Flag(withdraw), I64Bytes(sent)]
    case RollCall(room, pk, sent) => [room, pk, I64Bytes(sent)]
    case Heartbeat(room, pk, sent, ids, isLeave) =>
      [room, pk, I64Bytes(sent), CountBytes(|ids|)] + ids + [Flag(isLeave)]
    case RoomPost(_, room, pk, sent, body) => [room, pk, I64Bytes(sent), body]
  }

  function CountBytes(n: nat): Blob {
    BigEndian(n, 8)
  }

  function Fields(fs: seq<Blob>): seq<Byte> {
    if fs == [] then [] else Lp(8, fs[0]) + Fields(fs[1..])
  }

  function Transcript(s: Signed): seq<Byte> {
    Ascii(Domain(s)) + Fields(FieldsOf(s))
  }

  // ---------------------------------------------------------------------------------------------
  // Each transcript, field by field
  // ---------------------------------------------------------------------------------------------

  /** One field is its 64-bit length and itself; with FieldsConcat this is all there is to a list of them. */
  lemma OneField(f: Blob)
    ensures Fields([f]) == Lp(8, f)
  {
    assert [f][1..] == [];
    assert Lp(8, f) + [] == Lp(8, f);
  }

  /** A time is the 64-bit two's complement of its milliseconds. */
  lemma TimeLayout(t: I64)
    ensures I64Bytes(t) == BigEndian(if t >= 0 then t else 0x1_0000_0000_0000_0000 + t, 8)
  {
  }

  lemma ShareAnnounceLayout(room: Blob, pubkey: Blob, shareId: Blob, rootCommitment: Blob, name: Blob, rating: Blob,
                            withdraw: bool, sent: I64)
    ensures Transcript(ShareAnnounce(room, pubkey, shareId, rootCommitment, name, rating, withdraw, sent))
         == Ascii("daemonseed/share/announce/provenance/v2")
            + Fields([room, pubkey, shareId, rootCommitment, name, rating, [if withdraw then 1 else 0], I64Bytes(sent)])
  {
    hide Fields, I64Bytes, Ascii;
  }

  lemma RollCallLayout(room: Blob, pubkey: Blob, sent: I64)
    ensures Transcript(RollCall(room, pubkey, sent))
         == Ascii("daemonseed/share/rollcall/v1") + Fields([room, pubkey, I64Bytes(sent)])
  {
    hide Fields, I64Bytes, Ascii;
  }

  lemma HeartbeatLayout(room: Blob, pubkey: Blob, sent: I64, ids: seq<Blob>, isLeave: bool)
    ensures Transcript(Heartbeat(room, pubkey, sent, ids, isLeave))
         == Ascii("daemonseed/presence/heartbeat/v1")
            + Fields([room, pubkey, I64Bytes(sent), BigEndian(|ids|, 8)] + ids + [[if isLeave then 1 else 0]])
  {
    hide Fields, I64Bytes, Ascii;
  }

  lemma RoomPostLayout(surface: Surface, room: Blob, pubkey: Blob, sent: I64, body: Blob)
    ensures Transcript(RoomPost(surface, room, pubkey, sent, body))
         == Ascii(if surface.PublicRoom? then "daemonseed/public-room/message/v1" else "daemonseed/circle/message/v2")
            + Fields([room, pubkey, I64Bytes(sent), body])
  {
    hide Fields, I64Bytes, Ascii;
  }

  // ---------------------------------------------------------------------------------------------
  // Building a transcript
  // ---------------------------------------------------------------------------------------------

  lemma {:induction false} FieldsSnoc(fs: seq<Blob>, f: Blob)
    ensures Fields(fs + [f]) == Fields(fs) + Lp(8, f)
  {
    hide Lp;
    if fs == [] {
      assert [f][1..] == [];
    } else {
      assert (fs + [f])[1..] == fs[1..] + [f];
      FieldsSnoc(fs[1..], f);
    }
  }

  /** Push each field of a list in turn. */
  method PushFields(buf: Buffer, fs: seq<Blob>)
    modifies buf
    ensures buf.data == old(buf.data) + Fields(fs)
  {
    hide Lp;
    for i := 0 to |fs|
      invariant buf.data == old(buf.data) + Fields(fs[..i])
    {
      assert fs[..i + 1] == fs[..i] + [fs[i]];
      FieldsSnoc(fs[..i], fs[i]);
      buf.PushLp(8, fs[i]);
    }
    assert fs[..|fs|] == fs;
  }

  lemma {:induction false} FieldsConcat(fs: seq<Blob>, gs: seq<Blob>)
    ensures Fields(fs + gs) == Fields(fs) + Fields(gs)
  {
    hide Lp;
    if fs == [] {
      assert [] + gs == gs;
    } else {
      assert (fs + gs)[1..] == fs[1..] + gs;
      FieldsConcat(fs[1..], gs);
    }
  }

  /** The heartbeat's signing input, its variable id list pushed in a loop. */
  method HeartbeatInput(room: Blob, pubkey: Blob, sent: I64, ids: seq<Blob>, isLeave: bool) returns (bytes: seq<Byte>)
    ensures bytes == Transcript(Heartbeat(room, pubkey, sent, ids, isLeave))
  {
    hide Fields, I64Bytes, CountBytes, Flag, Transcript;
    var head, last := [room, pubkey, I64Bytes(sent), CountBytes(|ids|)], [Flag(isLeave)];
    var buf := new Buffer();
    buf.Append(Ascii(HEARTBEAT_PROVENANCE_DOMAIN));
    PushFields(buf, head);
    PushFields(buf, ids);
    PushFields(buf, last);
    ThreeRuns(Ascii(HEARTBEAT_PROVENANCE_DOMAIN), head, ids, last);
    HeartbeatShape(room, pubkey, sent, ids, isLeave);
    bytes := buf.data;
  }

  lemma ThreeRuns(start: seq<Byte>, a: seq<Blob>, b: seq<Blob>, c: seq<Blob>)
    ensures [] + start + Fields(a) + Fields(b) + Fields(c) == start + Fields(a + b + c)
  {
    hide Fields;
    FieldsConcat(a, b);
    FieldsConcat(a + b, c);
    assert [] + start == start;
  }

  lemma HeartbeatShape(room: Blob, pubkey: Blob, sent: I64, ids: seq<Blob>, isLeave: bool)
    ensures Transcript(Heartbeat(room, pubkey, sent, ids, isLeave))
         == Ascii(HEARTBEAT_PROVENANCE_DOMAIN)
            + Fields([room, pubkey, I64Bytes(sent), CountBytes(|ids|)] + ids + [Flag(isLeave)])
  {
    hide Fields, I64Bytes, CountBytes, Flag;
  }

  lemma FromEmpty(domain: seq<Byte>, fields: seq<Byte>)
    ensures [] + domain + fields == domain + fields
  {
  }

  method ShareAnnounceInput(room: Blob, pubkey: Blob, shareId: Blob, rootCommitment: Blob, name: Blob, rating: Blob,
                            withdraw: bool, sent: I64) returns (bytes: seq<Byte>)
    ensures bytes == Transcript(ShareAnnounce(room, pubkey, shareId, rootCommitment, name, rating, withdraw, sent))
  {
    hide Fields, I64Bytes, Flag;
    var fields := [room, pubkey, shareId, rootCommitment, name, rating, Flag(withdraw), I64Bytes(sent)];
    var buf := new Buffer();
    buf.Append(Ascii(SHARE_ANNOUNCE_PROVENANCE_DOMAIN));
    PushFields(buf, fields);
    FromEmpty(Ascii(SHARE_ANNOUNCE_PROVENANCE_DOMAIN), Fields(fields));
    bytes := buf.data;
  }

  method RoomInput(surface: Surface, room: Blob, pubkey: Blob, sent: I64, body: Blob) returns (bytes: seq<Byte>)
    ensures bytes == Transcript(RoomPost(surface, room, pubkey, sent, body))
  {
    hide Fields, I64Bytes;
    var domain := Ascii(if surface.PublicRoom? then ROOM_PROVENANCE_DOMAIN else CIRCLE_PROVENANCE_DOMAIN);
    var fields := [room, pubkey, I64Bytes(sent), body];
    var buf := new Buffer();
    buf.Append(domain);
    PushFields(buf, fields);
    FromEmpty(domain, Fields(fields));
    bytes := buf.data;
  }

  // ---------------------------------------------------------------------------------------------
  // A transcript determines what it binds
  // ---------------------------------------------------------------------------------------------

  /** A list of length-prefixed fields can be read in one way only, whatever its length. */
  lemma {:induction false} FieldsInjective(fs: seq<Blob>, gs: seq<Blob>)
    requires Fields(fs) == Fields(gs)
    ensures fs == gs
  {
    assert fs == [] <==> Fields(fs) == [];
    assert gs == [] <==> Fields(gs) == [];
    if fs != [] {
      Pow256Values();
      LpInjective(8, fs[0], Fields(fs[1..]), gs[0], Fields(gs[1..]));
      FieldsInjective(fs[1..], gs[1..]);
      assert fs == [fs[0]] + fs[1..] && gs == [gs[0]] + gs[1..];
    }
  }

  lemma I64BytesInjective(t: I64, u: I64)
    requires I64Bytes(t) == I64Bytes(u)
    ensures t == u
  {
    hide BigEndian;
    Pow256Values();
    BigEndianRoundTrip(if t < 0 then t + 0x1_0000_0000_0000_0000 else t, 8);
    BigEndianRoundTrip(if u < 0 then u + 0x1_0000_0000_0000_0000 else u, 8);
  }

  /** No domain tag is the start of another, though none carries its length. */
  predicate Diverge(a: string, b: string) {
    exists i | 0 <= i < |a| && i < |b| :: a[i] != b[i] && a[i] as int < 128 && b[i] as int < 128
  }

  lemma DomainsDiverge(s: Signed, t: Signed)
    ensures Domain(s) != Domain(t) ==> Diverge(Domain(s), Domain(t))
  {
    var a, r, h := SHARE_ANNOUNCE_PROVENANCE_DOMAIN, SHARE_ROLLCALL_PROVENANCE_DOMAIN, HEARTBEAT_PROVENANCE_DOMAIN;
    var p, c := ROOM_PROVENANCE_DOMAIN, CIRCLE_PROVENANCE_DOMAIN;
    assert a[11] == 's' && r[11] == 's' && h[11] == 'p' && p[11] == 'p' && c[11] == 'c';
    assert a[17] == 'a' && r[17] == 'r';
    assert h[12] == 'r' && p[12] == 'u';
  }

  lemma DivergentStartsDiffer(a: string, x: seq<Byte>, b: string, y: seq<Byte>)
    requires Diverge(a, b)
    ensures Ascii(a) + x != Ascii(b) + y
  {
    var i :| 0 <= i < |a| && i < |b| && a[i] != b[i] && a[i] as int < 128 && b[i] as int < 128;
    assert (Ascii(a) + x)[i] == a[i] as int && (Ascii(b) + y)[i] == b[i] as int;
  }

  lemma SameFields(s: Signed, t: Signed)
    requires s.Countable() && t.Countable() && Domain(s) == Domain(t) && FieldsOf(s) == FieldsOf(t)
    ensures s == t
  {
    hide I64Bytes;
    DomainsDiverge(s, t);
    assert !Diverge(SHARE_ANNOUNCE_PROVENANCE_DOMAIN, SHARE_ANNOUNCE_PROVENANCE_DOMAIN);
    KindFromDomain(s, t);
    var f, g := FieldsOf(s), FieldsOf(t);
    assert f[0] == g[0] && f[1] == g[1];
    match s {
      case ShareAnnounce(_, _, _, _, _, _, _, sent) =>
        assert f[2] == g[2] && f[3] == g[3] && f[4] == g[4] && f[5] == g[5];
        assert f[6][0] == g[6][0] && f[7] == g[7];
        I64BytesInjective(sent, t.sent);
      case RollCall(_, _, sent) =>
        assert f[2] == g[2];
        I64BytesInjective(sent, t.sent);
      case Heartbeat(_, _, sent, ids, _) =>
        assert f[2] == g[2];
        I64BytesInjective(sent, t.sent);
        assert |f| == |ids| + 5 && |g| == |t.liveShareIds| + 5;
        assert ids == f[4..|f| - 1] && t.liveShareIds == g[4..|g| - 1];
        assert f[|f| - 1][0] == g[|g| - 1][0];
      case RoomPost(_, _, _, sent, _) =>
        assert f[2] == g[2] && f[3] == g[3];
        I64BytesInjective(sent, t.sent);
    }
  }

  lemma KindFromDomain(s: Signed, t: Signed)
    requires Domain(s) == Domain(t)
    ensures s.ShareAnnounce? == t.ShareAnnounce? && s.RollCall? == t.RollCall? && s.Heartbeat? == t.Heartbeat?
    ensures s.RoomPost? && t.RoomPost? ==> s.surface == t.surface
  {
  }

  /**
   Signing inputs are injective, within a kind and across kinds: equal transcripts come from the same
   kind of message with the same value in every bound field, variable id list included.
   */
  lemma TranscriptInjective(s: Signed, t: Signed)
    requires s.Countable() && t.Countable() && Transcript(s) == Transcript(t)
    ensures s == t
  {
    hide Fields, FieldsOf;
    var x, y := Fields(FieldsOf(s)), Fields(FieldsOf(t));
    DomainsDiverge(s, t);
    if Domain(s) != Domain(t) {
      DivergentStartsDiffer(Domain(s), x, Domain(t), y);
    } else {
      FixedInjective(Ascii(Domain(s)), x, Ascii(Domain(t)), y);
      FieldsInjective(FieldsOf(s), FieldsOf(t));
      SameFields(s, t);
    }
  }
}

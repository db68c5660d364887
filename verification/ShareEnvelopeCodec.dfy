/** What the share-frame codec promises: round trips, fail-closed prefixes, and a bound on hostile counts. */
module ShareEnvelopeCodec {
  import opened Wrappers
  import opened Bytes
  import opened Utf8
  import opened ShareManifest
  import opened ShareEnvelope

  /** What the field types of the source guarantee: a path is a string, a size is 64 bits wide. */
  ghost predicate TypedEntry(e: ManifestEntry) {
    ValidUtf8(e.relPath) && e.size < U64_RANGE
  }

  ghost predicate Typed(f: ShareFrame) {
    f.ManifestResponse? ==> forall i :: 0 <= i < |f.entries| ==> TypedEntry(f.entries[i])
  }

  /** The lengths the casts on the wire can carry. */
  ghost predicate FitsEntry(e: ManifestEntry) {
    |e.relPath| < U16_RANGE && |e.chunks| < U32_RANGE
  }

  ghost predicate Fits(f: ShareFrame) {
    f.ManifestResponse? ==> |f.entries| < U32_RANGE && forall i :: 0 <= i < |f.entries| ==> FitsEntry(f.entries[i])
  }

  lemma Peel(a: seq<Byte>, b: seq<Byte>)
    ensures (a + b)[..|a|] == a && (a + b)[|a|..] == b
  {
  }

  // ---------------------------------------------------------------------------------------------
  // Field by field: what is written is read back whole, whatever follows it; what is read is what
  // would have been written; and a field cut short is refused
  // ---------------------------------------------------------------------------------------------

  lemma IntRoundTrip(v: nat, width: nat, rest: seq<Byte>)
    requires v < Pow256(width)
    ensures ParsedInt(width, BigEndian(v, width) + rest) == Ok((v, rest))
  {
    hide BigEndian, FromBigEndian;
    BigEndianRoundTrip(v, width);
    Peel(BigEndian(v, width), rest);
  }

  lemma ShortIntIsTruncated(width: nat, b: seq<Byte>)
    requires |b| < width
    ensures ParsedInt(width, b) == Err(Truncated)
  {
  }

  lemma IntIsCanonical(width: nat, b: seq<Byte>)
    requires ParsedInt(width, b).Ok?
    ensures var (v, rest) := ParsedInt(width, b).value; v < Pow256(width) && b == BigEndian(v, width) + rest
  {
    hide BigEndian, FromBigEndian;
    FromBigEndianRoundTrip(b[..width]);
    assert b == b[..width] + b[width..];
  }

  lemma PathRoundTrip(path: Path, rest: seq<Byte>)
    requires ValidUtf8(path) && |path| < U16_RANGE
    ensures ParsedPath(PathBytes(path) + rest) == Ok((path, rest))
  {
    hide BigEndian, FromBigEndian, ValidUtf8;
    Pow256Values();
    assert PathBytes(path) + rest == BigEndian(|path|, 2) + (path + rest);
    IntRoundTrip(|path|, 2, path + rest);
    Peel(path, rest);
  }

  lemma PathIsCanonical(b: seq<Byte>)
    requires ParsedPath(b).Ok?
    ensures var (path, rest) := ParsedPath(b).value;
      ValidUtf8(path) && |path| < U16_RANGE && b == PathBytes(path) + rest
  {
    hide BigEndian, FromBigEndian, ValidUtf8;
    Pow256Values();
    IntIsCanonical(2, b);
  }

  lemma CutPathIsTruncated(path: Path, k: nat)
    requires |path| < U16_RANGE && k < |PathBytes(path)|
    ensures ParsedPath(PathBytes(path)[..k]) == Err(Truncated)
  {
    hide BigEndian, FromBigEndian, ValidUtf8;
    Pow256Values();
    if k >= 2 {
      assert PathBytes(path)[..k] == BigEndian(|path|, 2) + path[..k - 2];
      IntRoundTrip(|path|, 2, path[..k - 2]);
    }
  }

  lemma ChunkListRoundTrip(chunks: seq<ChunkAddr>, rest: seq<Byte>)
    requires |chunks| < U32_RANGE
    ensures ParsedChunkList(ChunkListBytes(chunks) + rest) == Ok((chunks, rest))
  {
    hide BigEndian, FromBigEndian, Flat, Cut;
    Pow256Values();
    assert ChunkListBytes(chunks) + rest == BigEndian(|chunks|, 4) + (Flat(chunks) + rest);
    IntRoundTrip(|chunks|, 4, Flat(chunks) + rest);
    Peel(Flat(chunks), rest);
    CutFlat(chunks);
  }

  lemma ChunkListIsCanonical(b: seq<Byte>)
    requires ParsedChunkList(b).Ok?
    ensures var (chunks, rest) := ParsedChunkList(b).value;
      |chunks| < U32_RANGE && b == ChunkListBytes(chunks) + rest
  {
    hide BigEndian, FromBigEndian, Flat, Cut;
    Pow256Values();
    IntIsCanonical(4, b);
    var (n, tail) := ParsedInt(4, b).value;
    FlatCut(tail[..CHUNK_ADDR_LEN * n]);
  }

  lemma CutChunkListIsTruncated(chunks: seq<ChunkAddr>, k: nat)
    requires |chunks| < U32_RANGE && k < |ChunkListBytes(chunks)|
    ensures ParsedChunkList(ChunkListBytes(chunks)[..k]) == Err(Truncated)
  {
    hide BigEndian, FromBigEndian, Flat, Cut;
    Pow256Values();
    if k >= 4 {
      assert ChunkListBytes(chunks)[..k] == BigEndian(|chunks|, 4) + Flat(chunks)[..k - 4];
      IntRoundTrip(|chunks|, 4, Flat(chunks)[..k - 4]);
    }
  }

  // ---------------------------------------------------------------------------------------------
  // Entries
  // ---------------------------------------------------------------------------------------------

  /** An entry that fits is read back whole, whatever follows it. */
  lemma EntryRoundTrip(e: ManifestEntry, rest: seq<Byte>)
    requires TypedEntry(e) && FitsEntry(e)
    ensures ParsedEntry(EntryBytes(e) + rest) == Ok((e, rest))
  {
    hide BigEndian, PathBytes, ChunkListBytes, ParsedPath, ParsedInt, ParsedChunkList;
    Pow256Values();
    var b2 := ChunkListBytes(e.chunks) + rest;
    var b1 := BigEndian(e.size, 8) + b2;
    assert EntryBytes(e) + rest == PathBytes(e.relPath) + b1;
    PathRoundTrip(e.relPath, b1);
    IntRoundTrip(e.size, 8, b2);
    ChunkListRoundTrip(e.chunks, rest);
  }

  /** A parsed entry fits, and its wire form is what was read. */
  lemma ParsedEntryIsCanonical(b: seq<Byte>)
    requires ParsedEntry(b).Ok?
    ensures var (e, rest) := ParsedEntry(b).value;
      TypedEntry(e) && FitsEntry(e) && b == EntryBytes(e) + rest
  {
    hide BigEndian, PathBytes, ChunkListBytes, ParsedPath, ParsedInt, ParsedChunkList;
    Pow256Values();
    PathIsCanonical(b);
    var (path, b1) := ParsedPath(b).value;
    IntIsCanonical(8, b1);
    var (size, b2) := ParsedInt(8, b1).value;
    ChunkListIsCanonical(b2);
    var (chunks, b3) := ParsedChunkList(b2).value;
    Regroup(PathBytes(path), BigEndian(size, 8), ChunkListBytes(chunks), b3);
  }

  lemma Regroup(a: seq<Byte>, b: seq<Byte>, c: seq<Byte>, d: seq<Byte>)
    ensures a + (b + (c + d)) == a + b + c + d
  {
  }

  lemma {:induction false} EntriesRoundTrip(es: seq<ManifestEntry>, rest: seq<Byte>)
    requires forall i :: 0 <= i < |es| ==> TypedEntry(es[i]) && FitsEntry(es[i])
    ensures ParsedEntries(|es|, EntriesBytes(es) + rest) == Ok((es, rest))
  {
    if es == [] {
      assert [] + rest == rest;
    } else {
      var tail := EntriesBytes(es[1..]) + rest;
      assert EntriesBytes(es) + rest == EntryBytes(es[0]) + tail;
      EntryRoundTrip(es[0], tail);
      EntriesRoundTrip(es[1..], rest);
      assert [es[0]] + es[1..] == es;
    }
  }

  lemma {:induction false} ParsedEntriesAreCanonical(count: nat, b: seq<Byte>)
    requires ParsedEntries(count, b).Ok?
    ensures var (es, rest) := ParsedEntries(count, b).value;
      && |es| == count && b == EntriesBytes(es) + rest
      && forall i :: 0 <= i < |es| ==> TypedEntry(es[i]) && FitsEntry(es[i])
  {
    hide ParsedEntry, EntryBytes, TypedEntry, FitsEntry;
    if count > 0 {
      var (e, rest) := ParsedEntry(b).value;
      ParsedEntryIsCanonical(b);
      ParsedEntriesAreCanonical(count - 1, rest);
      var (es, tail) := ParsedEntries(count - 1, rest).value;
      assert ([e] + es)[1..] == es;
      Peel3(EntryBytes(e), EntriesBytes(es), tail);
    } else {
      assert [] + b == b;
    }
  }

  lemma Peel3(a: seq<Byte>, b: seq<Byte>, c: seq<Byte>)
    ensures a + (b + c) == a + b + c
  {
  }

  lemma ManifestIsCanonical(body: seq<Byte>)
    requires ParsedManifest(body).Ok?
    ensures var (es, rest) := ParsedManifest(body).value;
      Typed(ManifestResponse(es)) && Fits(ManifestResponse(es)) && body == ManifestBytes(es) + rest
  {
    hide ParsedEntries, EntriesBytes, BigEndian, FromBigEndian, TypedEntry, FitsEntry;
    Pow256Values();
    IntIsCanonical(4, body);
    var (count, b) := ParsedInt(4, body).value;
    ParsedEntriesAreCanonical(count, b);
    var (es, rest) := ParsedEntries(count, b).value;
    Peel3(BigEndian(count, 4), EntriesBytes(es), rest);
  }

  lemma DecodedManifestIsCanonical(b: seq<Byte>)
    requires b != [] && b[0] == KIND_MANIFEST_RESPONSE && ParsedManifest(b[1..]).Ok?
    ensures var f := ManifestResponse(ParsedManifest(b[1..]).value.0); Typed(f) && Fits(f) && FrameBytes(f) <= b
  {
    hide ParsedManifest, ManifestBytes, Typed, Fits;
    ManifestIsCanonical(b[1..]);
    var (es, rest) := ParsedManifest(b[1..]).value;
    Peel3([b[0]], ManifestBytes(es), rest);
    assert b == [b[0]] + b[1..];
  }

  lemma DecodedRequestIsCanonical(b: seq<Byte>)
    requires Parsed(b).Ok? && b[0] in {KIND_MANIFEST_REQUEST, KIND_CHUNK_REQUEST}
    ensures FrameBytes(Parsed(b).value) <= b && !Parsed(b).value.ManifestResponse? && !Parsed(b).value.ChunkResponse?
  {
    hide ParsedManifest, ManifestBytes;
  }

  lemma DecodedChunkIsCanonical(b: seq<Byte>)
    requires Parsed(b).Ok? && b[0] == KIND_CHUNK_RESPONSE
    ensures FrameBytes(Parsed(b).value) == b && Parsed(b).value.ChunkResponse?
  {
    hide ParsedManifest, ManifestBytes;
    Regrouped([b[0]], b[1..], CHUNK_ADDR_LEN);
  }

  /** Whatever decodes fits the wire form, and its encoding is a prefix of the bytes it came from. */
  lemma DecodedIsCanonical(b: seq<Byte>)
    requires Parsed(b).Ok?
    ensures Typed(Parsed(b).value) && Fits(Parsed(b).value) && FrameBytes(Parsed(b).value) <= b
    ensures Parsed(b).value.ChunkResponse? ==> FrameBytes(Parsed(b).value) == b
  {
    hide ParsedManifest, FrameBytes, Typed, Fits;
    OthersFit(Parsed(b).value);
    if b[0] == KIND_MANIFEST_RESPONSE {
      DecodedManifestIsCanonical(b);
    } else if b[0] == KIND_CHUNK_RESPONSE {
      DecodedChunkIsCanonical(b);
    } else {
      DecodedRequestIsCanonical(b);
    }
  }

  /** Only a manifest can hold what its frame cannot carry. */
  lemma OthersFit(f: ShareFrame)
    ensures !f.ManifestResponse? ==> Typed(f) && Fits(f)
  {
  }

  lemma Regrouped(kind: seq<Byte>, body: seq<Byte>, n: nat)
    requires n <= |body|
    ensures kind + body[..n] + body[n..] == kind + body
  {
  }

  lemma ManifestRoundTrip(es: seq<ManifestEntry>)
    requires Typed(ManifestResponse(es)) && Fits(ManifestResponse(es))
    ensures ParsedManifest(ManifestBytes(es)) == Ok((es, []))
  {
    hide ParsedEntries, EntriesBytes, BigEndian, FromBigEndian, TypedEntry, FitsEntry;
    Pow256Values();
    IntRoundTrip(|es|, 4, EntriesBytes(es));
    EntriesRoundTrip(es, []);
    assert EntriesBytes(es) + [] == EntriesBytes(es);
  }

  /** Decoding an encoded frame gives it back exactly when its lengths fit their prefixes. */
  lemma FrameRoundTrip(f: ShareFrame)
    requires Typed(f)
    ensures Parsed(FrameBytes(f)) == Ok(f) <==> Fits(f)
  {
    var b := FrameBytes(f);
    if Parsed(b) == Ok(f) {
      DecodedIsCanonical(b);
    }
    if Fits(f) {
      match f {
        case ManifestRequest =>
        case ManifestResponse(es) =>
          ManifestRoundTrip(es);
          assert b[1..] == ManifestBytes(es);
        case ChunkRequest(addr) =>
          assert b[1..] == addr && addr[..CHUNK_ADDR_LEN] == addr;
        case ChunkResponse(addr, data) =>
          assert b[1..] == addr + data;
          Peel(addr, data);
      }
    }
  }

  // ---------------------------------------------------------------------------------------------
  // Proper prefixes
  // ---------------------------------------------------------------------------------------------

  lemma CutEntryIsTruncated(e: ManifestEntry, k: nat)
    requires TypedEntry(e) && FitsEntry(e) && k < |EntryBytes(e)|
    ensures ParsedEntry(EntryBytes(e)[..k]) == Err(Truncated)
  {
    hide ParsedPath, PathBytes, ChunkListBytes, ParsedChunkList, ParsedInt, BigEndian;
    Pow256Values();
    var p, s, c := PathBytes(e.relPath), BigEndian(e.size, 8), ChunkListBytes(e.chunks);
    if k < |p| {
      CutPathIsTruncated(e.relPath, k);
      assert EntryBytes(e)[..k] == p[..k];
    } else if k < |p| + 8 {
      PathRoundTrip(e.relPath, s[..k - |p|]);
      ShortIntIsTruncated(8, s[..k - |p|]);
      assert EntryBytes(e)[..k] == p + s[..k - |p|];
    } else {
      var cut := c[..k - |p| - 8];
      CutChunkListIsTruncated(e.chunks, k - |p| - 8);
      IntRoundTrip(e.size, 8, cut);
      PathRoundTrip(e.relPath, s + cut);
      assert EntryBytes(e)[..k] == p + (s + cut);
    }
  }

  lemma {:induction false} CutEntriesAreTruncated(es: seq<ManifestEntry>, k: nat)
    requires forall i :: 0 <= i < |es| ==> TypedEntry(es[i]) && FitsEntry(es[i])
    requires k < |EntriesBytes(es)|
    ensures ParsedEntries(|es|, EntriesBytes(es)[..k]) == Err(Truncated)
  {
    hide ParsedEntry, EntryBytes, TypedEntry, FitsEntry;
    var first, tail := EntryBytes(es[0]), EntriesBytes(es[1..]);
    if k < |first| {
      CutEntryIsTruncated(es[0], k);
      assert EntriesBytes(es)[..k] == first[..k];
    } else {
      CutEntriesAreTruncated(es[1..], k - |first|);
      assert EntriesBytes(es)[..k] == first + tail[..k - |first|];
      EntryRoundTrip(es[0], tail[..k - |first|]);
    }
  }

  lemma CutManifestIsTruncated(es: seq<ManifestEntry>, k: nat)
    requires Typed(ManifestResponse(es)) && Fits(ManifestResponse(es)) && k < |ManifestBytes(es)|
    ensures ParsedManifest(ManifestBytes(es)[..k]) == Err(Truncated)
  {
    hide ParsedEntries, EntriesBytes, BigEndian, FromBigEndian, TypedEntry, FitsEntry;
    Pow256Values();
    if k >= 4 {
      CutEntriesAreTruncated(es, k - 4);
      IntRoundTrip(|es|, 4, EntriesBytes(es)[..k - 4]);
      assert ManifestBytes(es)[..k] == BigEndian(|es|, 4) + EntriesBytes(es)[..k - 4];
    }
  }

  /**
   Fail closed: every proper prefix of an encoded request or manifest is refused as truncated. A chunk
   response has no length of its own, so a prefix that still holds the address decodes to shorter data.
   */
  lemma PrefixesAreTruncated(f: ShareFrame, k: nat)
    requires Typed(f) && Fits(f) && k < |FrameBytes(f)|
    ensures Parsed(FrameBytes(f)[..k])
         == if f.ChunkResponse? && k >= 1 + CHUNK_ADDR_LEN
            then Ok(ChunkResponse(f.chunkAddr, f.data[..k - 1 - CHUNK_ADDR_LEN]))
            else Err(Truncated)
  {
    hide ParsedManifest, ManifestBytes, TypedEntry, FitsEntry;
    if f.ManifestResponse? && k > 0 {
      CutManifestIsTruncated(f.entries, k - 1);
      assert FrameBytes(f)[..k] == [KIND_MANIFEST_RESPONSE] + ManifestBytes(f.entries)[..k - 1];
    } else if f.ChunkResponse? && k >= 1 + CHUNK_ADDR_LEN {
      CutChunkResponse(f.chunkAddr, f.data, k - 1 - CHUNK_ADDR_LEN);
    }
  }

  lemma CutChunkResponse(addr: ChunkAddr, data: seq<Byte>, k: nat)
    requires k < |data|
    ensures Parsed(FrameBytes(ChunkResponse(addr, data))[..1 + CHUNK_ADDR_LEN + k])
         == Ok(ChunkResponse(addr, data[..k]))
  {
    hide ParsedManifest;
    assert FrameBytes(ChunkResponse(addr, data))[..1 + CHUNK_ADDR_LEN + k]
        == [KIND_CHUNK_RESPONSE] + (addr + data[..k]);
    Peel(addr, data[..k]);
  }

  // ---------------------------------------------------------------------------------------------
  // Size
  // ---------------------------------------------------------------------------------------------

  function ChunkTotal(es: seq<ManifestEntry>): nat {
    if es == [] then 0 else |es[0].chunks| + ChunkTotal(es[1..])
  }

  function PathTotal(es: seq<ManifestEntry>): nat {
    if es == [] then 0 else |es[0].relPath| + PathTotal(es[1..])
  }

  lemma {:induction false} EntriesLength(es: seq<ManifestEntry>)
    ensures |EntriesBytes(es)| == 14 * |es| + PathTotal(es) + CHUNK_ADDR_LEN * ChunkTotal(es)
  {
    if es != [] {
      EntriesLength(es[1..]);
    }
  }

  /** A hostile count buys nothing: a manifest with n entries and m addresses costs 5 + 14n + 48m bytes to claim. */
  lemma DecodedManifestIsPaidFor(b: seq<Byte>)
    requires Parsed(b).Ok? && Parsed(b).value.ManifestResponse?
    ensures var es := Parsed(b).value.entries; 5 + 14 * |es| + 48 * ChunkTotal(es) + PathTotal(es) <= |b|
  {
    DecodedIsCanonical(b);
    EntriesLength(Parsed(b).value.entries);
  }

  // ---------------------------------------------------------------------------------------------
  // The bytes on the wire, and what each error says of its input
  // ---------------------------------------------------------------------------------------------

  /** The low two and the low four bytes of a length, most significant first. */
  ghost function Word16(n: nat): seq<Byte> {
    [n / 0x100 % 256, n % 256]
  }

  ghost function Word32(n: nat): seq<Byte> {
    [n / 0x100_0000 % 256, n / 0x1_0000 % 256, n / 0x100 % 256, n % 256]
  }

  lemma Cast16KeepsBytes(n: nat)
    ensures Word16(n % U16_RANGE) == Word16(n)
  {
    var low, top := n % 0x1_0000, n / 0x1_0000;
    assert n / 0x100 == 0x100 * top + low / 0x100;
  }

  lemma LowByte(top: nat, low: nat)
    ensures (0x100 * top + low) % 256 == low % 256
  {
  }

  lemma Quotients(top: nat, low: nat)
    ensures (0x1_0000_0000 * top + low) / 0x100_0000 == 0x100 * top + low / 0x100_0000
    ensures (0x1_0000_0000 * top + low) / 0x1_0000 == 0x100 * (0x100 * top) + low / 0x1_0000
    ensures (0x1_0000_0000 * top + low) / 0x100 == 0x100 * (0x1_0000 * top) + low / 0x100
  {
  }

  lemma Cast32KeepsBytes(n: nat)
    ensures Word32(n % U32_RANGE) == Word32(n)
  {
    var low, top := n % 0x1_0000_0000, n / 0x1_0000_0000;
    Quotients(top, low);
    LowByte(top, low / 0x100_0000);
    LowByte(0x100 * top, low / 0x1_0000);
    LowByte(0x1_0000 * top, low / 0x100);
    LowByte(0x100_0000 * top, low);
  }

  /** A cast keeps the low bytes. */
  lemma CastBytes(n: nat)
    ensures BigEndian(n % U16_RANGE, 2) == Word16(n) && BigEndian(n % U32_RANGE, 4) == Word32(n)
  {
    BigEndianBytes(n % U16_RANGE);
    BigEndianBytes(n % U32_RANGE);
    hide BigEndian;
    Cast16KeepsBytes(n);
    Cast32KeepsBytes(n);
  }

  /** Each frame behind its own kind byte. */
  lemma FrameLayout(es: seq<ManifestEntry>, addr: ChunkAddr, data: seq<Byte>)
    ensures FrameBytes(ManifestRequest) == [0]
    ensures FrameBytes(ManifestResponse(es)) == [1] + Word32(|es|) + EntriesBytes(es)
    ensures FrameBytes(ChunkRequest(addr)) == [2] + addr
    ensures FrameBytes(ChunkResponse(addr, data)) == [3] + addr + data
  {
    hide BigEndian, EntriesBytes, Word32;
    CastBytes(|es|);
    Peel3([1], Word32(|es|), EntriesBytes(es));
  }

  /** Path length in two bytes, path, size in eight, number of addresses in four, addresses. */
  lemma EntryLayout(e: ManifestEntry)
    ensures EntryBytes(e)
         == Word16(|e.relPath|) + e.relPath + BigEndian(e.size, 8) + Word32(|e.chunks|) + Flat(e.chunks)
    ensures EntriesBytes([e]) == EntryBytes(e)
  {
    hide BigEndian, Flat, Word16, Word32;
    CastBytes(|e.relPath|);
    CastBytes(|e.chunks|);
    EntryLaidOut([], Word16(|e.relPath|), e.relPath, BigEndian(e.size, 8), Word32(|e.chunks|), Flat(e.chunks));
    assert [e][1..] == [];
  }

  /** Entries stand one behind the other. */
  lemma {:induction false} EntriesInOrder(xs: seq<ManifestEntry>, ys: seq<ManifestEntry>)
    ensures EntriesBytes(xs + ys) == EntriesBytes(xs) + EntriesBytes(ys)
  {
    hide EntryBytes;
    if xs == [] {
      assert xs + ys == ys;
    } else {
      assert (xs + ys)[1..] == xs[1..] + ys;
      EntriesInOrder(xs[1..], ys);
    }
  }

  /** The length that stands before a path. */
  ghost function ClaimedLength(b: seq<Byte>): nat
    requires |b| >= 2
  {
    var high: nat, low: nat := b[0], b[1];
    0x100 * high + low
  }

  /** A path that is all there and is not UTF-8. */
  ghost predicate StartsWithBadPath(b: seq<Byte>) {
    |b| >= 2 && |b| >= 2 + ClaimedLength(b) && !ValidUtf8(b[2..2 + ClaimedLength(b)])
  }

  lemma PathLength(b: seq<Byte>)
    requires |b| >= 2
    ensures ParsedInt(2, b) == Ok((ClaimedLength(b), b[2..]))
  {
    assert b[..2][..1] == [b[0]] && b[..2][1] == b[1];
    assert FromBigEndian([b[0]]) == b[0];
  }

  /** An entry's path is judged before anything behind it; every other fault of it is a short buffer. */
  lemma EntryErrors(b: seq<Byte>)
    ensures ParsedEntry(b) == Err(BadUtf8) <==> StartsWithBadPath(b)
    ensures ParsedEntry(b).Err? ==> ParsedEntry(b).error in {BadUtf8, Truncated}
  {
    hide ValidUtf8, FromBigEndian;
    if |b| >= 2 {
      PathLength(b);
      var n := ClaimedLength(b);
      assert |b| >= 2 + n ==> b[2..][..n] == b[2..2 + n];
    }
  }

  /** The entries before a bad path, and what follows them. */
  ghost predicate ReachesBadPath(count: nat, b: seq<Byte>, es: seq<ManifestEntry>, tail: seq<Byte>) {
    && |es| < count && b == EntriesBytes(es) + tail && StartsWithBadPath(tail)
    && forall i :: 0 <= i < |es| ==> TypedEntry(es[i]) && FitsEntry(es[i])
  }

  lemma {:induction false} BadPathIsReported(count: nat, b: seq<Byte>, es: seq<ManifestEntry>, tail: seq<Byte>)
    requires ReachesBadPath(count, b, es, tail)
    ensures ParsedEntries(count, b) == Err(BadUtf8)
    decreases |es|
  {
    hide ParsedEntry, EntryBytes, StartsWithBadPath, TypedEntry, FitsEntry;
    if es == [] {
      assert b == tail;
      EntryErrors(b);
    } else {
      var rest := EntriesBytes(es[1..]) + tail;
      Peel3(EntryBytes(es[0]), EntriesBytes(es[1..]), tail);
      EntryRoundTrip(es[0], rest);
      BadPathIsReported(count - 1, rest, es[1..], tail);
    }
  }

  lemma {:induction false} ReportedPathIsBad(count: nat, b: seq<Byte>) returns (es: seq<ManifestEntry>, tail: seq<Byte>)
    requires ParsedEntries(count, b) == Err(BadUtf8)
    ensures ReachesBadPath(count, b, es, tail)
    decreases count
  {
    hide ParsedEntry, EntryBytes, StartsWithBadPath, TypedEntry, FitsEntry;
    EntryErrors(b);
    if ParsedEntry(b).Err? {
      es, tail := [], b;
      assert [] + b == b;
    } else {
      ParsedEntryIsCanonical(b);
      var (e, rest) := ParsedEntry(b).value;
      var more, end := ReportedPathIsBad(count - 1, rest);
      es, tail := [e] + more, end;
      assert es[1..] == more;
      Peel3(EntryBytes(e), EntriesBytes(more), end);
    }
  }

  lemma {:induction false} EntriesErrors(count: nat, b: seq<Byte>)
    requires ParsedEntries(count, b).Err?
    ensures ParsedEntries(count, b).error in {BadUtf8, Truncated}
  {
    hide ParsedEntry;
    EntryErrors(b);
    if ParsedEntry(b).Ok? {
      EntriesErrors(count - 1, ParsedEntry(b).value.1);
    }
  }

  /** The count of a manifest frame. */
  ghost function ClaimedCount(b: seq<Byte>): nat
    requires |b| >= 5
  {
    var b1: nat, b2: nat, b3: nat, b4: nat := b[1], b[2], b[3], b[4];
    0x100_0000 * b1 + 0x1_0000 * b2 + 0x100 * b3 + b4
  }

  lemma ManifestCount(b: seq<Byte>)
    requires |b| >= 5
    ensures ParsedInt(4, b[1..]) == Ok((ClaimedCount(b), b[5..]))
  {
    var s := b[1..][..4];
    assert s[..3][..2][..1] == [b[1]] && s[..3][..2][1] == b[2] && s[..3][2] == b[3] && s[3] == b[4];
    assert FromBigEndian([b[1]]) == b[1];
    assert FromBigEndian(s[..3][..2]) == 256 * FromBigEndian(s[..3][..2][..1]) + b[2];
    assert FromBigEndian(s[..3]) == 256 * FromBigEndian(s[..3][..2]) + b[3];
    assert b[1..][4..] == b[5..];
  }

  /** A manifest frame with a bad path behind sound entries. */
  ghost predicate HasBadPath(b: seq<Byte>) {
    && |b| >= 5 && b[0] == 1
    && exists es, tail :: ReachesBadPath(ClaimedCount(b), b[5..], es, tail)
  }

  /**
   Every refusal for its own reason: the kind byte above 3; the first path that is all there and not
   UTF-8, behind sound entries; a short buffer in every other case.
   */
  lemma RefusalsAreExact(b: seq<Byte>, kind: Byte)
    ensures Parsed(b) == Err(UnknownKind(kind)) <==> b != [] && b[0] == kind && kind > 3
    ensures Parsed(b) == Err(BadUtf8) <==> HasBadPath(b)
    ensures b != [] && b[0] in {0, 2, 3} ==> (Parsed(b) == Err(Truncated) <==> b[0] != 0 && |b| < 49)
    ensures b == [] ==> Parsed(b) == Err(Truncated)
  {
    hide ParsedEntries, FromBigEndian, ReachesBadPath;
    if |b| >= 5 && b[0] == 1 {
      ManifestCount(b);
      var count := ClaimedCount(b);
      if ParsedEntries(count, b[5..]) == Err(BadUtf8) {
        var es, tail := ReportedPathIsBad(count, b[5..]);
      }
      if HasBadPath(b) {
        var es, tail :| ReachesBadPath(count, b[5..], es, tail);
        BadPathIsReported(count, b[5..], es, tail);
      }
      if ParsedEntries(count, b[5..]).Err? {
        EntriesErrors(count, b[5..]);
      }
    }
  }
}

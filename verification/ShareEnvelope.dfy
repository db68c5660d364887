/**
 The share-fetch frame codec of crates/daemonseed-core/src/share_envelope.rs. Strings are byte
 strings that are valid UTF-8; every `as` cast on a length is the truncation it is in the source.
 */
module ShareEnvelope {
  import opened Wrappers
  import opened Bytes
  import opened Utf8
  import opened ShareManifest

  const KIND_MANIFEST_REQUEST: Byte := 0x00
  const KIND_MANIFEST_RESPONSE: Byte := 0x01
  const KIND_CHUNK_REQUEST: Byte := 0x02
  const KIND_CHUNK_RESPONSE: Byte := 0x03

  const U16_RANGE: nat := 0x1_0000
  const U32_RANGE: nat := 0x1_0000_0000
  const U64_RANGE: nat := 0x1_0000_0000_0000_0000

  datatype ShareFrame =
    | ManifestRequest
    | ManifestResponse(entries: seq<ManifestEntry>)
    | ChunkRequest(chunkAddr: ChunkAddr)
    | ChunkResponse(chunkAddr: ChunkAddr, data: seq<Byte>)

  datatype DecodeError = UnknownKind(kind: Byte) | Truncated | BadUtf8

  // ---------------------------------------------------------------------------------------------
  // The wire form
  // ---------------------------------------------------------------------------------------------

  function PathBytes(path: Path): seq<Byte> {
    BigEndian(|path| % U16_RANGE, 2) + path
  }

  function ChunkListBytes(chunks: seq<ChunkAddr>): seq<Byte> {
    BigEndian(|chunks| % U32_RANGE, 4) + Flat(chunks)
  }

  function EntryBytes(e: ManifestEntry): seq<Byte> {
    PathBytes(e.relPath) + BigEndian(e.size, 8) + ChunkListBytes(e.chunks)
  }

  function EntriesBytes(es: seq<ManifestEntry>): seq<Byte> {
    if es == [] then [] else EntryBytes(es[0]) + EntriesBytes(es[1..])
  }

  function ManifestBytes(es: seq<ManifestEntry>): seq<Byte> {
    BigEndian(|es| % U32_RANGE, 4) + EntriesBytes(es)
  }

  function FrameBytes(f: ShareFrame): seq<Byte> {
    match f
    case ManifestRequest => [KIND_MANIFEST_REQUEST]
    case ManifestResponse(es) => [KIND_MANIFEST_RESPONSE] + ManifestBytes(es)
    case ChunkRequest(addr) => [KIND_CHUNK_REQUEST] + addr
    case ChunkResponse(addr, data) => [KIND_CHUNK_RESPONSE] + addr + data
  }

  /** A value read off the front of some bytes, with what is left of them. */
  type Parse<+T> = Result<(T, seq<Byte>), DecodeError>

  function ParsedInt(width: nat, b: seq<Byte>): Parse<nat> {
    if |b| < width then Err(Truncated) else Ok((FromBigEndian(b[..width]), b[width..]))
  }

  function ParsedPath(b: seq<Byte>): Parse<Path> {
    match ParsedInt(2, b)
    case Err(e) => Err(e)
    case Ok((n, rest)) =>
      if |rest| < n then Err(Truncated)
      else if !ValidUtf8(rest[..n]) then Err(BadUtf8)
      else Ok((rest[..n], rest[n..]))
  }

  function ParsedChunks(n: nat, b: seq<Byte>): Parse<seq<ChunkAddr>> {
    if |b| < CHUNK_ADDR_LEN * n then Err(Truncated)
    else Ok((Cut(b[..CHUNK_ADDR_LEN * n]), b[CHUNK_ADDR_LEN * n..]))
  }

  function ParsedChunkList(b: seq<Byte>): Parse<seq<ChunkAddr>> {
    match ParsedInt(4, b)
    case Err(e) => Err(e)
    case Ok((n, rest)) => ParsedChunks(n, rest)
  }

  function ParsedEntry(b: seq<Byte>): Parse<ManifestEntry> {
    match ParsedPath(b)
    case Err(e) => Err(e)
    case Ok((path, b1)) =>
      match ParsedInt(8, b1)
      case Err(e) => Err(e)
      case Ok((size, b2)) =>
        match ParsedChunkList(b2)
        case Err(e) => Err(e)
        case Ok((chunks, b3)) => Ok((ManifestEntry(path, size, chunks), b3))
  }

  function ParsedEntries(count: nat, b: seq<Byte>): Parse<seq<ManifestEntry>> {
    if count == 0 then Ok(([], b))
    else
      match ParsedEntry(b)
      case Err(e) => Err(e)
      case Ok((entry, rest)) =>
        match ParsedEntries(count - 1, rest)
        case Err(e) => Err(e)
        case Ok((es, tail)) => Ok(([entry] + es, tail))
  }

  function ParsedManifest(body: seq<Byte>): Parse<seq<ManifestEntry>> {
    match ParsedInt(4, body)
    case Err(e) => Err(e)
    case Ok((count, rest)) => ParsedEntries(count, rest)
  }

  function Parsed(b: seq<Byte>): Result<ShareFrame, DecodeError> {
    if b == [] then Err(Truncated)
    else
      var kind, body := b[0], b[1..];
      if kind == KIND_MANIFEST_REQUEST then Ok(ManifestRequest)
      else if kind == KIND_MANIFEST_RESPONSE then
        match ParsedManifest(body)
        case Err(e) => Err(e)
        case Ok((es, _)) => Ok(ManifestResponse(es))
      else if kind == KIND_CHUNK_REQUEST then
        if |body| < CHUNK_ADDR_LEN then Err(Truncated) else Ok(ChunkRequest(body[..CHUNK_ADDR_LEN]))
      else if kind == KIND_CHUNK_RESPONSE then
        if |body| < CHUNK_ADDR_LEN then Err(Truncated)
        else Ok(ChunkResponse(body[..CHUNK_ADDR_LEN], body[CHUNK_ADDR_LEN..]))
      else Err(UnknownKind(kind))
  }

  // ---------------------------------------------------------------------------------------------
  // The encoder and the decoder
  // ---------------------------------------------------------------------------------------------

  lemma {:induction false} EntriesBytesSnoc(es: seq<ManifestEntry>, e: ManifestEntry)
    ensures EntriesBytes(es + [e]) == EntriesBytes(es) + EntryBytes(e)
  {
    if es == [] {
      assert [e][1..] == [];
    } else {
      assert (es + [e])[1..] == es[1..] + [e];
      EntriesBytesSnoc(es[1..], e);
    }
  }

  method EncodeChunks(chunks: seq<ChunkAddr>, out: Buffer)
    modifies out
    ensures out.data == old(out.data) + Flat(chunks)
  {
    for i := 0 to |chunks|
      invariant out.data == old(out.data) + Flat(chunks[..i])
    {
      assert chunks[..i + 1] == chunks[..i] + [chunks[i]];
      FlatSnoc(chunks[..i], chunks[i]);
      out.Append(chunks[i]);
    }
    assert chunks[..|chunks|] == chunks;
  }

  method EncodeEntry(e: ManifestEntry, out: Buffer)
    modifies out
    ensures out.data == old(out.data) + EntryBytes(e)
  {
    hide BigEndian, Flat;
    ghost var start := out.data;
    var pathLen, size := BigEndian(|e.relPath| % U16_RANGE, 2), BigEndian(e.size, 8);
    var count := BigEndian(|e.chunks| % U32_RANGE, 4);
    out.Append(pathLen);
    out.Append(e.relPath);
    out.Append(size);
    out.Append(count);
    EncodeChunks(e.chunks, out);
    EntryLaidOut(start, pathLen, e.relPath, size, count, Flat(e.chunks));
  }

  lemma EntryLaidOut(start: seq<Byte>, pathLen: seq<Byte>, path: seq<Byte>, size: seq<Byte>, count: seq<Byte>,
                     chunks: seq<Byte>)
    ensures start + pathLen + path + size + count + chunks == start + (pathLen + path + size + (count + chunks))
  {
  }

  method EncodeEntries(entries: seq<ManifestEntry>, out: Buffer)
    modifies out
    ensures out.data == old(out.data) + EntriesBytes(entries)
  {
    hide EntryBytes;
    for i := 0 to |entries|
      invariant out.data == old(out.data) + EntriesBytes(entries[..i])
    {
      assert entries[..i + 1] == entries[..i] + [entries[i]];
      EntriesBytesSnoc(entries[..i], entries[i]);
      EncodeEntry(entries[i], out);
    }
    assert entries[..|entries|] == entries;
  }

  method EncodeManifest(entries: seq<ManifestEntry>, out: Buffer)
    modifies out
    ensures out.data == old(out.data) + ManifestBytes(entries)
  {
    hide EntriesBytes, BigEndian;
    out.Append(BigEndian(|entries| % U32_RANGE, 4));
    EncodeEntries(entries, out);
  }

  method Encode(f: ShareFrame) returns (bytes: seq<Byte>)
    ensures bytes == FrameBytes(f)
  {
    hide ManifestBytes;
    var out := new Buffer();
    match f {
      case ManifestRequest =>
        out.Append([KIND_MANIFEST_REQUEST]);
      case ManifestResponse(entries) =>
        out.Append([KIND_MANIFEST_RESPONSE]);
        EncodeManifest(entries, out);
      case ChunkRequest(addr) =>
        out.Append([KIND_CHUNK_REQUEST]);
        out.Append(addr);
      case ChunkResponse(addr, data) =>
        out.Append([KIND_CHUNK_RESPONSE]);
        out.Append(addr);
        out.Append(data);
    }
    bytes := out.data;
  }

  /** A bounds-checked cursor: every read advances it or reports a short buffer. */
  class Reader {
    const buf: seq<Byte>
    var pos: nat

    ghost predicate Valid()
      reads this
    {
      pos <= |buf|
    }

    constructor (buf: seq<Byte>)
      ensures Valid() && Remaining() == buf
    {
      this.buf := buf;
      pos := 0;
    }

    function Remaining(): seq<Byte>
      requires Valid()
      reads this
    {
      buf[pos..]
    }

    method ReadSlice(n: nat) returns (r: Result<seq<Byte>, DecodeError>)
      requires Valid()
      modifies this
      ensures Valid()
      ensures n > |old(Remaining())| ==> r == Err(Truncated) && Remaining() == old(Remaining())
      ensures n <= |old(Remaining())| ==> r == Ok(old(Remaining())[..n]) && Remaining() == old(Remaining())[n..]
    {
      var end := pos + n;
      if end > |buf| {
        return Err(Truncated);
      }
      assert buf[pos..][..n] == buf[pos..end] && buf[pos..][n..] == buf[end..];
      r := Ok(buf[pos..end]);
      pos := end;
    }

    /** Read a big-endian integer of `width` bytes. */
    method ReadInt(width: nat) returns (r: Result<nat, DecodeError>)
      requires Valid()
      modifies this
      ensures Valid()
      ensures match ParsedInt(width, old(Remaining()))
              case Err(e) => r == Err(e)
              case Ok((n, rest)) => r == Ok(n) && Remaining() == rest
    {
      var s := ReadSlice(width);
      if s.Err? {
        return Err(s.error);
      }
      r := Ok(FromBigEndian(s.value));
    }
  }

  method DecodeChunks(r: Reader, count: nat) returns (res: Result<seq<ChunkAddr>, DecodeError>)
    requires r.Valid()
    modifies r
    ensures r.Valid()
    ensures match ParsedChunks(count, old(r.Remaining()))
            case Err(e) => res == Err(e)
            case Ok((chunks, rest)) => res == Ok(chunks) && r.Remaining() == rest
  {
    var chunks: seq<ChunkAddr> := [];
    ghost var b := r.Remaining();
    for i := 0 to count
      invariant r.Valid() && |chunks| == i && CHUNK_ADDR_LEN * i <= |b|
      invariant b == Flat(chunks) + r.Remaining()
    {
      var addr := r.ReadSlice(CHUNK_ADDR_LEN);
      if addr.Err? {
        return Err(addr.error);
      }
      FlatSnoc(chunks, addr.value);
      chunks := chunks + [addr.value];
    }
    assert b[..CHUNK_ADDR_LEN * count] == Flat(chunks);
    CutFlat(chunks);
    res := Ok(chunks);
  }

  method DecodeEntry(r: Reader) returns (res: Result<ManifestEntry, DecodeError>)
    requires r.Valid()
    modifies r
    ensures r.Valid()
    ensures match ParsedEntry(old(r.Remaining()))
            case Err(e) => res == Err(e)
            case Ok((entry, rest)) => res == Ok(entry) && r.Remaining() == rest
  {
    var pathLen := r.ReadInt(2);
    if pathLen.Err? {
      return Err(pathLen.error);
    }
    var path := r.ReadSlice(pathLen.value);
    if path.Err? {
      return Err(path.error);
    }
    if !ValidUtf8(path.value) {
      return Err(BadUtf8);
    }
    var size := r.ReadInt(8);
    if size.Err? {
      return Err(size.error);
    }
    var count := r.ReadInt(4);
    if count.Err? {
      return Err(count.error);
    }
    var chunks := DecodeChunks(r, count.value);
    if chunks.Err? {
      return Err(chunks.error);
    }
    res := Ok(ManifestEntry(path.value, size.value, chunks.value));
  }

  /** The result of parsing `done` and then what is left. */
  function Prepended(done: seq<ManifestEntry>, rest: Parse<seq<ManifestEntry>>)
    : Parse<seq<ManifestEntry>>
  {
    match rest
    case Err(e) => Err(e)
    case Ok((es, tail)) => Ok((done + es, tail))
  }

  method DecodeEntries(r: Reader) returns (res: Result<seq<ManifestEntry>, DecodeError>)
    requires r.Valid()
    modifies r
    ensures r.Valid()
    ensures match ParsedManifest(old(r.Remaining()))
            case Err(e) => res == Err(e)
            case Ok((es, rest)) => res == Ok(es) && r.Remaining() == rest
  {
    hide ParsedEntry;
    var count := r.ReadInt(4);
    if count.Err? {
      return Err(count.error);
    }
    var entries: seq<ManifestEntry> := [];
    ghost var all := ParsedEntries(count.value, r.Remaining());
    assert all.Ok? ==> [] + all.value.0 == all.value.0;
    for i := 0 to count.value
      invariant r.Valid()
      invariant all == Prepended(entries, ParsedEntries(count.value - i, r.Remaining()))
    {
      ghost var rest := ParsedEntries(count.value - i, r.Remaining());
      var entry := DecodeEntry(r);
      if entry.Err? {
        return Err(entry.error);
      }
      assert rest.Ok? ==> entries + rest.value.0 == entries + [entry.value] + rest.value.0[1..];
      entries := entries + [entry.value];
    }
    assert entries + [] == entries;
    res := Ok(entries);
  }

  method Decode(bytes: seq<Byte>) returns (res: Result<ShareFrame, DecodeError>)
    ensures res == Parsed(bytes)
  {
    var r := new Reader(bytes);
    var kind := r.ReadSlice(1);
    if kind.Err? {
      return Err(kind.error);
    }
    var k := kind.value[0];
    if k == KIND_MANIFEST_REQUEST {
      return Ok(ManifestRequest);
    } else if k == KIND_MANIFEST_RESPONSE {
      var entries := DecodeEntries(r);
      if entries.Err? {
        return Err(entries.error);
      }
      return Ok(ManifestResponse(entries.value));
    } else if k == KIND_CHUNK_REQUEST {
      var addr := r.ReadSlice(CHUNK_ADDR_LEN);
      if addr.Err? {
        return Err(addr.error);
      }
      return Ok(ChunkRequest(addr.value));
    } else if k == KIND_CHUNK_RESPONSE {
      var addr := r.ReadSlice(CHUNK_ADDR_LEN);
      if addr.Err? {
        return Err(addr.error);
      }
      return Ok(ChunkResponse(addr.value, r.Remaining()));
    }
    res := Err(UnknownKind(k));
  }
}

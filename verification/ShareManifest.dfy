/** One file's row in a share manifest (crates/daemonseed-core/src/share_envelope.rs). */
module ShareManifest {
  import opened Bytes

  /** The path relative to the share root, as its UTF-8 bytes. */
  type Path = seq<Byte>

  /** A SHA-384 chunk address. */
  type ChunkAddr = Digest

  const CHUNK_ADDR_LEN := 48

  datatype ManifestEntry = ManifestEntry(relPath: Path, size: nat, chunks: seq<ChunkAddr>)

  /** The addresses laid end to end. */
  function Flat(addrs: seq<ChunkAddr>): (s: seq<Byte>)
    ensures |s| == CHUNK_ADDR_LEN * |addrs|
  {
    if addrs == [] then [] else addrs[0] + Flat(addrs[1..])
  }

  /** A byte string cut into addresses. */
  function Cut(s: seq<Byte>): (addrs: seq<ChunkAddr>)
    requires |s| % CHUNK_ADDR_LEN == 0
    ensures CHUNK_ADDR_LEN * |addrs| == |s|
  {
    if s == [] then [] else
      assert |s| >= CHUNK_ADDR_LEN;
      [s[..CHUNK_ADDR_LEN]] + Cut(s[CHUNK_ADDR_LEN..])
  }

  lemma {:induction false} CutFlat(addrs: seq<ChunkAddr>)
    ensures Cut(Flat(addrs)) == addrs
  {
    if addrs != [] {
      var s := Flat(addrs);
      assert s[..CHUNK_ADDR_LEN] == addrs[0] && s[CHUNK_ADDR_LEN..] == Flat(addrs[1..]);
      CutFlat(addrs[1..]);
    }
  }

  lemma {:induction false} FlatSnoc(addrs: seq<ChunkAddr>, a: ChunkAddr)
    ensures Flat(addrs + [a]) == Flat(addrs) + a
  {
    if addrs == [] {
      assert [a][1..] == [];
    } else {
      assert (addrs + [a])[1..] == addrs[1..] + [a];
      FlatSnoc(addrs[1..], a);
    }
  }

  lemma {:induction false} FlatCut(s: seq<Byte>)
    requires |s| % CHUNK_ADDR_LEN == 0
    ensures Flat(Cut(s)) == s
    decreases |s|
  {
    if s != [] {
      assert |s| >= CHUNK_ADDR_LEN;
      FlatCut(s[CHUNK_ADDR_LEN..]);
      assert Cut(s)[1..] == Cut(s[CHUNK_ADDR_LEN..]);
      assert s == s[..CHUNK_ADDR_LEN] + s[CHUNK_ADDR_LEN..];
    }
  }

  /** Address i stands at 48 i. */
  lemma {:induction false} FlatAt(addrs: seq<ChunkAddr>, i: nat)
    requires i < |addrs|
    ensures Flat(addrs)[48 * i..48 * (i + 1)] == addrs[i]
  {
    var s := Flat(addrs);
    assert s[48..] == Flat(addrs[1..]);
    if i > 0 {
      FlatAt(addrs[1..], i - 1);
      assert s[48..][48 * (i - 1)..48 * i] == s[48 * i..48 * (i + 1)];
    }
  }
}

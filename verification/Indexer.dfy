/**
 The share indexer of crates/daemonseed-core/src/indexer.rs: rows kept from stat walks and single
 events, doubling as a cache of chunk addresses for the hash pass.
 */
module Indexer {
  import opened Wrappers
  import opened Bytes
  import opened ShareManifest

  const CHUNK_SIZE: nat := 1_048_576

  /**
   What stands at a path under the share root; `readable` says whether opening the file succeeds. A link
   is a symbolic link, or a path behind one: a walk passes over it, while a stat and an open go through
   it to its target, if it has one. `Unstattable` is where a stat fails, but not for want of anything
   there: a loop of links, or a path nobody may look at.
   */
  datatype Node =
    | File(content: seq<Byte>, mtime: nat, readable: bool)
    | Directory
    | Link(target: Option<Node>)
    | Unstattable

  type Tree = map<Path, Node>

  datatype ShareEntry = ShareEntry(size: nat, mtime: nat, chunkAddrs: Option<seq<Byte>>)

  type Rows = map<Path, ShareEntry>

  datatype ServeError = Cancelled | Io

  /** A regular file, as a walk sees it. */
  predicate IsFile(tree: Tree, p: Path) {
    p in tree && tree[p].File?
  }

  function Through(n: Node): (r: Option<Node>)
    ensures r.Some? ==> !r.value.Link?
  {
    match n
    case Link(None) => None
    case Link(Some(target)) => Through(target)
    case _ => Some(n)
  }

  const SEPARATOR: Byte := 47

  /** One of the path's own parents is a file, or itself unstattable: the path is no missing one, nor a present one. */
  predicate Blocked(tree: Tree, p: Path) {
    exists k | 0 < k < |p| ::
      p[k] == SEPARATOR && p[..k] in tree && Through(tree[p[..k]]).Some? && !Through(tree[p[..k]]).value.Directory?
  }

  /** What a stat of the path finds: nothing, or something that need not be a file. */
  function At(tree: Tree, p: Path): (r: Option<Node>)
    ensures r.Some? ==> !r.value.Link?
  {
    if p in tree then Through(tree[p]) else if Blocked(tree, p) then Some(Unstattable) else None
  }

  /** Where nothing stands at a path, a stat says so, unless some `parent/` the path begins with is no directory. */
  lemma MissingUnlessBlocked(tree: Tree, p: Path)
    requires p !in tree
    ensures At(tree, p) == None <==>
              forall parent :: parent in tree && parent != [] && parent + Ascii("/") <= p ==>
                Through(tree[parent]) == None || Through(tree[parent]).value.Directory?
  {
    hide Through;
    if Blocked(tree, p) {
      var k :| 0 < k < |p| && p[k] == SEPARATOR && p[..k] in tree
               && Through(tree[p[..k]]).Some? && !Through(tree[p[..k]]).value.Directory?;
      assert p[..k] + Ascii("/") <= p;
    } else {
      forall parent | parent in tree && parent != [] && parent + Ascii("/") <= p
        ensures Through(tree[parent]) == None || Through(tree[parent]).value.Directory?
      {
        var k := |parent|;
        assert p[k] == (parent + Ascii("/"))[k] && p[..k] == parent;
      }
    }
  }

  /** A regular file, as a stat or an open sees it. */
  predicate OpensAsFile(tree: Tree, p: Path) {
    At(tree, p).Some? && At(tree, p).value.File?
  }

  function FileAt(tree: Tree, p: Path): (file: Node)
    requires OpensAsFile(tree, p)
    ensures file.File?
  {
    At(tree, p).value
  }

  /** The walk reaches every file. */
  ghost predicate Covers(tree: Tree, walk: seq<Path>) {
    forall p :: IsFile(tree, p) ==> p in walk
  }

  /** Regular files, each listed once: what the sorted file list of a pass holds. */
  ghost predicate IsFileList(tree: Tree, files: seq<Path>) {
    && (forall i :: 0 <= i < |files| ==> IsFile(tree, files[i]))
    && (forall i, j :: 0 <= i < j < |files| ==> files[i] != files[j])
  }

  // ---------------------------------------------------------------------------------------------
  // Hashing a file, and the blob that caches the result
  // ---------------------------------------------------------------------------------------------

  /** The addresses of a file's chunks: CHUNK_SIZE bytes each but the last, none for an empty file. */
  function HashFile(h: seq<Byte> -> Digest, content: seq<Byte>): seq<ChunkAddr> {
    if content == [] then []
    else if |content| <= CHUNK_SIZE then [h(content)]
    else [h(content[..CHUNK_SIZE])] + HashFile(h, content[CHUNK_SIZE..])
  }

  function DivCeil(n: nat, d: nat): nat
    requires d > 0
  {
    (n + d - 1) / d
  }

  lemma {:induction false} ChunkCount(h: seq<Byte> -> Digest, content: seq<Byte>)
    ensures |HashFile(h, content)| == DivCeil(|content|, CHUNK_SIZE) == (|content| + 1_048_575) / 1_048_576
  {
    if |content| > CHUNK_SIZE {
      ChunkCount(h, content[CHUNK_SIZE..]);
    }
  }

  /** Address i is the hash of chunk i alone: a mebibyte of the file from i mebibytes on, or what is left of it. */
  lemma {:induction false} ChunkAt(h: seq<Byte> -> Digest, content: seq<Byte>, i: nat)
    requires i < |HashFile(h, content)|
    ensures i * 1_048_576 < |content|
    ensures var end := if (i + 1) * 1_048_576 < |content| then (i + 1) * 1_048_576 else |content|;
      HashFile(h, content)[i] == h(content[i * 1_048_576..end])
    decreases i
  {
    if i == 0 {
      assert content[0..|content|] == content;
    } else {
      var rest := content[CHUNK_SIZE..];
      ChunkAt(h, rest, i - 1);
      var from := (i - 1) * 1_048_576;
      var end := if from + 1_048_576 < |rest| then from + 1_048_576 else |rest|;
      SliceOfRest(content, CHUNK_SIZE, from, end);
    }
  }

  lemma SliceOfRest(s: seq<Byte>, n: nat, from: nat, end: nat)
    requires n <= |s| && from <= end <= |s| - n
    ensures s[n..][from..end] == s[n + from..n + end]
  {
  }

  lemma NextChunk(h: seq<Byte> -> Digest, content: seq<Byte>, size: nat, n: nat)
    requires size < |content| && n == if |content| - size < CHUNK_SIZE then |content| - size else CHUNK_SIZE
    ensures HashFile(h, content[size..]) == [h(content[size..size + n])] + HashFile(h, content[size + n..])
  {
    var rest := content[size..];
    assert rest[..n] == content[size..size + n] && rest[n..] == content[size + n..];
    if n == |rest| {
      assert rest == content[size..size + n] && content[size + n..] == [];
    }
  }

  lemma NothingToHash(h: seq<Byte> -> Digest)
    ensures HashFile(h, []) == []
  {
  }

  /**
   Stream a file into its ordered addresses and the number of bytes read. `cancel(k)` is the flag as
   read before chunk k.
   */
  method HashFileChunks(h: seq<Byte> -> Digest, file: Node, cancel: nat -> bool)
    returns (r: Result<(seq<ChunkAddr>, nat), ServeError>)
    requires file.File?
    ensures r.Ok? ==> file.readable && r.value == (HashFile(h, file.content), |file.content|)
    ensures r == Err(Io) <==> !file.readable
    ensures r == Err(Cancelled) ==> exists k :: cancel(k)
  {
    hide HashFile;
    if !file.readable {
      return Err(Io);
    }
    var content := file.content;
    var chunks: seq<ChunkAddr>, size: nat := [], 0;
    assert content[0..] == content;
    while true
      invariant size <= |content|
      invariant chunks + HashFile(h, content[size..]) == HashFile(h, content)
      decreases |content| - size
    {
      if cancel(|chunks|) {
        return Err(Cancelled);
      }
      var left := |content| - size;
      var n := if left < CHUNK_SIZE then left else CHUNK_SIZE;
      if n == 0 {
        break;
      }
      var buf := content[size..size + n];
      NextChunk(h, content, size, n);
      chunks := chunks + [h(buf)];
      size := size + n;
      if n < CHUNK_SIZE {
        break;
      }
    }
    NothingToHash(h);
    assert content[size..] == [];
    assert chunks == chunks + [] == HashFile(h, content);
    r := Ok((chunks, size));
  }

  /** A cached blob is trusted only if it holds exactly the addresses a file of that size has. */
  function ParseAddrBlob(blob: seq<Byte>, size: nat): Option<seq<ChunkAddr>> {
    if |blob| % CHUNK_ADDR_LEN != 0 then None
    else if |blob| / CHUNK_ADDR_LEN != DivCeil(size, CHUNK_SIZE) then None
    else Some(Cut(blob))
  }

  /** A blob is trusted for one list of addresses: those laid end to end in it, as many as the size has chunks. */
  lemma BlobIsTrusted(blob: seq<Byte>, size: nat, addrs: seq<ChunkAddr>)
    ensures ParseAddrBlob(blob, size) == Some(addrs)
       <==> blob == Flat(addrs) && |addrs| == (size + 1_048_575) / 1_048_576
  {
    if ParseAddrBlob(blob, size) == Some(addrs) {
      FlatCut(blob);
    }
    if blob == Flat(addrs) && |addrs| == (size + 1_048_575) / 1_048_576 {
      FlatParses(addrs, size);
    }
  }

  lemma FlatParses(addrs: seq<ChunkAddr>, size: nat)
    requires |addrs| == DivCeil(size, CHUNK_SIZE)
    ensures ParseAddrBlob(Flat(addrs), size) == Some(addrs)
  {
    var n, len := |addrs|, |Flat(addrs)|;
    assert len == 48 * n;
    assert len % 48 == 0 && len / 48 == n;
    CutFlat(addrs);
  }

  /** The blob a hash pass writes back parses to the addresses it was made from. */
  lemma WrittenBlobParses(h: seq<Byte> -> Digest, content: seq<Byte>)
    ensures ParseAddrBlob(Flat(HashFile(h, content)), |content|) == Some(HashFile(h, content))
  {
    ChunkCount(h, content);
    FlatParses(HashFile(h, content), |content|);
  }

  // ---------------------------------------------------------------------------------------------
  // What each operation does to the rows, one path at a time
  // ---------------------------------------------------------------------------------------------

  predicate SameStat(e: ShareEntry, file: Node) {
    file.File? && e.size == |file.content| && e.mtime == file.mtime
  }

  /** The addresses the cache offers for a file, if its row can be trusted for it. */
  function Lookup(rows: Rows, tree: Tree, p: Path): Option<seq<ChunkAddr>> {
    if IsFile(tree, p) && p in rows && SameStat(rows[p], tree[p]) && rows[p].chunkAddrs.Some?
    then ParseAddrBlob(rows[p].chunkAddrs.value, |tree[p].content|)
    else None
  }

  /** A stat walk's write: the cached blob survives only an unchanged stat. */
  function ScanOne(rows: Rows, tree: Tree, p: Path): Rows {
    if !IsFile(tree, p) then rows
    else
      var file := tree[p];
      var blob := if p in rows && SameStat(rows[p], file) then rows[p].chunkAddrs else None;
      rows[p := ShareEntry(|file.content|, file.mtime, blob)]
  }

  function Scanned(rows: Rows, tree: Tree, walked: seq<Path>): Rows {
    if walked == [] then rows
    else ScanOne(Scanned(rows, tree, walked[..|walked| - 1]), tree, walked[|walked| - 1])
  }

  /** The prune after a complete scan: it asks of each row whether a stat still finds a file. */
  function OnlyFiles(rows: Rows, tree: Tree): Rows {
    map p | p in rows && OpensAsFile(tree, p) :: rows[p]
  }

  function Rescanned(rows: Rows, tree: Tree, walked: seq<Path>, since: nat): Rows {
    if walked == [] then rows
    else
      var before, p := Rescanned(rows, tree, walked[..|walked| - 1], since), walked[|walked| - 1];
      if IsFile(tree, p) && tree[p].mtime > since
      then before[p := ShareEntry(|tree[p].content|, tree[p].mtime, None)]
      else before
  }

  /**
   The hash pass's write. `tree` is what the stat of each file saw, `disk` what opening it a moment
   later read. A hit keeps its row; a miss gets the addresses and size read, under the stat's time.
   */
  function HashOne(h: seq<Byte> -> Digest, rows: Rows, tree: Tree, disk: Tree, p: Path): Rows {
    if !IsFile(tree, p) || !OpensAsFile(disk, p) || Lookup(rows, tree, p).Some? then rows
    else
      var content := FileAt(disk, p).content;
      rows[p := ShareEntry(|content|, tree[p].mtime, Some(Flat(HashFile(h, content))))]
  }

  function Hashed(h: seq<Byte> -> Digest, rows: Rows, tree: Tree, disk: Tree, walked: seq<Path>): Rows {
    if walked == [] then rows
    else HashOne(h, Hashed(h, rows, tree, disk, walked[..|walked| - 1]), tree, disk, walked[|walked| - 1])
  }

  /** Opening and reading the file at p succeeds. */
  predicate Opens(disk: Tree, p: Path) {
    OpensAsFile(disk, p) && FileAt(disk, p).readable
  }

  /** A filesystem event: a path outside the root has no relative form, and a stat may fail in passing. */
  datatype FsEvent = Upserted(rel: Option<Path>, statFails: bool) | Removed(rel: Option<Path>)

  function Applied(rows: Rows, tree: Tree, e: FsEvent): Rows {
    if e.rel == None then rows
    else
      var p := e.rel.value;
      match e
      case Removed(_) => rows - {p}
      case Upserted(_, statFails) =>
        if statFails then rows
        else if At(tree, p) == None then rows - {p}
        else if !At(tree, p).value.File? then rows
        else rows[p := ShareEntry(|FileAt(tree, p).content|, FileAt(tree, p).mtime, None)]
  }

  /** The file the pass goes by: the statted one for a hit, the one read for a miss. */
  function SeenFile(rows: Rows, tree: Tree, disk: Tree, p: Path): (file: Node)
    requires IsFile(tree, p)
    ensures file.File?
  {
    if Lookup(rows, tree, p).Some? || !OpensAsFile(disk, p) then tree[p] else FileAt(disk, p)
  }

  /** The manifest entry the pass makes of one file: cached addresses, or freshly hashed ones. */
  function EntryOf(h: seq<Byte> -> Digest, rows: Rows, tree: Tree, disk: Tree, p: Path): ManifestEntry
    requires IsFile(tree, p)
  {
    var cached, seen := Lookup(rows, tree, p), SeenFile(rows, tree, disk, p);
    ManifestEntry(p, |seen.content|, if cached.Some? then cached.value else HashFile(h, seen.content))
  }

  /** Every file that has to be read can be. */
  ghost predicate MissesOpen(rows: Rows, tree: Tree, disk: Tree, files: seq<Path>) {
    forall i :: 0 <= i < |files| ==> Lookup(rows, tree, files[i]).Some? || Opens(disk, files[i])
  }

  ghost predicate IsBuilt(entries: seq<ManifestEntry>, h: seq<Byte> -> Digest, rows: Rows, tree: Tree, disk: Tree,
                          files: seq<Path>)
    requires IsFileList(tree, files)
  {
    && |entries| == |files|
    && forall i :: 0 <= i < |files| ==> entries[i] == EntryOf(h, rows, tree, disk, files[i])
  }

  /** What the cached pass comes to when nobody cancels it. */
  ghost predicate CachedOutcome(r: Result<seq<ManifestEntry>, ServeError>, h: seq<Byte> -> Digest, rows: Rows,
                                tree: Tree,
                                disk: Tree, files: seq<Path>)
    requires IsFileList(tree, files)
  {
    if MissesOpen(rows, tree, disk, files) then r.Ok? && IsBuilt(r.value, h, rows, tree, disk, files) else r == Err(Io)
  }

  /** The files a pass has to read. */
  function Misses(rows: Rows, tree: Tree, files: seq<Path>): seq<Path> {
    if files == [] then []
    else
      var before, p := Misses(rows, tree, files[..|files| - 1]), files[|files| - 1];
      if Lookup(rows, tree, p).Some? then before else before + [p]
  }

  // ---------------------------------------------------------------------------------------------
  // The operations
  // ---------------------------------------------------------------------------------------------

  /** A flag that, once set, stays set: `at` is the first poll that sees it. */
  datatype CancelFlag = CancelFlag(at: Option<nat>) {
    predicate Seen(poll: nat) {
      at.Some? && at.value <= poll
    }

    /** How many of `n` polled steps run. */
    function Stop(n: nat): (stop: nat)
      ensures stop <= n
    {
      if Seen(n) then at.value else n
    }
  }

  /** The steps that run are those before the first poll that sees the flag, which is poll `at`. */
  lemma StopsAtFirstSeen(flag: CancelFlag, n: nat, poll: nat)
    ensures flag.Seen(poll) <==> flag.at.Some? && flag.at.value <= poll
    ensures poll < flag.Stop(n) ==> poll < n && !flag.Seen(poll)
    ensures flag.Stop(n) < n ==> flag.at == Some(flag.Stop(n))
  {
  }

  class ShareIndex {
    var rows: Rows

    constructor ()
      ensures rows == map[]
    {
      rows := map[];
    }

    /** Upsert every regular file the walk yields; a set flag stops early and is not an error. */
    method ScanInto(tree: Tree, walk: seq<Path>, cancel: CancelFlag) returns (count: nat)
      modifies this
      ensures rows == Scanned(old(rows), tree, walk[..cancel.Stop(|walk|)])
      ensures count == |set i: nat | i < cancel.Stop(|walk|) && IsFile(tree, walk[i])|
    {
      count := 0;
      for i := 0 to |walk|
        invariant cancel.at.Some? ==> i <= cancel.at.value
        invariant rows == Scanned(old(rows), tree, walk[..i])
        invariant count == |set j: nat | j < i && IsFile(tree, walk[j])|
      {
        if cancel.Seen(i) {
          return;
        }
        var p := walk[i];
        assert walk[..i + 1][..i] == walk[..i];
        OneMoreFile(tree, walk, i);
        if !IsFile(tree, p) {
          continue;
        }
        var file := tree[p];
        var blob := None;
        if p in rows && SameStat(rows[p], file) {
          blob := rows[p].chunkAddrs;
        }
        rows := rows[p := ShareEntry(|file.content|, file.mtime, blob)];
        count := count + 1;
      }
    }

    /** Scan, then drop every row whose path no longer opens as a file; a scan cut short drops nothing. */
    method ReconcileInto(tree: Tree, walk: seq<Path>, cancel: CancelFlag) returns (count: nat)
      modifies this
      ensures !cancel.Seen(|walk|) ==> rows == OnlyFiles(Scanned(old(rows), tree, walk), tree)
      ensures cancel.Seen(|walk|) ==> rows == Scanned(old(rows), tree, walk[..cancel.at.value])
    {
      count := ScanInto(tree, walk, cancel);
      assert walk[..|walk|] == walk;
      if cancel.Seen(|walk|) {
        return;
      }
      ghost var scanned := rows;
      var todo := rows.Keys;
      while todo != {}
        invariant todo <= scanned.Keys
        invariant rows == map p | p in scanned && (p in todo || OpensAsFile(tree, p)) :: scanned[p]
        decreases |todo|
      {
        var p :| p in todo;
        todo := todo - {p};
        if !OpensAsFile(tree, p) {
          rows := rows - {p};
        }
      }
    }

    method ApplyEvent(tree: Tree, event: FsEvent)
      modifies this
      ensures rows == Applied(old(rows), tree, event)
    {
      match event {
        case Upserted(None, _) =>
        case Upserted(Some(p), statFails) =>
          if !statFails {
            match At(tree, p) {
              case None => rows := rows - {p};
              case Some(found) =>
                if found.File? {
                  rows := rows[p := ShareEntry(|found.content|, found.mtime, None)];
                }
            }
          }
        case Removed(None) =>
        case Removed(Some(p)) =>
          rows := rows - {p};
      }
    }

    /** Upsert only the files modified after `since`. */
    method MtimeRescan(tree: Tree, walk: seq<Path>, since: nat) returns (updated: nat)
      modifies this
      ensures rows == Rescanned(old(rows), tree, walk, since)
      ensures updated == |set i: nat | i < |walk| && IsFile(tree, walk[i]) && tree[walk[i]].mtime > since|
    {
      updated := 0;
      for i := 0 to |walk|
        invariant rows == Rescanned(old(rows), tree, walk[..i], since)
        invariant updated == |set j: nat | j < i && IsFile(tree, walk[j]) && tree[walk[j]].mtime > since|
      {
        var p := walk[i];
        assert walk[..i + 1][..i] == walk[..i];
        OneMoreNewer(tree, walk, since, i);
        if !IsFile(tree, p) || tree[p].mtime <= since {
          continue;
        }
        rows := rows[p := ShareEntry(|tree[p].content|, tree[p].mtime, None)];
        updated := updated + 1;
      }
      assert walk[..|walk|] == walk;
    }

    /**
     The cached hash pass over the sorted list of regular files, each statted in `tree` and, on a miss,
     read from `disk`. `cancel(i, k)` is the flag as read at poll k of file i: poll 0 comes before the
     file and poll k + 1 before its chunk k. `streamed` records which files were read.
     */
    method CachedOrHash(h: seq<Byte> -> Digest, tree: Tree, disk: Tree, files: seq<Path>, cancel: (nat, nat) -> bool)
      returns (r: Result<seq<ManifestEntry>, ServeError>, ghost streamed: seq<Path>)
      requires IsFileList(tree, files)
      modifies this
      ensures r.Ok? ==> && IsBuilt(r.value, h, old(rows), tree, disk, files)
                        && rows == Hashed(h, old(rows), tree, disk, files)
                        && streamed == Misses(old(rows), tree, files)
                        && MissesOpen(old(rows), tree, disk, files)
      ensures r.Err? ==> exists k :: 0 <= k < |files| && rows == Hashed(h, old(rows), tree, disk, files[..k])
      ensures r == Err(Io) ==>
                exists i :: 0 <= i < |files| && !Opens(disk, files[i]) && Lookup(old(rows), tree, files[i]) == None
      ensures r == Err(Cancelled) ==> exists i, k :: cancel(i, k)
      ensures (forall i, k :: !cancel(i, k)) ==> CachedOutcome(r, h, old(rows), tree, disk, files)
    {
      hide Lookup, Flat, HashFile, IsBuilt, CachedOutcome, MissesOpen, Hashed, Misses;
      var entries: seq<ManifestEntry> := [];
      streamed := [];
      ghost var was := rows;
      NothingYet(h, was, tree, disk, files);
      for i := 0 to |files|
        invariant IsFileList(tree, files[..i])
        invariant rows == Hashed(h, was, tree, disk, files[..i])
        invariant IsBuilt(entries, h, was, tree, disk, files[..i])
        invariant streamed == Misses(was, tree, files[..i])
        invariant MissesOpen(was, tree, disk, files[..i])
      {
        if cancel(i, 0) {
          return Err(Cancelled), streamed;
        }
        var p := files[i];
        LookedUpAsFound(h, was, tree, disk, files, i);
        HashedSnoc(h, was, tree, disk, files, i);
        MissesSnoc(was, tree, files, i);
        BuiltSnoc(h, was, tree, disk, files, i, entries);
        var chunks, size := [], |tree[p].content|;
        match Lookup(rows, tree, p) {
          case Some(hit) =>
            chunks := hit;
          case None =>
            if !OpensAsFile(disk, p) {
              MissStopsPass(h, was, tree, disk, files, i);
              return Err(Io), streamed;
            }
            var hashed := HashFileChunks(h, FileAt(disk, p), (k: nat) => cancel(i, k + 1));
            if hashed.Err? {
              if hashed.error == Io {
                MissStopsPass(h, was, tree, disk, files, i);
              }
              return Err(hashed.error), streamed;
            }
            chunks, size := hashed.value.0, hashed.value.1;
            rows := rows[p := ShareEntry(size, tree[p].mtime, Some(Flat(chunks)))];
            streamed := streamed + [p];
        }
        OpenSnoc(was, tree, disk, files, i);
        entries := entries + [ManifestEntry(p, size, chunks)];
      }
      assert files[..|files|] == files;
      r := Ok(entries);
      PassCompletes(h, was, tree, disk, files, entries);
    }
  }

  lemma OneMoreFile(tree: Tree, walk: seq<Path>, i: nat)
    requires i < |walk|
    ensures |set j: nat | j < i + 1 && IsFile(tree, walk[j])|
         == |set j: nat | j < i && IsFile(tree, walk[j])| + if IsFile(tree, walk[i]) then 1 else 0
  {
    var before, after := set j: nat | j < i && IsFile(tree, walk[j]), set j: nat | j < i + 1 && IsFile(tree, walk[j]);
    assert after == if IsFile(tree, walk[i]) then before + {i} else before;
  }

  lemma OneMoreNewer(tree: Tree, walk: seq<Path>, since: nat, i: nat)
    requires i < |walk|
    ensures |set j: nat | j < i + 1 && IsFile(tree, walk[j]) && tree[walk[j]].mtime > since|
         == |set j: nat | j < i && IsFile(tree, walk[j]) && tree[walk[j]].mtime > since|
            + if IsFile(tree, walk[i]) && tree[walk[i]].mtime > since then 1 else 0
  {
    var before := set j: nat | j < i && IsFile(tree, walk[j]) && tree[walk[j]].mtime > since;
    var after := set j: nat | j < i + 1 && IsFile(tree, walk[j]) && tree[walk[j]].mtime > since;
    assert after == if IsFile(tree, walk[i]) && tree[walk[i]].mtime > since then before + {i} else before;
  }

  lemma NothingYet(h: seq<Byte> -> Digest, was: Rows, tree: Tree, disk: Tree, files: seq<Path>)
    requires IsFileList(tree, files)
    ensures files[..0] == [] && IsFileList(tree, files[..0]) && IsBuilt([], h, was, tree, disk, files[..0])
    ensures Hashed(h, was, tree, disk, files[..0]) == was && Misses(was, tree, files[..0]) == []
    ensures MissesOpen(was, tree, disk, files[..0])
  {
  }

  lemma OpenSnoc(was: Rows, tree: Tree, disk: Tree, files: seq<Path>, i: nat)
    requires i < |files| && MissesOpen(was, tree, disk, files[..i])
    requires Lookup(was, tree, files[i]).Some? || Opens(disk, files[i])
    ensures MissesOpen(was, tree, disk, files[..i + 1])
  {
    hide Lookup, Opens;
    assert files[..i + 1] == files[..i] + [files[i]];
  }

  /** A miss that does not open is the one way an uncancelled pass fails. */
  lemma MissStopsPass(h: seq<Byte> -> Digest, was: Rows, tree: Tree, disk: Tree, files: seq<Path>, i: nat)
    requires IsFileList(tree, files) && i < |files|
    requires Lookup(was, tree, files[i]) == None && !Opens(disk, files[i])
    ensures CachedOutcome(Err(Io), h, was, tree, disk, files)
  {
    hide Lookup, Opens;
  }

  lemma PassCompletes(h: seq<Byte> -> Digest, was: Rows, tree: Tree, disk: Tree, files: seq<Path>,
                      entries: seq<ManifestEntry>)
    requires IsFileList(tree, files) && MissesOpen(was, tree, disk, files)
    requires IsBuilt(entries, h, was, tree, disk, files)
    ensures CachedOutcome(Ok(entries), h, was, tree, disk, files)
  {
  }

  /** Hashing some files does not touch the row of another. */
  lemma {:induction false} HashedElsewhere(h: seq<Byte> -> Digest, rows: Rows, tree: Tree, disk: Tree,
                                           walked: seq<Path>, p: Path)
    requires p !in walked
    ensures p in Hashed(h, rows, tree, disk, walked) <==> p in rows
    ensures p in rows ==> Hashed(h, rows, tree, disk, walked)[p] == rows[p]
  {
    if walked != [] {
      HashedElsewhere(h, rows, tree, disk, walked[..|walked| - 1], p);
    }
  }

  /** Extending the walked files by one. */
  lemma HashedSnoc(h: seq<Byte> -> Digest, was: Rows, tree: Tree, disk: Tree, files: seq<Path>, i: nat)
    requires i < |files|
    ensures Hashed(h, was, tree, disk, files[..i + 1])
         == HashOne(h, Hashed(h, was, tree, disk, files[..i]), tree, disk, files[i])
  {
    hide HashOne;
    assert files[..i + 1][..i] == files[..i];
  }

  lemma MissesSnoc(was: Rows, tree: Tree, files: seq<Path>, i: nat)
    requires i < |files|
    ensures Misses(was, tree, files[..i + 1])
         == Misses(was, tree, files[..i]) + if Lookup(was, tree, files[i]).Some? then [] else [files[i]]
  {
    hide Lookup;
    assert files[..i + 1][..i] == files[..i];
  }

  lemma BuiltSnoc(h: seq<Byte> -> Digest, was: Rows, tree: Tree, disk: Tree, files: seq<Path>, i: nat,
                  entries: seq<ManifestEntry>)
    requires IsFileList(tree, files) && i < |files|
    requires IsFileList(tree, files[..i]) && IsBuilt(entries, h, was, tree, disk, files[..i])
    ensures IsFileList(tree, files[..i + 1])
    ensures IsBuilt(entries + [EntryOf(h, was, tree, disk, files[i])], h, was, tree, disk, files[..i + 1])
  {
    hide EntryOf;
    assert files[..i + 1] == files[..i] + [files[i]];
  }

  /** A file is looked up as the pass found it: no earlier write touched its row. */
  lemma LookedUpAsFound(h: seq<Byte> -> Digest, was: Rows, tree: Tree, disk: Tree, files: seq<Path>, i: nat)
    requires IsFileList(tree, files) && i < |files|
    ensures Lookup(Hashed(h, was, tree, disk, files[..i]), tree, files[i]) == Lookup(was, tree, files[i])
  {
    hide HashFile, ParseAddrBlob, Hashed;
    assert forall j :: 0 <= j < i ==> files[..i][j] == files[j];
    HashedElsewhere(h, was, tree, disk, files[..i], files[i]);
  }
}

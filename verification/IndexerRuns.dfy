/**
 What the indexer promises over any history of scans, events and hash passes: the cache never lies,
 a warm cache stays warm, and incremental updates agree with a full reconcile.
 */
module IndexerRuns {
  import opened Wrappers
  import opened Bytes
  import opened ShareManifest
  import opened Indexer

  // ---------------------------------------------------------------------------------------------
  // The reference: hashing every file
  // ---------------------------------------------------------------------------------------------

  function HashedEntry(h: seq<Byte> -> Digest, tree: Tree, p: Path): ManifestEntry
    requires IsFile(tree, p)
  {
    ManifestEntry(p, |tree[p].content|, HashFile(h, tree[p].content))
  }

  ghost predicate IsHashManifest(entries: seq<ManifestEntry>, h: seq<Byte> -> Digest, tree: Tree, files: seq<Path>)
    requires IsFileList(tree, files)
  {
    && |entries| == |files|
    && forall i :: 0 <= i < |files| ==> entries[i] == HashedEntry(h, tree, files[i])
  }

  ghost predicate AllReadable(tree: Tree, files: seq<Path>)
    requires IsFileList(tree, files)
  {
    forall i :: 0 <= i < |files| ==> tree[files[i]].readable
  }

  /** What the uncached pass comes to when nobody cancels it. */
  ghost predicate HashOutcome(r: Result<seq<ManifestEntry>, ServeError>, h: seq<Byte> -> Digest, tree: Tree,
                              files: seq<Path>)
    requires IsFileList(tree, files)
  {
    if AllReadable(tree, files) then r.Ok? && IsHashManifest(r.value, h, tree, files) else r == Err(Io)
  }

  /** The uncached pass: stream every file, stopping at the first that cannot be read. */
  method HashShare(h: seq<Byte> -> Digest, tree: Tree, files: seq<Path>, cancel: (nat, nat) -> bool)
    returns (r: Result<seq<ManifestEntry>, ServeError>)
    requires IsFileList(tree, files)
    ensures r.Ok? ==> IsHashManifest(r.value, h, tree, files) && AllReadable(tree, files)
    ensures r == Err(Io) ==> exists i :: 0 <= i < |files| && !tree[files[i]].readable
    ensures r == Err(Cancelled) ==> exists i, k :: cancel(i, k)
    ensures (forall i, k :: !cancel(i, k)) ==> HashOutcome(r, h, tree, files)
  {
    var entries: seq<ManifestEntry> := [];
    for i := 0 to |files|
      invariant |entries| == i
      invariant forall j :: 0 <= j < i ==> entries[j] == HashedEntry(h, tree, files[j]) && tree[files[j]].readable
    {
      if cancel(i, 0) {
        return Err(Cancelled);
      }
      var hashed := HashFileChunks(h, tree[files[i]], (k: nat) => cancel(i, k + 1));
      if hashed.Err? {
        assert hashed.error == Io ==> !AllReadable(tree, files);
        return Err(hashed.error);
      }
      entries := entries + [ManifestEntry(files[i], hashed.value.1, hashed.value.0)];
    }
    r := Ok(entries);
  }

  // ---------------------------------------------------------------------------------------------
  // Soundness of the cache
  // ---------------------------------------------------------------------------------------------

  /** For one path, size and modification time determine content. */
  type Versions = (Path, nat, nat) -> seq<Byte>

  ghost predicate Faithful(v: Versions, tree: Tree) {
    forall p :: IsFile(tree, p) ==> v(p, |tree[p].content|, tree[p].mtime) == tree[p].content
  }

  /** A blob that parses holds the addresses of the version its row names. */
  ghost predicate SoundRow(h: seq<Byte> -> Digest, v: Versions, p: Path, e: ShareEntry) {
    e.chunkAddrs.Some? && ParseAddrBlob(e.chunkAddrs.value, e.size).Some? ==>
      ParseAddrBlob(e.chunkAddrs.value, e.size).value == HashFile(h, v(p, e.size, e.mtime))
  }

  ghost predicate Sound(h: seq<Byte> -> Digest, v: Versions, rows: Rows) {
    forall p :: p in rows ==> SoundRow(h, v, p, rows[p])
  }

  /** The tree as a pass goes by it: hits as statted, misses as read. */
  function AsSeen(rows: Rows, tree: Tree, disk: Tree): Tree {
    map p | p in tree :: if IsFile(tree, p) then SeenFile(rows, tree, disk, p) else tree[p]
  }

  /**
   From a sound index, the cached pass returns exactly the manifest of hashing every file, each as the
   pass saw it; where nothing changed between stat and read, that is the tree itself.
   */
  lemma CacheRefinesHash(h: seq<Byte> -> Digest, v: Versions, rows: Rows, tree: Tree, disk: Tree, files: seq<Path>,
                         entries: seq<ManifestEntry>)
    requires IsFileList(tree, files) && Sound(h, v, rows) && Faithful(v, tree)
    ensures IsFileList(AsSeen(rows, tree, disk), files)
    ensures IsBuilt(entries, h, rows, tree, disk, files)
       <==> IsHashManifest(entries, h, AsSeen(rows, tree, disk), files)
    ensures disk == tree ==> AsSeen(rows, tree, disk) == tree
  {
  }

  /** The file system and the index may move on between any two operations. */
  datatype Op =
    | Scan(tree: Tree, walked: seq<Path>)
    | Reconcile(tree: Tree, walked: seq<Path>)
    | Rescan(tree: Tree, walked: seq<Path>, since: nat)
    | Event(tree: Tree, event: FsEvent)
    | Pass(tree: Tree, disk: Tree, walked: seq<Path>)

  /** An operation cut short is one whose `walked` stops early; a reconcile cut short is a scan. */
  function Step(h: seq<Byte> -> Digest, rows: Rows, op: Op): Rows {
    match op
    case Scan(tree, walked) => Scanned(rows, tree, walked)
    case Reconcile(tree, walked) => OnlyFiles(Scanned(rows, tree, walked), tree)
    case Rescan(tree, walked, since) => Rescanned(rows, tree, walked, since)
    case Event(tree, event) => Applied(rows, tree, event)
    case Pass(tree, disk, walked) => Hashed(h, rows, tree, disk, walked)
  }

  function Run(h: seq<Byte> -> Digest, rows: Rows, ops: seq<Op>): Rows {
    if ops == [] then rows else Step(h, Run(h, rows, ops[..|ops| - 1]), ops[|ops| - 1])
  }

  lemma {:induction false} ScannedSound(h: seq<Byte> -> Digest, v: Versions, rows: Rows, tree: Tree, walked: seq<Path>)
    requires Sound(h, v, rows)
    ensures Sound(h, v, Scanned(rows, tree, walked))
  {
    if walked != [] {
      ScannedSound(h, v, rows, tree, walked[..|walked| - 1]);
    }
  }

  lemma {:induction false} RescannedSound(h: seq<Byte> -> Digest, v: Versions, rows: Rows, tree: Tree,
                                          walked: seq<Path>, since: nat)
    requires Sound(h, v, rows)
    ensures Sound(h, v, Rescanned(rows, tree, walked, since))
  {
    if walked != [] {
      RescannedSound(h, v, rows, tree, walked[..|walked| - 1], since);
    }
  }

  /**
   The size a pass reads of a file it has to read, with the time it statted, names no other content than
   what it reads. Where nothing changes between stat and read this follows from Faithful.
   */
  ghost predicate Caught(v: Versions, rows: Rows, tree: Tree, disk: Tree, walked: seq<Path>) {
    forall p :: p in walked && IsFile(tree, p) && OpensAsFile(disk, p) && Lookup(rows, tree, p) == None ==>
      v(p, |FileAt(disk, p).content|, tree[p].mtime) == FileAt(disk, p).content
  }

  /** A pass never unmakes a hit. */
  lemma {:induction false} HashedKeepsHits(h: seq<Byte> -> Digest, rows: Rows, tree: Tree, disk: Tree,
                                           walked: seq<Path>, p: Path)
    requires Lookup(rows, tree, p).Some?
    ensures Lookup(Hashed(h, rows, tree, disk, walked), tree, p) == Lookup(rows, tree, p)
  {
    if walked != [] {
      HashedKeepsHits(h, rows, tree, disk, walked[..|walked| - 1], p);
    }
  }

  lemma {:induction false} HashedSound(h: seq<Byte> -> Digest, v: Versions, rows: Rows, tree: Tree, disk: Tree,
                                       walked: seq<Path>)
    requires Sound(h, v, rows) && Caught(v, rows, tree, disk, walked)
    ensures Sound(h, v, Hashed(h, rows, tree, disk, walked))
  {
    if walked != [] {
      var n := |walked| - 1;
      var p := walked[n];
      var before := Hashed(h, rows, tree, disk, walked[..n]);
      assert forall q :: q in walked[..n] ==> q in walked;
      HashedSound(h, v, rows, tree, disk, walked[..n]);
      if IsFile(tree, p) && OpensAsFile(disk, p) && Lookup(before, tree, p) == None {
        if Lookup(rows, tree, p).Some? {
          HashedKeepsHits(h, rows, tree, disk, walked[..n], p);
        }
        WrittenBlobParses(h, FileAt(disk, p).content);
      }
      assert Hashed(h, rows, tree, disk, walked) == HashOne(h, before, tree, disk, p);
    }
  }

  /** Every pass of the run catches the files it reads. */
  ghost predicate PassesCaught(h: seq<Byte> -> Digest, v: Versions, rows: Rows, ops: seq<Op>) {
    forall k :: 0 <= k < |ops| && ops[k].Pass? ==>
      Caught(v, Run(h, rows, ops[..k]), ops[k].tree, ops[k].disk, ops[k].walked)
  }

  /** Every operation, complete or cut short, over whatever the tree has become, keeps the cache sound. */
  lemma {:induction false} RunKeepsSound(h: seq<Byte> -> Digest, v: Versions, rows: Rows, ops: seq<Op>)
    requires Sound(h, v, rows) && PassesCaught(h, v, rows, ops)
    ensures Sound(h, v, Run(h, rows, ops))
  {
    if ops != [] {
      var n, front := |ops| - 1, ops[..|ops| - 1];
      var before, op := Run(h, rows, front), ops[n];
      assert forall k :: 0 <= k < n ==> front[..k] == ops[..k] && front[k] == ops[k];
      RunKeepsSound(h, v, rows, front);
      match op {
        case Scan(tree, walked) => ScannedSound(h, v, before, tree, walked);
        case Reconcile(tree, walked) => ScannedSound(h, v, before, tree, walked);
        case Rescan(tree, walked, since) => RescannedSound(h, v, before, tree, walked, since);
        case Event(_, _) =>
        case Pass(tree, disk, walked) => HashedSound(h, v, before, tree, disk, walked);
      }
    }
  }

  /** So after any history from an empty index, the manifest a cached pass builds is the one an uncached pass builds. */
  lemma CachedPassAfterAnyHistory(h: seq<Byte> -> Digest, v: Versions, ops: seq<Op>, tree: Tree, files: seq<Path>,
                                  entries: seq<ManifestEntry>)
    requires IsFileList(tree, files) && Faithful(v, tree) && PassesCaught(h, v, map[], ops)
    ensures IsBuilt(entries, h, Run(h, map[], ops), tree, tree, files) <==> IsHashManifest(entries, h, tree, files)
  {
    RunKeepsSound(h, v, map[], ops);
    CacheRefinesHash(h, v, Run(h, map[], ops), tree, tree, files, entries);
  }

  // ---------------------------------------------------------------------------------------------
  // Files that cannot be read
  // ---------------------------------------------------------------------------------------------

  /** Some file cannot be read, and every file that cannot has a row the pass trusts. */
  ghost predicate CacheHidesUnreadable(rows: Rows, tree: Tree, files: seq<Path>)
    requires IsFileList(tree, files)
  {
    && !AllReadable(tree, files)
    && forall i :: 0 <= i < |files| && !tree[files[i]].readable ==> Lookup(rows, tree, files[i]).Some?
  }

  /**
   From a sound index, uncancelled and on one tree, the cached pass and the uncached one come to the same,
   manifest or failure, exactly unless some file cannot be read and each such file has a trusted row: then
   the uncached pass fails and the cached one advertises it.
   */
  lemma PassesAgree(h: seq<Byte> -> Digest, v: Versions, rows: Rows, tree: Tree, files: seq<Path>,
                    cached: Result<seq<ManifestEntry>, ServeError>, hashed: Result<seq<ManifestEntry>, ServeError>)
    requires IsFileList(tree, files) && Sound(h, v, rows) && Faithful(v, tree)
    requires CachedOutcome(cached, h, rows, tree, tree, files) && HashOutcome(hashed, h, tree, files)
    ensures cached == hashed <==> !CacheHidesUnreadable(rows, tree, files)
    ensures CacheHidesUnreadable(rows, tree, files) ==> cached.Ok? && hashed == Err(Io)
  {
    if cached.Ok? && hashed.Ok? {
      CacheRefinesHash(h, v, rows, tree, tree, files, cached.value);
      assert cached.value == hashed.value;
    }
  }

  /** Such a file: read once, then made unreadable with its size and time unchanged. */
  lemma UnreadableFileIsAdvertised(h: seq<Byte> -> Digest, p: Path, content: seq<Byte>, mtime: nat)
    ensures var tree, later := map[p := File(content, mtime, true)], map[p := File(content, mtime, false)];
      CacheHidesUnreadable(Hashed(h, map[], tree, tree, [p]), later, [p])
  {
    assert [p][..0] == [];
    WrittenBlobParses(h, content);
  }

  // ---------------------------------------------------------------------------------------------
  // A file rewritten between stat and read
  // ---------------------------------------------------------------------------------------------

  /** A later file is back at the size the pass read and the time it statted. */
  predicate Rewound(tree: Tree, disk: Tree, later: Tree, p: Path)
    requires IsFile(tree, p) && OpensAsFile(disk, p) && IsFile(later, p)
  {
    |later[p].content| == |FileAt(disk, p).content| && later[p].mtime == tree[p].mtime
  }

  /**
   The row a pass leaves for a file rewritten under it corrects itself exactly as long as the file does
   not come back, with other addresses, at the size that was read and the time that was statted.
   */
  lemma RacedRowCorrectsItself(h: seq<Byte> -> Digest, rows: Rows, tree: Tree, disk: Tree, later: Tree, p: Path)
    requires IsFile(tree, p) && OpensAsFile(disk, p) && IsFile(later, p) && Lookup(rows, tree, p) == None
    ensures EntryOf(h, HashOne(h, rows, tree, disk, p), later, later, p) == HashedEntry(h, later, p)
       <==> (Rewound(tree, disk, later, p) ==> HashFile(h, later[p].content) == HashFile(h, FileAt(disk, p).content))
  {
    WrittenBlobParses(h, FileAt(disk, p).content);
  }

  /** A pass over the file as it was read is right; one over the old file put back serves the new one's address. */
  lemma RestoredFileServesOtherAddress(h: seq<Byte> -> Digest, p: Path, a: Byte, b: Byte, mtime: nat, mtime': nat)
    requires h([a]) != h([b])
    ensures var tree, disk := map[p := File([a], mtime, true)], map[p := File([b], mtime', true)];
      var rows := HashOne(h, map[], tree, disk, p);
      && EntryOf(h, rows, disk, disk, p) == HashedEntry(h, disk, p)
      && EntryOf(h, rows, tree, tree, p).chunks == [h([b])] && HashedEntry(h, tree, p).chunks == [h([a])]
  {
  }

  // ---------------------------------------------------------------------------------------------
  // A warm cache stays warm
  // ---------------------------------------------------------------------------------------------

  ghost predicate Warm(rows: Rows, tree: Tree, files: seq<Path>) {
    forall i :: 0 <= i < |files| ==> Lookup(rows, tree, files[i]).Some?
  }

  /** The files a pass has to read are exactly those listed without a trusted row. */
  lemma {:induction false} MissesAreUntrusted(rows: Rows, tree: Tree, files: seq<Path>, p: Path)
    ensures p in Misses(rows, tree, files) <==> p in files && Lookup(rows, tree, p) == None
  {
    if files != [] {
      var n := |files| - 1;
      MissesAreUntrusted(rows, tree, files[..n], p);
      assert files == files[..n] + [files[n]];
    }
  }

  lemma {:induction false} WarmReadsNothing(rows: Rows, tree: Tree, files: seq<Path>)
    ensures Warm(rows, tree, files) <==> Misses(rows, tree, files) == []
  {
    if files != [] {
      var n := |files| - 1;
      WarmReadsNothing(rows, tree, files[..n]);
      if Warm(rows, tree, files) {
        assert forall i :: 0 <= i < n ==> files[..n][i] == files[i];
      }
      if Misses(rows, tree, files) == [] {
        forall i | 0 <= i < |files|
          ensures Lookup(rows, tree, files[i]).Some?
        {
          if i < n {
            assert files[..n][i] == files[i];
          }
        }
      }
    }
  }

  /** What one operation on the unchanged tree does to the cached addresses of q, if it touches them. */
  datatype Touch = Caches | Forgets

  function Touches(tree: Tree, op: Op, q: Path): Option<Touch> {
    match op
    case Pass(_, _, walked) => if q in walked then Some(Caches) else None
    case Rescan(_, walked, since) => 
      if q in walked && IsFile(tree, q) && tree[q].mtime > since then Some(Forgets) else None
    case Event(_, event) =>
      if event == Removed(Some(q)) || event == Upserted(Some(q), false) then Some(Forgets) else None
    case Scan(_, _) => None
    case Reconcile(_, _) => None
  }

  function LastTouch(tree: Tree, ops: seq<Op>, q: Path): Option<Touch> {
    if ops == [] then None
    else
      var last := Touches(tree, ops[|ops| - 1], q);
      if last.Some? then last else LastTouch(tree, ops[..|ops| - 1], q)
  }

  /** Every operation meets the tree as it stands, and no file changes under a pass. */
  ghost predicate SameTree(tree: Tree, ops: seq<Op>) {
    forall k :: 0 <= k < |ops| ==> ops[k].tree == tree && (ops[k].Pass? ==> ops[k].disk == tree)
  }

  lemma HashOneWarms(h: seq<Byte> -> Digest, rows: Rows, tree: Tree, p: Path, q: Path)
    requires IsFile(tree, q)
    ensures Lookup(HashOne(h, rows, tree, tree, p), tree, q).Some? <==> p == q || Lookup(rows, tree, q).Some?
  {
    WrittenBlobParses(h, tree[q].content);
  }

  lemma {:induction false} HashedWarms(h: seq<Byte> -> Digest, rows: Rows, tree: Tree, walked: seq<Path>, q: Path)
    requires IsFile(tree, q)
    ensures Lookup(Hashed(h, rows, tree, tree, walked), tree, q).Some? <==> q in walked || Lookup(rows, tree, q).Some?
  {
    hide HashOne, Lookup;
    if walked != [] {
      var n := |walked| - 1;
      HashedWarms(h, rows, tree, walked[..n], q);
      HashOneWarms(h, Hashed(h, rows, tree, tree, walked[..n]), tree, walked[n], q);
      assert walked == walked[..n] + [walked[n]];
    }
  }

  lemma {:induction false} ScannedKeepsLookup(rows: Rows, tree: Tree, walked: seq<Path>, q: Path)
    ensures Lookup(Scanned(rows, tree, walked), tree, q) == Lookup(rows, tree, q)
  {
    if walked != [] {
      ScannedKeepsLookup(rows, tree, walked[..|walked| - 1], q);
    }
  }

  /** The fallback rescan forgets exactly the walked files newer than its bound. */
  lemma {:induction false} RescanForgetsNewer(rows: Rows, tree: Tree, walked: seq<Path>, since: nat, q: Path)
    ensures Lookup(Rescanned(rows, tree, walked, since), tree, q)
         == if q in walked && IsFile(tree, q) && tree[q].mtime > since then None else Lookup(rows, tree, q)
  {
    if walked != [] {
      RescanForgetsNewer(rows, tree, walked[..|walked| - 1], since, q);
    }
  }

  lemma EventLookup(rows: Rows, tree: Tree, event: FsEvent, q: Path)
    requires IsFile(tree, q)
    ensures Lookup(Applied(rows, tree, event), tree, q)
         == if event == Removed(Some(q)) || event == Upserted(Some(q), false) then None else Lookup(rows, tree, q)
  {
    hide ParseAddrBlob;
  }

  lemma StepLookup(h: seq<Byte> -> Digest, rows: Rows, tree: Tree, op: Op, q: Path)
    requires IsFile(tree, q) && op.tree == tree && (op.Pass? ==> op.disk == tree)
    ensures Lookup(Step(h, rows, op), tree, q).Some?
       <==> match Touches(tree, op, q)
            case None => Lookup(rows, tree, q).Some?
            case Some(touch) => touch.Caches?
  {
    hide Lookup, Scanned, Rescanned, Hashed, Applied;
    match op {
      case Scan(_, walked) => ScannedKeepsLookup(rows, tree, walked, q);
      case Reconcile(_, walked) =>
        ScannedKeepsLookup(rows, tree, walked, q);
        PruneKeepsLookup(Scanned(rows, tree, walked), tree, q);
      case Rescan(_, walked, since) => RescanForgetsNewer(rows, tree, walked, since, q);
      case Event(_, event) => EventLookup(rows, tree, event, q);
      case Pass(_, _, walked) => HashedWarms(h, rows, tree, walked, q);
    }
  }

  lemma PruneKeepsLookup(rows: Rows, tree: Tree, q: Path)
    requires IsFile(tree, q)
    ensures Lookup(OnlyFiles(rows, tree), tree, q) == Lookup(rows, tree, q)
  {
    hide ParseAddrBlob;
  }

  /**
   Over any operations at all on an unchanged tree, complete or cut short, a file's addresses are cached
   exactly when the last operation to touch them was a pass that walked it, or nothing touched them and
   they were cached before. A rescan that meets it as newer than its bound, and a removal or change
   event for it, are what makes the index forget them.
   */
  lemma {:induction false} CachedIffLastTouchCaches(h: seq<Byte> -> Digest, rows: Rows, tree: Tree, ops: seq<Op>,
                                                    q: Path)
    requires IsFile(tree, q) && SameTree(tree, ops)
    ensures Lookup(Run(h, rows, ops), tree, q).Some?
       <==> match LastTouch(tree, ops, q)
            case None => Lookup(rows, tree, q).Some?
            case Some(touch) => touch.Caches?
  {
    hide Lookup, Step, Touches;
    if ops != [] {
      CachedIffLastTouchCaches(h, rows, tree, ops[..|ops| - 1], q);
      StepLookup(h, Run(h, rows, ops[..|ops| - 1]), tree, ops[|ops| - 1], q);
    }
  }

  /**
   After one full pass and any operations on the unchanged tree, the next pass reads no file exactly when
   nothing made the index forget a file without a later pass over it.
   */
  lemma NextPassReadsNothing(h: seq<Byte> -> Digest, rows: Rows, tree: Tree, files: seq<Path>, ops: seq<Op>)
    requires IsFileList(tree, files) && SameTree(tree, ops)
    ensures Misses(Run(h, Hashed(h, rows, tree, tree, files), ops), tree, files) == []
       <==> forall i :: 0 <= i < |files| ==> LastTouch(tree, ops, files[i]) != Some(Forgets)
  {
    hide Lookup, Run, Hashed, LastTouch;
    var first := Hashed(h, rows, tree, tree, files);
    var after := Run(h, first, ops);
    forall i | 0 <= i < |files|
      ensures Lookup(after, tree, files[i]).Some? <==> LastTouch(tree, ops, files[i]) != Some(Forgets)
    {
      HashedWarms(h, rows, tree, files, files[i]);
      CachedIffLastTouchCaches(h, first, tree, ops, files[i]);
    }
    WarmReadsNothing(after, tree, files);
  }

  // ---------------------------------------------------------------------------------------------
  // Incremental equals rescan
  // ---------------------------------------------------------------------------------------------

  type Stat = (nat, nat)

  /** What a walk says of `p`, when `p` is a regular file. */
  function StatOf(tree: Tree, p: Path): Option<Stat> {
    if IsFile(tree, p) then Some((|tree[p].content|, tree[p].mtime)) else None
  }

  /** What a stat says of `p`, links followed, when it finds a regular file. */
  function StatThrough(tree: Tree, p: Path): Option<Stat> {
    if OpensAsFile(tree, p) then Some((|FileAt(tree, p).content|, FileAt(tree, p).mtime)) else None
  }

  /** A link to a regular file: there for a stat, not for a walk. */
  predicate LinkedFile(tree: Tree, p: Path) {
    OpensAsFile(tree, p) && !IsFile(tree, p)
  }

  /** A stat finds something other than a file: a directory, or no telling what. A change event keeps the row. */
  predicate Unindexable(tree: Tree, p: Path) {
    At(tree, p).Some? && !At(tree, p).value.File?
  }

  /** What the index says of `p`, leaving out the cached addresses. */
  function RowStat(rows: Rows, p: Path): Option<Stat> {
    if p in rows then Some((rows[p].size, rows[p].mtime)) else None
  }

  ghost predicate Agrees(rows: Rows, tree: Tree) {
    forall p :: RowStat(rows, p) == StatOf(tree, p)
  }

  lemma {:induction false} ScannedStat(rows: Rows, tree: Tree, walked: seq<Path>, p: Path)
    ensures RowStat(Scanned(rows, tree, walked), p)
         == if p in walked && IsFile(tree, p) then StatOf(tree, p) else RowStat(rows, p)
  {
    if walked != [] {
      ScannedStat(rows, tree, walked[..|walked| - 1], p);
    }
  }

  /** A complete reconcile leaves exactly the present files, but for rows it finds under links to files. */
  lemma ReconciledStat(rows: Rows, tree: Tree, walk: seq<Path>, p: Path)
    requires Covers(tree, walk)
    ensures RowStat(OnlyFiles(Scanned(rows, tree, walk), tree), p)
         == if LinkedFile(tree, p) then RowStat(rows, p) else StatOf(tree, p)
  {
    ScannedStat(rows, tree, walk, p);
  }

  /** So it brings the index into agreement with the tree exactly when no row stands under such a link. */
  lemma ReconcileAgrees(rows: Rows, tree: Tree, walk: seq<Path>, reconciled: Rows)
    requires Covers(tree, walk) && reconciled == OnlyFiles(Scanned(rows, tree, walk), tree)
    ensures Agrees(reconciled, tree) <==> forall p :: p in rows ==> !LinkedFile(tree, p)
  {
    forall p
      ensures RowStat(reconciled, p) == StatOf(tree, p) <==> !(p in rows && LinkedFile(tree, p))
    {
      hide OnlyFiles, Scanned;
      ReconciledStat(rows, tree, walk, p);
    }
  }

  /** A scan cut short deletes nothing, and leaves every row it did not reach as it was. */
  lemma {:induction false} CutShortDeletesNothing(rows: Rows, tree: Tree, walked: seq<Path>, p: Path)
    requires p in rows
    ensures p in Scanned(rows, tree, walked)
    ensures p !in walked ==> Scanned(rows, tree, walked)[p] == rows[p]
  {
    if walked != [] {
      CutShortDeletesNothing(rows, tree, walked[..|walked| - 1], p);
    }
  }

  lemma {:induction false} RescannedStat(rows: Rows, tree: Tree, walked: seq<Path>, since: nat, p: Path)
    ensures RowStat(Rescanned(rows, tree, walked, since), p)
         == if p in walked && IsFile(tree, p) && tree[p].mtime > since then StatOf(tree, p) else RowStat(rows, p)
  {
    if walked != [] {
      RescannedStat(rows, tree, walked[..|walked| - 1], since, p);
    }
  }

  /**
   The fallback rescan keeps the index in step exactly when every path that changed is now a file newer
   than its bound: it misses deletions, and files that come with an old time.
   */
  lemma RescanAgrees(rows: Rows, before: Tree, after: Tree, walk: seq<Path>, since: nat, rescanned: Rows)
    requires Agrees(rows, before) && Covers(after, walk) && rescanned == Rescanned(rows, after, walk, since)
    ensures Agrees(rescanned, after)
       <==> forall p :: StatOf(before, p) != StatOf(after, p) ==> IsFile(after, p) && after[p].mtime > since
  {
    forall p
      ensures RowStat(rescanned, p) == StatOf(after, p)
         <==> (StatOf(before, p) != StatOf(after, p) ==> IsFile(after, p) && after[p].mtime > since)
    {
      hide Rescanned;
      RescannedStat(rows, after, walk, since, p);
    }
  }

  /** An event, and the tree as it stands when the event is applied. */
  datatype Moment = Moment(tree: Tree, event: FsEvent)

  function AppliedAll(rows: Rows, moments: seq<Moment>): Rows {
    if moments == [] then rows
    else
      var last := moments[|moments| - 1];
      Applied(AppliedAll(rows, moments[..|moments| - 1]), last.tree, last.event)
  }

  /** An event acts on p unless its stat fails in passing, or finds something other than a file. */
  predicate ActsOn(m: Moment, p: Path) {
    m.event == Removed(Some(p)) || (m.event == Upserted(Some(p), false) && !Unindexable(m.tree, p))
  }

  function LastWord(moments: seq<Moment>, p: Path): Option<Moment> {
    if moments == [] then None
    else if ActsOn(moments[|moments| - 1], p) then Some(moments[|moments| - 1])
    else LastWord(moments[..|moments| - 1], p)
  }

  /** What p's row says once events have been applied to rows that agreed with `before`. */
  function Followed(before: Tree, moments: seq<Moment>, p: Path): Option<Stat> {
    match LastWord(moments, p)
    case None => StatOf(before, p)
    case Some(m) => if m.event.Removed? then None else StatThrough(m.tree, p)
  }

  /** A row after any events, the tree moving on between them, is what the last one to act on its path saw. */
  lemma {:induction false} EventsStat(rows: Rows, before: Tree, moments: seq<Moment>, p: Path)
    requires Agrees(rows, before)
    ensures RowStat(AppliedAll(rows, moments), p) == Followed(before, moments, p)
  {
    hide Agrees;
    if moments == [] {
      AgreesAt(rows, before, p);
    } else {
      EventsStat(rows, before, moments[..|moments| - 1], p);
    }
  }

  lemma AgreesAt(rows: Rows, tree: Tree, p: Path)
    requires Agrees(rows, tree)
    ensures RowStat(rows, p) == StatOf(tree, p)
  {
  }

  ghost predicate Names(e: FsEvent, p: Path) {
    e == Upserted(Some(p), false) || e == Removed(Some(p))
  }

  /** From moment i on, an event for p finds what stands there in the end. */
  ghost predicate Settled(moments: seq<Moment>, after: Tree, p: Path, i: nat) {
    forall j :: i <= j < |moments| && Names(moments[j].event, p) ==> At(moments[j].tree, p) == At(after, p)
  }

  /** Some event names p once it has settled; or p is as it was, and no event finds it otherwise. */
  ghost predicate Reported(before: Tree, moments: seq<Moment>, after: Tree, p: Path) {
    || (exists i :: 0 <= i < |moments| && Names(moments[i].event, p) && Settled(moments, after, p, i))
    || (StatOf(before, p) == StatOf(after, p) && Settled(moments, after, p, 0))
  }

  /** What the last event to act on a settled and reported path saw. */
  lemma {:induction false} LastWordIsSettled(moments: seq<Moment>, after: Tree, p: Path, i: nat)
    requires i < |moments| && Settled(moments, after, p, i)
    requires Names(moments[i].event, p) && ActsOn(moments[i], p)
    ensures LastWord(moments, p).Some?
    ensures var m := LastWord(moments, p).value; Names(m.event, p) && At(m.tree, p) == At(after, p)
  {
    if i < |moments| - 1 {
      var n, front := |moments| - 1, moments[..|moments| - 1];
      if !ActsOn(moments[n], p) {
        assert front[i] == moments[i] && forall j :: 0 <= j < n ==> front[j] == moments[j];
        LastWordIsSettled(front, after, p, i);
      }
    }
  }

  lemma {:induction false} LastWordFromStart(moments: seq<Moment>, after: Tree, p: Path)
    requires Settled(moments, after, p, 0)
    ensures LastWord(moments, p).Some? ==>
              var m := LastWord(moments, p).value;
              Names(m.event, p) && At(m.tree, p) == At(after, p)
  {
    if moments != [] {
      var n, front := |moments| - 1, moments[..|moments| - 1];
      assert forall j :: 0 <= j < n ==> front[j] == moments[j];
      LastWordFromStart(front, after, p);
    }
  }

  /** No file in the end, but not missing either, and the row of a file is left: its change event does not act. */
  ghost predicate LeftBehind(before: Tree, moments: seq<Moment>, after: Tree, p: Path) {
    Unindexable(after, p) && Followed(before, moments, p).Some?
  }

  /** A file is there, but the last event to act on it was a removal. */
  ghost predicate RemovedTooLate(moments: seq<Moment>, after: Tree, p: Path) {
    IsFile(after, p) && LastWord(moments, p).Some? && LastWord(moments, p).value.event.Removed?
  }

  /**
   A link to a file: an event goes through it where the walk passes over it and the prune lets the row
   stand that it finds. They part when a change event brings in a stat that was not there before, and
   when a removal takes out the row of the file whose place the link has taken.
   */
  ghost predicate PartedByLink(before: Tree, moments: seq<Moment>, after: Tree, p: Path) {
    && LinkedFile(after, p) && LastWord(moments, p).Some?
    && if LastWord(moments, p).value.event.Removed? then IsFile(before, p)
       else StatThrough(after, p) != StatOf(before, p)
  }

  /** The two ways of following a change leave the same row for p. */
  ghost predicate SameRow(incremental: Rows, rescanned: Rows, p: Path) {
    RowStat(incremental, p) == RowStat(rescanned, p)
  }

  lemma FollowedOrParted(before: Tree, moments: seq<Moment>, after: Tree, p: Path)
    requires Reported(before, moments, after, p)
    ensures Followed(before, moments, p) == (if LinkedFile(after, p) then StatOf(before, p) else StatOf(after, p))
       <==> && !LeftBehind(before, moments, after, p) && !RemovedTooLate(moments, after, p)
            && !PartedByLink(before, moments, after, p)
  {
    hide LastWord;
    if exists i :: 0 <= i < |moments| && Names(moments[i].event, p) && Settled(moments, after, p, i) {
      var i :| 0 <= i < |moments| && Names(moments[i].event, p) && Settled(moments, after, p, i);
      assert At(moments[i].tree, p) == At(after, p);
      if ActsOn(moments[i], p) {
        LastWordIsSettled(moments, after, p, i);
      }
    } else {
      LastWordFromStart(moments, after, p);
    }
  }

  /**
   Incremental equals rescan. From an index in agreement with one tree, through any events while the tree
   moves on, in any order, with repeats, failed stats and paths outside the root, every path that changed
   being named once more when it has settled: the rows are those a reconcile of the final tree leaves,
   exactly when no file's row is left where a stat now finds a directory or fails, no removal comes last
   for a file that is there, and no event goes through a link to a file that the walk passes over.
   */
  lemma IncrementalEqualsRescan(rows: Rows, before: Tree, moments: seq<Moment>, after: Tree, walk: seq<Path>,
                                incremental: Rows, rescanned: Rows)
    requires Agrees(rows, before) && Covers(after, walk) && forall p :: Reported(before, moments, after, p)
    requires incremental == AppliedAll(rows, moments)
    requires rescanned == OnlyFiles(Scanned(rows, after, walk), after)
    ensures (forall p :: SameRow(incremental, rescanned, p))
       <==> (forall p :: && !LeftBehind(before, moments, after, p) && !RemovedTooLate(moments, after, p)
                         && !PartedByLink(before, moments, after, p))
  {
    forall p
      ensures SameRow(incremental, rescanned, p)
         <==> && !LeftBehind(before, moments, after, p) && !RemovedTooLate(moments, after, p)
              && !PartedByLink(before, moments, after, p)
    {
      hide AppliedAll, Scanned, OnlyFiles, LastWord, Followed, Reported, Agrees;
      hide LeftBehind, RemovedTooLate, PartedByLink;
      ReconciledStat(rows, after, walk, p);
      EventsStat(rows, before, moments, p);
      AgreesAt(rows, before, p);
      assert Reported(before, moments, after, p);
      FollowedOrParted(before, moments, after, p);
    }
  }

  /** Change events alone never bring about the second exception. */
  lemma {:induction false} ChangesAloneNeverDrop(moments: seq<Moment>, after: Tree, p: Path)
    requires forall k :: 0 <= k < |moments| ==> moments[k].event.Upserted?
    ensures !RemovedTooLate(moments, after, p)
  {
    if moments != [] {
      ChangesAloneNeverDrop(moments[..|moments| - 1], after, p);
    }
  }

  /** Every event comes after the change, and none is a removal. */
  ghost predicate ChangesAfterwards(moments: seq<Moment>, after: Tree) {
    forall k :: 0 <= k < |moments| ==> moments[k].tree == after && moments[k].event.Upserted?
  }

  /** No path of the tree is a link. */
  ghost predicate LinkFree(tree: Tree) {
    forall p :: p in tree ==> !tree[p].Link?
  }

  /**
   A file of the old tree whose path is neither a file nor missing in the new one: it gave way to a
   directory, or the directory above it gave way to a file.
   */
  ghost predicate GaveWay(before: Tree, after: Tree, p: Path) {
    IsFile(before, p) && Unindexable(after, p)
  }

  lemma {:induction false} LastWordAfterwards(moments: seq<Moment>, after: Tree, p: Path)
    requires ChangesAfterwards(moments, after)
    ensures LastWord(moments, p).Some? ==>
              var m := LastWord(moments, p).value;
              !m.event.Removed? && m.tree == after && !Unindexable(after, p)
  {
    if moments != [] {
      LastWordAfterwards(moments[..|moments| - 1], after, p);
    }
  }

  /**
   In particular change events alone, applied after the change to a tree without links, one or more for
   every changed path and in any order, agree with a reconcile exactly when no file gave way to a
   directory of the same name, nor a directory above a file to a file.
   */
  lemma ChangeEventsEqualRescan(rows: Rows, before: Tree, moments: seq<Moment>, after: Tree, walk: seq<Path>,
                                incremental: Rows, rescanned: Rows)
    requires Agrees(rows, before) && Covers(after, walk) && ChangesAfterwards(moments, after) && LinkFree(after)
    requires forall p :: StatOf(before, p) != StatOf(after, p) ==> Moment(after, Upserted(Some(p), false)) in moments
    requires incremental == AppliedAll(rows, moments)
    requires rescanned == OnlyFiles(Scanned(rows, after, walk), after)
    ensures (forall p :: SameRow(incremental, rescanned, p)) <==> (forall p :: !GaveWay(before, after, p))
  {
    forall p
      ensures Reported(before, moments, after, p)
    {
      hide StatOf, At;
      if StatOf(before, p) != StatOf(after, p) {
        var i :| 0 <= i < |moments| && moments[i] == Moment(after, Upserted(Some(p), false));
        assert Names(moments[i].event, p) && Settled(moments, after, p, i);
      } else {
        assert Settled(moments, after, p, 0);
      }
    }
    IncrementalEqualsRescan(rows, before, moments, after, walk, incremental, rescanned);
    forall p
      ensures (LeftBehind(before, moments, after, p) <==> GaveWay(before, after, p))
              && !RemovedTooLate(moments, after, p) && !PartedByLink(before, moments, after, p)
    {
      hide LastWord;
      LastWordAfterwards(moments, after, p);
    }
  }

  /** The smallest case of the first exception: the change event for the new directory does not act. */
  lemma DirectoryLeavesStaleRow(p: Path, content: seq<Byte>, mtime: nat)
    ensures var before, after := map[p := File(content, mtime, true)], map[p := Directory];
      var rows := Scanned(map[], before, [p]);
      && p in AppliedAll(rows, [Moment(after, Upserted(Some(p), false))])
      && p !in OnlyFiles(Scanned(rows, after, [p]), after)
  {
  }

  /** Another: the directory above a file gives way to a file, and the stat of the path below it fails. */
  lemma FileLeavesStaleRowBelow(d: Path, name: Path, content: seq<Byte>, mtime: nat, content': seq<Byte>, mtime': nat)
    requires |d| > 0 && |name| > 0
    ensures var p := d + [SEPARATOR] + name;
      var before, after := map[p := File(content, mtime, true)], map[d := File(content', mtime', true)];
      var rows := Scanned(map[], before, [p]);
      var events := [Moment(after, Upserted(Some(p), false)), Moment(after, Upserted(Some(d), false))];
      && GaveWay(before, after, p)
      && p in AppliedAll(rows, events) && d in AppliedAll(rows, events)
      && p !in OnlyFiles(Scanned(rows, after, [d]), after)
  {
    var p := d + [SEPARATOR] + name;
    var before, after := map[p := File(content, mtime, true)], map[d := File(content', mtime', true)];
    var rows := Scanned(map[], before, [p]);
    OneScan(map[], before, p);
    assert p[|d|] == SEPARATOR && p[..|d|] == d && p != d;
    assert Blocked(after, p) && At(after, p) == Some(Unstattable);
    var first, both := [Moment(after, Upserted(Some(p), false))],
                       [Moment(after, Upserted(Some(p), false)), Moment(after, Upserted(Some(d), false))];
    OneEvent(rows, first[0]);
    assert both[..1] == first;
  }

  lemma OneScan(rows: Rows, tree: Tree, p: Path)
    ensures Scanned(rows, tree, [p]) == ScanOne(rows, tree, p)
  {
    assert [p][..0] == [];
  }

  lemma OneEvent(rows: Rows, m: Moment)
    ensures AppliedAll(rows, [m]) == Applied(rows, m.tree, m.event)
  {
    assert [m][..0] == [];
  }

  /** And of the last: a file gives way to a link, and the reconcile keeps the row of the file that is gone. */
  lemma LinkKeepsStaleRow(p: Path, content: seq<Byte>, target: seq<Byte>, mtime: nat)
    requires |content| != |target|
    ensures var before, after := map[p := File(content, mtime, true)], map[p := Link(Some(File(target, mtime, true)))];
      var rows := Scanned(map[], before, [p]);
      && p !in AppliedAll(rows, [Moment(after, Removed(Some(p)))])
      && RowStat(AppliedAll(rows, [Moment(after, Upserted(Some(p), false))]), p) == Some((|target|, mtime))
      && RowStat(OnlyFiles(Scanned(rows, after, [p]), after), p) == Some((|content|, mtime))
      && p !in OnlyFiles(Scanned(map[], after, [p]), after)
  {
    var before, after := map[p := File(content, mtime, true)], map[p := Link(Some(File(target, mtime, true)))];
    var rows := Scanned(map[], before, [p]);
    var linked := File(target, mtime, true);
    OneScan(map[], before, p);
    assert rows == map[p := ShareEntry(|content|, mtime, None)];
    assert Through(linked) == Some(linked) && Through(Link(Some(linked))) == Some(linked);
    OneEvent(rows, Moment(after, Removed(Some(p))));
    OneEvent(rows, Moment(after, Upserted(Some(p), false)));
    assert Covers(after, [p]);
    ReconciledStat(rows, after, [p], p);
    ReconciledStat(map[], after, [p], p);
  }
}

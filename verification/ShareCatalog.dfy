/**
 The share catalog of crates/daemonseed-core/src/share_catalog.rs: announcements read off a
 world-writable record fold into a map from share id to row.
 */
module ShareCatalog {
  import opened Wrappers
  import opened Bytes
  import opened Clock
  import opened ShareId

  datatype DiscoveredShare = DiscoveredShare(
    shareId: Blob, name: Blob, rating: Blob, senderHandle: Blob, senderPubkey: Blob,
    announcedUnixMs: int, receivedAt: int)

  datatype CatalogChange = Added | Updated | Removed | Unchanged

  type Entries = map<Blob, DiscoveredShare>

  function RowOf(ann: Announcement, now: int): DiscoveredShare {
    DiscoveredShare(ann.shareId, ann.name, ann.rating, ann.senderHandle, ann.senderPubkey, ann.sentUnixMs, now)
  }

  /**
   What a row may yield to: nothing from another key and nothing older. This is the whole of the
   announce and withdraw logic; an identical re-read differs only in what it reports.
   */
  predicate Yields(row: DiscoveredShare, ann: Announcement) {
    ann.senderPubkey == row.senderPubkey && ann.sentUnixMs >= row.announcedUnixMs
  }

  function Folded(entries: Entries, ann: Announcement, now: int): Entries {
    var id := ann.shareId;
    if id in entries && !Yields(entries[id], ann) then entries
    else if ann.withdraw then entries - {id}
    else entries[id := RowOf(ann, now)]
  }

  function Verified(sha384: seq<Byte> -> Digest, entries: Entries, ann: Announcement, now: int): Entries {
    if ShareBindingIsValid(sha384, ann) then Folded(entries, ann, now) else entries
  }

  function Pruned(entries: Entries, now: int, ttl: int): Entries {
    map id | id in entries && !Expired(entries[id].receivedAt, now, ttl) :: entries[id]
  }

  function Reconciled(entries: Entries, pk: Blob, live: seq<Blob>, now: int): Entries {
    map id | id in entries && (entries[id].senderPubkey == pk ==> id in live) ::
      if entries[id].senderPubkey == pk then entries[id].(receivedAt := now) else entries[id]
  }

  /** The rows of `pk` named in `live`, re-stamped. */
  function Refreshed(rows: Entries, pk: Blob, live: seq<Blob>, now: int): Entries {
    map id | id in rows ::
      if rows[id].senderPubkey == pk && id in live then rows[id].(receivedAt := now) else rows[id]
  }

  lemma RefreshedSnoc(rows: Entries, pk: Blob, live: seq<Blob>, i: nat, now: int)
    requires i < |live|
    ensures var before, id := Refreshed(rows, pk, live[..i], now), live[i];
      Refreshed(rows, pk, live[..i + 1], now)
        == if id in before && before[id].senderPubkey == pk
           then before[id := before[id].(receivedAt := now)]
           else before
  {
  }

  function SharerPruned(entries: Entries, pk: Blob): Entries {
    map id | id in entries && entries[id].senderPubkey != pk :: entries[id]
  }

  /** Every row is filed under its own id. */
  ghost predicate Filed(entries: Entries) {
    forall id :: id in entries ==> entries[id].shareId == id
  }

  class Catalog {
    var entries: Entries
    const ttl: int

    ghost predicate Valid()
      reads this
    {
      Filed(entries)
    }

    constructor (ttl: int)
      ensures Valid() && entries == map[] && this.ttl == ttl
    {
      entries := map[];
      this.ttl := ttl;
    }

    /** The ingest gate: nothing folds unless the id derives from the announcement's own key. */
    method ApplyVerified(sha384: seq<Byte> -> Digest, ann: Announcement, now: int) returns (change: CatalogChange)
      requires Valid()
      modifies this
      ensures Valid()
      ensures entries == Verified(sha384, old(entries), ann, now)
      ensures change == Added <==> ann.shareId !in old(entries) && ann.shareId in entries
      ensures change == Removed <==> ann.shareId in old(entries) && ann.shareId !in entries
      ensures change == Updated <==>
                && ann.shareId in old(entries) && ann.shareId in entries
                && entries[ann.shareId] != old(entries)[ann.shareId].(receivedAt := entries[ann.shareId].receivedAt)
    {
      if !ShareBindingIsValid(sha384, ann) {
        return Unchanged;
      }
      change := Apply(ann, now);
    }

    method Apply(ann: Announcement, now: int) returns (change: CatalogChange)
      requires Valid()
      modifies this
      ensures Valid()
      ensures entries == Folded(old(entries), ann, now)
      ensures change == Added <==> ann.shareId !in old(entries) && ann.shareId in entries
      ensures change == Removed <==> ann.shareId in old(entries) && ann.shareId !in entries
      ensures change == Updated <==>
                && ann.shareId in old(entries) && ann.shareId in entries
                && entries[ann.shareId] != old(entries)[ann.shareId].(receivedAt := entries[ann.shareId].receivedAt)
    {
      var id := ann.shareId;
      if id !in entries {
        if ann.withdraw {
          return Unchanged;
        }
        entries := entries[id := RowOf(ann, now)];
        return Added;
      }
      var cur := entries[id];
      if ann.senderPubkey != cur.senderPubkey || ann.sentUnixMs < cur.announcedUnixMs {
        return Unchanged;
      }
      if ann.withdraw {
        entries := entries - {id};
        return Removed;
      }
      if ann.sentUnixMs == cur.announcedUnixMs && ann.name == cur.name && ann.rating == cur.rating
         && ann.senderHandle == cur.senderHandle {
        entries := entries[id := cur.(receivedAt := now)];
        return Unchanged;
      }
      entries := entries[id := cur.(name := ann.name, rating := ann.rating, senderHandle := ann.senderHandle,
                                    senderPubkey := ann.senderPubkey, announcedUnixMs := ann.sentUnixMs,
                                    receivedAt := now)];
      change := Updated;
    }

    method Prune(now: int) returns (count: nat)
      requires Valid()
      modifies this
      ensures Valid()
      ensures entries == Pruned(old(entries), now, ttl)
      ensures count == |old(entries)| - |entries|
    {
      var before := |entries|;
      ghost var was := entries.Keys;
      entries := map id | id in entries && !Expired(entries[id].receivedAt, now, ttl) :: entries[id];
      SubsetCount(entries.Keys, was);
      count := before - |entries|;
    }

    method Remove(id: Blob) returns (present: bool)
      requires Valid()
      modifies this
      ensures Valid()
      ensures entries == old(entries) - {id} && (present <==> id in old(entries))
    {
      present := id in entries;
      entries := entries - {id};
    }

    /** Keep and refresh the rows of `pk` named in `live`, drop its other rows; say whether any went. */
    method ReconcileSharer(pk: Blob, live: seq<Blob>, now: int) returns (removed: bool)
      requires Valid()
      modifies this
      ensures Valid()
      ensures entries == Reconciled(old(entries), pk, live, now)
      ensures removed <==> entries.Keys != old(entries).Keys
    {
      removed := exists id | id in entries :: entries[id].senderPubkey == pk && id !in live;
      var kept := map id | id in entries && (entries[id].senderPubkey == pk ==> id in live) :: entries[id];
      var rows := kept;
      for i := 0 to |live|
        invariant rows == Refreshed(kept, pk, live[..i], now)
      {
        var id := live[i];
        RefreshedSnoc(kept, pk, live, i, now);
        if id in rows && rows[id].senderPubkey == pk {
          rows := rows[id := rows[id].(receivedAt := now)];
        }
      }
      assert live[..|live|] == live;
      entries := rows;
    }

    method PruneSharer(pk: Blob) returns (count: nat)
      requires Valid()
      modifies this
      ensures Valid()
      ensures entries == SharerPruned(old(entries), pk)
      ensures count == |old(entries)| - |entries|
    {
      var before := |entries|;
      ghost var was := entries.Keys;
      entries := map id | id in entries && entries[id].senderPubkey != pk :: entries[id];
      SubsetCount(entries.Keys, was);
      count := before - |entries|;
    }
  }

  lemma SubsetCount<T>(a: set<T>, b: set<T>)
    requires a <= b
    ensures |a| <= |b|
  {
    assert b == a + (b - a);
  }

  // ---------------------------------------------------------------------------------------------
  // Non-interference
  // ---------------------------------------------------------------------------------------------

  datatype Event =
    | Announced(ann: Announcement, now: int)
    | TtlPrune(now: int)
    | FetchFailed(id: Blob)
    | Digest(pk: Blob, live: seq<Blob>, now: int)
    | Lapsed(pk: Blob)
  {
    /** The identity whose message caused the event; the receiver's own timers have none. */
    function Author(): Option<Blob> {
      match this
      case Announced(ann, _) => Some(ann.senderPubkey)
      case Digest(pk, _, _) => Some(pk)
      case Lapsed(pk) => Some(pk)
      case TtlPrune(_) => None
      case FetchFailed(_) => None
    }

    predicate Foreign(p: Blob) {
      Author().Some? && Author().value != p
    }
  }

  /** A receiver's hash function and TTL. */
  datatype Config = Config(sha384: seq<Byte> -> Bytes.Digest, ttl: int)

  function Step(c: Config, entries: Entries, e: Event): Entries {
    match e
    case Announced(ann, now) => Verified(c.sha384, entries, ann, now)
    case TtlPrune(now) => Pruned(entries, now, c.ttl)
    case FetchFailed(id) => entries - {id}
    case Digest(pk, live, now) => Reconciled(entries, pk, live, now)
    case Lapsed(pk) => SharerPruned(entries, pk)
  }

  function Run(c: Config, entries: Entries, evs: seq<Event>): Entries
    decreases |evs|
  {
    if evs == [] then entries else Run(c, Step(c, entries, evs[0]), evs[1..])
  }

  /** The rows of one identity. */
  function Owned(entries: Entries, p: Blob): Entries {
    map id | id in entries && entries[id].senderPubkey == p :: entries[id]
  }

  /** The run with every other identity's events deleted. */
  function OnlyOf(evs: seq<Event>, p: Blob): seq<Event> {
    if evs == [] then []
    else if evs[0].Foreign(p) then OnlyOf(evs[1..], p)
    else [evs[0]] + OnlyOf(evs[1..], p)
  }

  ghost predicate BoundAnnouncement(c: Config, e: Event) {
    e.Announced? && ShareBindingIsValid(c.sha384, e.ann)
  }

  /** The hash inputs behind the ids a run announces with a valid binding. */
  ghost function IdInputs(c: Config, evs: seq<Event>): set<seq<Byte>> {
    set k | 0 <= k < |evs| && BoundAnnouncement(c, evs[k]) ::
      ShareIdInput(evs[k].ann.senderPubkey, evs[k].ann.rootCommitment)
  }

  /** No two bound announcements of the run put different keys behind one id. */
  ghost predicate OneKeyPerId(c: Config, evs: seq<Event>) {
    forall i, j :: 0 <= i < |evs| && 0 <= j < |evs| && BoundAnnouncement(c, evs[i]) && BoundAnnouncement(c, evs[j])
        && evs[i].ann.shareId == evs[j].ann.shareId
      ==> evs[i].ann.senderPubkey == evs[j].ann.senderPubkey
  }

  /** The length prefixes and a digest that does not collide on this run make ids single-owner. */
  lemma BindingGivesOneKeyPerId(c: Config, evs: seq<Event>)
    requires CollisionFree(c.sha384, IdInputs(c, evs))
    ensures OneKeyPerId(c, evs)
  {
    forall i, j | 0 <= i < |evs| && 0 <= j < |evs| && BoundAnnouncement(c, evs[i]) && BoundAnnouncement(c, evs[j])
        && evs[i].ann.shareId == evs[j].ann.shareId
      ensures evs[i].ann.senderPubkey == evs[j].ann.senderPubkey
    {
      var a, b := evs[i].ann, evs[j].ann;
      assert ShareIdInput(a.senderPubkey, a.rootCommitment) in IdInputs(c, evs);
      assert ShareIdInput(b.senderPubkey, b.rootCommitment) in IdInputs(c, evs);
      BindingNamesPublisher(c.sha384, a, b);
    }
  }

  /** Each row's key agrees with every bound announcement of its id still to come. */
  ghost predicate KeysAgree(c: Config, entries: Entries, evs: seq<Event>) {
    forall id, k :: id in entries && 0 <= k < |evs| && BoundAnnouncement(c, evs[k]) && evs[k].ann.shareId == id ==>
      evs[k].ann.senderPubkey == entries[id].senderPubkey
  }

  lemma KeysAgreeStep(c: Config, entries: Entries, evs: seq<Event>)
    requires evs != [] && OneKeyPerId(c, evs) && KeysAgree(c, entries, evs)
    ensures OneKeyPerId(c, evs[1..]) && KeysAgree(c, Step(c, entries, evs[0]), evs[1..])
  {
    var rest, after := evs[1..], Step(c, entries, evs[0]);
    assert forall k :: 0 <= k < |rest| ==> rest[k] == evs[k + 1];
    forall id, k | id in after && 0 <= k < |rest| && BoundAnnouncement(c, rest[k]) && rest[k].ann.shareId == id
      ensures rest[k].ann.senderPubkey == after[id].senderPubkey
    {
      assert rest[k] == evs[k + 1];
      if id in entries && after[id].senderPubkey == entries[id].senderPubkey {
      } else {
        assert BoundAnnouncement(c, evs[0]) && evs[0].ann.shareId == id;
      }
    }
  }

  /** Another identity's announcement, withdraw, digest or lapse leaves the rows of p untouched. */
  lemma ForeignStepInert(c: Config, entries: Entries, evs: seq<Event>, p: Blob)
    requires evs != [] && KeysAgree(c, entries, evs) && evs[0].Foreign(p)
    ensures Owned(Step(c, entries, evs[0]), p) == Owned(entries, p)
  {
    var e, after := evs[0], Step(c, entries, evs[0]);
    if BoundAnnouncement(c, e) {
      assert e.ann.shareId in entries ==> entries[e.ann.shareId].senderPubkey != p;
    }
    assert forall id :: id in Owned(after, p) <==> id in Owned(entries, p);
  }

  /** Any other event acts on the rows of p as if they were all there is. */
  lemma OwnStepLocal(c: Config, entries: Entries, evs: seq<Event>, p: Blob)
    requires evs != [] && KeysAgree(c, entries, evs) && !evs[0].Foreign(p)
    ensures Owned(Step(c, entries, evs[0]), p) == Step(c, Owned(entries, p), evs[0])
  {
    var e := evs[0];
    var left, right := Owned(Step(c, entries, e), p), Step(c, Owned(entries, p), e);
    if BoundAnnouncement(c, e) {
      assert e.ann.shareId in entries ==> entries[e.ann.shareId].senderPubkey == p;
    }
    assert forall id :: id in left <==> id in right;
    assert forall id :: id in left ==> left[id] == right[id];
  }

  lemma {:induction false} OwnedRun(c: Config, entries: Entries, evs: seq<Event>, p: Blob)
    requires OneKeyPerId(c, evs) && KeysAgree(c, entries, evs)
    ensures Owned(Run(c, entries, evs), p) == Run(c, Owned(entries, p), OnlyOf(evs, p))
    decreases |evs|
  {
    if evs != [] {
      KeysAgreeStep(c, entries, evs);
      OwnedRun(c, Step(c, entries, evs[0]), evs[1..], p);
      if evs[0].Foreign(p) {
        ForeignStepInert(c, entries, evs, p);
      } else {
        OwnStepLocal(c, entries, evs, p);
        assert OnlyOf(evs, p)[1..] == OnlyOf(evs[1..], p);
      }
    }
  }

  /**
   Non-interference. Over a run whose id inputs do not collide, the rows owned by p are exactly the
   catalog of the run with every other identity's events deleted: whatever the others announce,
   withdraw, list or let lapse, before or after p's rows are pruned and added again.
   */
  lemma NonInterference(c: Config, evs: seq<Event>, p: Blob)
    requires CollisionFree(c.sha384, IdInputs(c, evs))
    ensures Owned(Run(c, map[], evs), p) == Run(c, map[], OnlyOf(evs, p))
  {
    BindingGivesOneKeyPerId(c, evs);
    OwnedRun(c, map[], evs, p);
    assert Owned(map[], p) == map[];
  }

  /** A bound announcement or withdraw of the row's id under the row's key. */
  ghost predicate ReannouncedAs(c: Config, e: Event, row: DiscoveredShare) {
    BoundAnnouncement(c, e) && e.ann.shareId == row.shareId && e.ann.senderPubkey == row.senderPubkey
  }

  /** An event lists a row afresh, or leaves it showing what it showed, having announced nothing as new. */
  lemma StepShows(c: Config, entries: Entries, e: Event, id: Blob)
    requires Filed(entries) && id in Step(c, entries, e)
    ensures Filed(Step(c, entries, e))
    ensures var row := Step(c, entries, e)[id];
      || (BoundAnnouncement(c, e) && !e.ann.withdraw && row == RowOf(e.ann, row.receivedAt))
      || (&& id in entries && row == entries[id].(receivedAt := row.receivedAt)
          && (ReannouncedAs(c, e, row) ==> e.ann.sentUnixMs < row.announcedUnixMs))
  {
    hide DeriveShareIdV2;
  }

  /** The row and the announcement say the same, field by field. */
  ghost predicate SaysTheSame(row: DiscoveredShare, ann: Announcement) {
    && row.shareId == ann.shareId && row.name == ann.name && row.rating == ann.rating
    && row.senderHandle == ann.senderHandle && row.senderPubkey == ann.senderPubkey
    && row.announcedUnixMs == ann.sentUnixMs
  }

  /** The row is what announcement j says, and its owner has announced nothing as new for it since. */
  ghost predicate Shows(c: Config, evs: seq<Event>, k: nat, j: int, row: DiscoveredShare)
    requires k <= |evs|
  {
    && 0 <= j < k && BoundAnnouncement(c, evs[j]) && !evs[j].ann.withdraw
    && SaysTheSame(row, evs[j].ann)
    && forall m :: j < m < k && ReannouncedAs(c, evs[m], row) ==> evs[m].ann.sentUnixMs < row.announcedUnixMs
  }

  /** Every row listed after k events shows the newest announcement its own publisher has made since it was listed. */
  lemma {:induction false} RowsWereAnnounced(c: Config, evs: seq<Event>, k: nat, id: Blob)
    requires k <= |evs| && id in Run(c, map[], evs[..k])
    ensures Run(c, map[], evs[..k])[id].shareId == id
    ensures exists j :: Shows(c, evs, k, j, Run(c, map[], evs[..k])[id])
  {
    hide Step, ShareBindingIsValid;
    if k > 0 {
      var before, e := Run(c, map[], evs[..k - 1]), evs[k - 1];
      RunSnoc(c, map[], evs[..k]);
      assert evs[..k][..k - 1] == evs[..k - 1];
      var row := Step(c, before, e)[id];
      RunKeepsFiled(c, map[], evs[..k - 1]);
      StepShows(c, before, e, id);
      if BoundAnnouncement(c, e) && !e.ann.withdraw && row == RowOf(e.ann, row.receivedAt) {
        assert Shows(c, evs, k, k - 1, row);
      } else {
        RowsWereAnnounced(c, evs, k - 1, id);
        var j :| Shows(c, evs, k - 1, j, before[id]);
        assert Shows(c, evs, k, j, row);
      }
    }
  }

  lemma {:induction false} RunKeepsFiled(c: Config, entries: Entries, evs: seq<Event>)
    requires Filed(entries)
    ensures Filed(Run(c, entries, evs))
    decreases |evs|
  {
    if evs != [] {
      RunKeepsFiled(c, Step(c, entries, evs[0]), evs[1..]);
    }
  }

  lemma {:induction false} RunSnoc(c: Config, entries: Entries, evs: seq<Event>)
    requires evs != []
    ensures Run(c, entries, evs) == Step(c, Run(c, entries, evs[..|evs| - 1]), evs[|evs| - 1])
    decreases |evs|
  {
    if |evs| > 1 {
      RunSnoc(c, Step(c, entries, evs[0]), evs[1..]);
      assert evs[1..][..|evs| - 2] == evs[..|evs| - 1][1..];
    }
  }

  /** No id ever changes owner: rows of one id at any two moments of a run carry the same key. */
  lemma OwnerNeverChanges(c: Config, evs: seq<Event>, i: nat, j: nat, id: Blob)
    requires i <= |evs| && j <= |evs| && CollisionFree(c.sha384, IdInputs(c, evs))
    requires id in Run(c, map[], evs[..i]) && id in Run(c, map[], evs[..j])
    ensures Run(c, map[], evs[..i])[id].senderPubkey == Run(c, map[], evs[..j])[id].senderPubkey
  {
    BindingGivesOneKeyPerId(c, evs);
    RowsWereAnnounced(c, evs, i, id);
    RowsWereAnnounced(c, evs, j, id);
  }

  // ---------------------------------------------------------------------------------------------
  // Liveness
  // ---------------------------------------------------------------------------------------------

  /**
   The event takes the row of `id` out of the catalog: the row's own publisher withdraws it no earlier than
   it announced it, leaves it out of a digest or lapses; a fetch of it fails; or a prune finds it a
   whole TTL old.
   */
  ghost predicate Takes(c: Config, e: Event, id: Blob, pk: Blob, sent: int, heard: int) {
    match e
    case Announced(ann, _) =>
      && ShareBindingIsValid(c.sha384, ann) && ann.withdraw
      && ann.shareId == id && ann.senderPubkey == pk && ann.sentUnixMs >= sent
    case TtlPrune(now) => now - heard >= c.ttl
    case FetchFailed(id') => id' == id
    case Digest(pk', live, _) => pk' == pk && id !in live
    case Lapsed(pk') => pk' == pk
  }

  /** The event hears of the row of `id`: its publisher announces it anew or again, or lists it in a digest. */
  ghost predicate Hears(c: Config, e: Event, id: Blob, pk: Blob, sent: int) {
    match e
    case Announced(ann, _) =>
      && ShareBindingIsValid(c.sha384, ann) && !ann.withdraw
      && ann.shareId == id && ann.senderPubkey == pk && ann.sentUnixMs >= sent
    case Digest(pk', live, _) => pk' == pk && id in live
    case _ => false
  }

  /** One event takes out exactly the rows it takes, and re-stamps exactly those it hears of. */
  lemma RowAfterEvent(c: Config, entries: Entries, e: Event, id: Blob)
    requires c.ttl > 0 && id in entries
    ensures var row, after := entries[id], Step(c, entries, e);
      && (id !in after <==> Takes(c, e, id, row.senderPubkey, row.announcedUnixMs, row.receivedAt))
      && (id in after ==>
            if Hears(c, e, id, row.senderPubkey, row.announcedUnixMs)
            then after[id].receivedAt == e.now && after[id].senderPubkey == row.senderPubkey
                 && after[id].announcedUnixMs >= row.announcedUnixMs
            else after[id] == row)
  {
    hide ShareBindingIsValid;
  }

  /** And a share not listed comes to be exactly by a bound announcement of its id. */
  lemma RowAppears(c: Config, entries: Entries, e: Event, id: Blob)
    requires id !in entries
    ensures id in Step(c, entries, e) <==>
              e.Announced? && ShareBindingIsValid(c.sha384, e.ann) && !e.ann.withdraw && e.ann.shareId == id
    ensures id in Step(c, entries, e) ==>
              Step(c, entries, e)[id].receivedAt == e.now && SaysTheSame(Step(c, entries, e)[id], e.ann)
  {
    hide ShareBindingIsValid;
  }

  /** A row of `pk` under `id`, announced at `sent` and heard at `heard`, or later. */
  ghost predicate Listed(entries: Entries, id: Blob, pk: Blob, sent: int, heard: int) {
    && id in entries && entries[id].senderPubkey == pk
    && entries[id].announcedUnixMs >= sent && entries[id].receivedAt >= heard
  }

  /**
   A share announced at `sent` and heard at `heard` stays listed until its own publisher withdraws it no
   earlier than that, unlists or lapses it, a fetch of it fails, or a prune finds it a whole TTL old:
   nothing anybody else sends can take it down, and no stale withdraw.
   */
  lemma {:induction false} ListedUntilTaken(c: Config, entries: Entries, evs: seq<Event>, id: Blob, pk: Blob,
                                            sent: int, heard: int)
    requires c.ttl > 0 && Listed(entries, id, pk, sent, heard)
    requires forall k :: 0 <= k < |evs| ==> !Takes(c, evs[k], id, pk, sent, heard)
    requires forall k :: 0 <= k < |evs| && (evs[k].Announced? || evs[k].Digest?) ==> evs[k].now >= heard
    ensures Listed(Run(c, entries, evs), id, pk, sent, heard)
    decreases |evs|
  {
    hide Step, ShareBindingIsValid;
    if evs != [] {
      assert !Takes(c, evs[0], id, pk, sent, heard);
      RowAfterEvent(c, entries, evs[0], id);
      assert Listed(Step(c, entries, evs[0]), id, pk, sent, heard);
      ListedUntilTaken(c, Step(c, entries, evs[0]), evs[1..], id, pk, sent, heard);
    }
  }

  /** The event re-stamps or adds a row under `id` later than `last`. */
  ghost predicate HeardAfter(e: Event, id: Blob, last: int) {
    || (e.Announced? && e.ann.shareId == id && e.now > last)
    || (e.Digest? && id in e.live && e.now > last)
  }

  lemma {:induction false} ReceiptBounded(c: Config, evs: seq<Event>, id: Blob, last: int)
    requires forall k :: 0 <= k < |evs| ==> !HeardAfter(evs[k], id, last)
    requires id in Run(c, map[], evs)
    ensures Run(c, map[], evs)[id].receivedAt <= last
    decreases |evs|
  {
    if evs != [] {
      var front, e := evs[..|evs| - 1], evs[|evs| - 1];
      RunSnoc(c, map[], evs);
      assert !HeardAfter(e, id, last);
      if id in Run(c, map[], front) {
        ReceiptBounded(c, front, id, last);
      }
    }
  }

  /** A share not heard after `last` is off the catalog at every prune a TTL later. */
  lemma SilentShareAgesOut(c: Config, evs: seq<Event>, id: Blob, last: int, now: int)
    requires c.ttl > 0 && now >= last + c.ttl
    requires forall k :: 0 <= k < |evs| ==> !HeardAfter(evs[k], id, last)
    ensures id !in Run(c, map[], evs + [TtlPrune(now)])
  {
    var all := evs + [TtlPrune(now)];
    RunSnoc(c, map[], all);
    assert all[..|all| - 1] == evs;
    if id in Run(c, map[], evs) {
      ReceiptBounded(c, evs, id, last);
    }
  }

  /**
   The ingest check is what carries the theorem: folding without it, a stranger who announces p's id
   first keeps p's share out of the catalog for good.
   */
  lemma UncheckedFoldInterferes(p: Blob, q: Blob, ann: Announcement, sent: int, now: int)
    requires p != q && ann.senderPubkey == p && !ann.withdraw
    ensures var squat := ann.(senderPubkey := q, sentUnixMs := sent);
      && Owned(Folded(Folded(map[], squat, now), ann, now), p) == map[]
      && ann.shareId in Owned(Folded(map[], ann, now), p)
  {
  }
}

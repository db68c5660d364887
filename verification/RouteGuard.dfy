/**
 The imported-route guard of crates/daemonseed-core/src/route_guard.rs: a superseded or withdrawn
 route is handed back for release only once no fetch of that share is in flight.
 */
module RouteGuard {
  import opened Wrappers

  datatype GuardEntry<R> = GuardEntry(route: Option<R>, inFlight: nat, pendingRelease: Option<R>, withdrawn: bool) {
    predicate IsEmpty() {
      route == None && inFlight == 0 && pendingRelease == None
    }

    /** A stored entry has a fetch in flight, or holds exactly a current route. */
    predicate Stored() {
      inFlight > 0 || (route.Some? && pendingRelease == None && !withdrawn)
    }
  }

  /** One call on the guard for one share. */
  datatype Call<R> =
    | FetchStarted
    | FetchFinished(imported: Option<R>)
    | AdvertReplaced
    | ShareWithdrawn

  function AsSeq<R>(r: Option<R>): seq<R> {
    if r.Some? then [r.value] else []
  }

  /**
   What a call leaves: the share's entry (`None` when it is dropped), and the routes to release now, a
   waiting one first and the current one after it.
   */
  datatype Outcome<R> = Outcome(entry: Option<GuardEntry<R>>, waiting: Option<R>, current: Option<R>) {
    function Release(): seq<R> {
      AsSeq(waiting) + AsSeq(current)
    }
  }

  function Collected<R>(e: GuardEntry<R>): Option<GuardEntry<R>> {
    if e.IsEmpty() then None else Some(e)
  }

  function Finished<R>(e: GuardEntry<R>, imported: Option<R>): Outcome<R> {
    var inFlight := if e.inFlight > 0 then e.inFlight - 1 else 0;
    var route := if imported.Some? then imported else e.route;
    if inFlight > 0 then
      Outcome(Some(e.(inFlight := inFlight, route := route)), None, None)
    else if e.withdrawn then
      Outcome(None, e.pendingRelease, route)
    else
      Outcome(Collected(GuardEntry(route, 0, None, false)), e.pendingRelease, None)
  }

  function Done<R>(cur: Option<GuardEntry<R>>, call: Call<R>): Outcome<R> {
    match (cur, call)
    case (None, FetchStarted) => Outcome(Some(GuardEntry(None, 1, None, false)), None, None)
    case (Some(e), FetchStarted) => Outcome(Some(e.(inFlight := e.inFlight + 1, withdrawn := false)), None, None)
    case (None, FetchFinished(imported)) =>
      Outcome(if imported.Some? then Some(GuardEntry(imported, 0, None, false)) else None, None, None)
    case (Some(e), FetchFinished(imported)) => Finished(e, imported)
    case (None, AdvertReplaced) => Outcome(None, None, None)
    case (Some(e), AdvertReplaced) =>
      if e.route == None then Outcome(cur, None, None)
      else if e.inFlight == 0 then Outcome(Collected(e.(route := None)), None, e.route)
      else Outcome(Some(e.(route := None,
                           pendingRelease := if e.pendingRelease.Some? then e.pendingRelease else e.route)), None, None)
    case (None, ShareWithdrawn) => Outcome(None, None, None)
    case (Some(e), ShareWithdrawn) =>
      if e.inFlight == 0 then Outcome(None, None, e.route)
      else Outcome(Some(e.(withdrawn := true)), None, None)
  }

  function At<S, R>(entries: map<S, GuardEntry<R>>, share: S): Option<GuardEntry<R>> {
    if share in entries then Some(entries[share]) else None
  }

  function Put<S, R>(entries: map<S, GuardEntry<R>>, share: S, e: Option<GuardEntry<R>>): map<S, GuardEntry<R>> {
    if e.Some? then entries[share := e.value] else entries - {share}
  }

  class ImportedRouteGuard<S(==), R> {
    var entries: map<S, GuardEntry<R>>

    ghost predicate Valid()
      reads this
    {
      forall s :: s in entries ==> entries[s].Stored()
    }

    constructor ()
      ensures Valid() && entries == map[]
    {
      entries := map[];
    }

    method NoteFetchStarted(share: S)
      requires Valid()
      modifies this
      ensures Valid()
      ensures entries == Put(old(entries), share, Done(At(old(entries), share), FetchStarted).entry)
    {
      var entry := if share in entries then entries[share] else GuardEntry(None, 0, None, false);
      entry := entry.(inFlight := entry.inFlight + 1);
      entry := entry.(withdrawn := false);
      entries := entries[share := entry];
    }

    method NoteFetchFinished(share: S, imported: Option<R>) returns (release: seq<R>)
      requires Valid()
      modifies this
      ensures Valid()
      ensures var o := Done(At(old(entries), share), FetchFinished(imported));
        entries == Put(old(entries), share, o.entry) && release == o.Release()
    {
      release := [];
      if share !in entries {
        if imported.Some? {
          entries := entries[share := GuardEntry(imported, 0, None, false)];
        }
        return;
      }
      var entry := entries[share];
      entry := entry.(inFlight := if entry.inFlight > 0 then entry.inFlight - 1 else 0);
      if imported.Some? {
        entry := entry.(route := imported);
      }
      if entry.inFlight == 0 {
        if entry.pendingRelease.Some? {
          release := release + [entry.pendingRelease.value];
          entry := entry.(pendingRelease := None);
        }
        if entry.withdrawn && entry.route.Some? {
          release := release + [entry.route.value];
          entry := entry.(route := None);
        }
      }
      entries := entries[share := entry];
      Gc(share);
    }

    method NoteAdvertReplaced(share: S) returns (release: Option<R>)
      requires Valid()
      modifies this
      ensures Valid()
      ensures var o := Done(At(old(entries), share), AdvertReplaced);
        entries == Put(old(entries), share, o.entry) && AsSeq(release) == o.Release()
    {
      if share !in entries || entries[share].route == None {
        return None;
      }
      var entry := entries[share];
      var superseded := entry.route;
      entry := entry.(route := None);
      if entry.inFlight == 0 {
        entries := entries[share := entry];
        Gc(share);
        return superseded;
      }
      if entry.pendingRelease == None {
        entry := entry.(pendingRelease := superseded);
      }
      entries := entries[share := entry];
      release := None;
    }

    method NoteShareWithdrawn(share: S) returns (release: Option<R>)
      requires Valid()
      modifies this
      ensures Valid()
      ensures var o := Done(At(old(entries), share), ShareWithdrawn);
        entries == Put(old(entries), share, o.entry) && AsSeq(release) == o.Release()
    {
      if share !in entries {
        return None;
      }
      var entry := entries[share];
      if entry.inFlight == 0 {
        release := entry.route;
        entries := entries - {share};
        return;
      }
      entries := entries[share := entry.(withdrawn := true)];
      release := None;
    }

    /** Drop an entry that carries no state. */
    method Gc(share: S)
      modifies this
      ensures entries == if share in old(entries) && old(entries)[share].IsEmpty()
                         then old(entries) - {share} else old(entries)
    {
      if share in entries && entries[share].IsEmpty() {
        entries := entries - {share};
      }
    }
  }

  // ---------------------------------------------------------------------------------------------
  // Whole runs
  // ---------------------------------------------------------------------------------------------

  /** What has become of one share's routes over a run, repeats counted. */
  datatype Ledger<!R> = Ledger(
    entry: Option<GuardEntry<R>>, imported: multiset<R>, released: multiset<R>, abandoned: multiset<R>)

  function Bag<R>(r: Option<R>): multiset<R> {
    if r.Some? then multiset{r.value} else multiset{}
  }

  function Imports<R>(call: Call<R>): Option<R> {
    if call.FetchFinished? then call.imported else None
  }

  /**
   The only two ways a route leaves the guard's care without being released: a fetch records a route
   over a current one, or an advert supersedes a route mid-flight while another already waits.
   */
  function Abandons<R>(cur: Option<GuardEntry<R>>, call: Call<R>): Option<R> {
    match (cur, call)
    case (Some(e), FetchFinished(Some(_))) => e.route
    case (Some(e), AdvertReplaced) => if e.inFlight > 0 && e.pendingRelease.Some? then e.route else None
    case _ => None
  }

  function Holds<R>(cur: Option<GuardEntry<R>>): multiset<R> {
    if cur.Some? then Bag(cur.value.route) + Bag(cur.value.pendingRelease) else multiset{}
  }

  function Posted<R>(l: Ledger<R>, call: Call<R>): Ledger<R> {
    var o := Done(l.entry, call);
    Ledger(o.entry,
           l.imported + Bag(Imports(call)),
           l.released + Bag(o.waiting) + Bag(o.current),
           l.abandoned + Bag(Abandons(l.entry, call)))
  }

  /** The ledger of one share after the calls made on it, from a fresh guard. */
  function Book<R>(calls: seq<Call<R>>): Ledger<R> {
    if calls == [] then Ledger(None, multiset{}, multiset{}, multiset{})
    else Posted(Book(calls[..|calls| - 1]), calls[|calls| - 1])
  }

  ghost predicate Balanced<R>(l: Ledger<R>) {
    && (l.entry.Some? ==> l.entry.value.Stored())
    && l.imported == Holds(l.entry) + l.released + l.abandoned
  }

  function Times<R(==)>(o: Option<R>, r: R): nat {
    if o.Some? && o.value == r then 1 else 0
  }

  function TimesHeld<R(==)>(cur: Option<GuardEntry<R>>, r: R): nat {
    if cur.Some? then Times(cur.value.route, r) + Times(cur.value.pendingRelease, r) else 0
  }

  /** One call moves each route about without making or losing a copy of it. */
  lemma CallConserves<R>(cur: Option<GuardEntry<R>>, call: Call<R>, r: R)
    requires cur.Some? ==> cur.value.Stored()
    ensures var o := Done(cur, call);
      TimesHeld(cur, r) + Times(Imports(call), r)
        == TimesHeld(o.entry, r) + Times(o.waiting, r) + Times(o.current, r) + Times(Abandons(cur, call), r)
  {
  }

  lemma BagCounts<R>(o: Option<R>, cur: Option<GuardEntry<R>>, r: R)
    ensures Bag(o)[r] == Times(o, r) && Holds(cur)[r] == TimesHeld(cur, r)
  {
  }

  lemma PostedCounts<R>(l: Ledger<R>, call: Call<R>, r: R)
    requires Balanced(l)
    ensures var after := Posted(l, call);
      after.imported[r] == (Holds(after.entry) + after.released + after.abandoned)[r]
  {
    var o := Done(l.entry, call);
    CallConserves(l.entry, call, r);
    BagCounts(Imports(call), l.entry, r);
    BagCounts(o.waiting, o.entry, r);
    BagCounts(o.current, None, r);
    BagCounts(Abandons(l.entry, call), None, r);
    assert l.imported[r] == Holds(l.entry)[r] + l.released[r] + l.abandoned[r];
  }

  /**
   Conservation. Over every run of calls on a share, the routes imported are, counted with repeats, the
   one it holds now, the one waiting, those released and those abandoned; and the entry, if there is
   one, has a fetch in flight or holds exactly a current route.
   */
  lemma {:induction false} RoutesAreConserved<R(!new)>(calls: seq<Call<R>>)
    ensures Balanced(Book(calls))
  {
    if calls != [] {
      var before, call := Book(calls[..|calls| - 1]), calls[|calls| - 1];
      RoutesAreConserved(calls[..|calls| - 1]);
      var after := Posted(before, call);
      forall r
        ensures after.imported[r] == (Holds(after.entry) + after.released + after.abandoned)[r]
      {
        PostedCounts(before, call, r);
      }
      assert after.entry.Some? ==> after.entry.value.Stored() by {
        if after.entry.Some? {
          StoredKept(before.entry, call);
        }
      }
    }
  }

  lemma StoredKept<R>(cur: Option<GuardEntry<R>>, call: Call<R>)
    requires cur.Some? ==> cur.value.Stored()
    ensures Done(cur, call).entry.Some? ==> Done(cur, call).entry.value.Stored()
  {
  }

  /** Safety. A call that hands a route back leaves its share with no fetch in flight. */
  lemma NoReleaseInFlight<R>(cur: Option<GuardEntry<R>>, call: Call<R>)
    ensures Done(cur, call).Release() != [] && Done(cur, call).entry.Some? ==> Done(cur, call).entry.value.inFlight == 0
    ensures |Done(cur, call).Release()| <= 2
  {
  }

  /** Fetches started and not yet finished, by the calls alone; an unmatched finish counts for nothing. */
  function Outstanding<R>(calls: seq<Call<R>>): nat {
    if calls == [] then 0
    else
      var before, call := Outstanding(calls[..|calls| - 1]), calls[|calls| - 1];
      if call.FetchStarted? then before + 1
      else if call.FetchFinished? && before > 0 then before - 1
      else before
  }

  function InFlight<R>(cur: Option<GuardEntry<R>>): nat {
    if cur.Some? then cur.value.inFlight else 0
  }

  lemma CallCounts<R>(cur: Option<GuardEntry<R>>, call: Call<R>)
    ensures InFlight(Done(cur, call).entry)
         == if call.FetchStarted? then InFlight(cur) + 1
            else if call.FetchFinished? && InFlight(cur) > 0 then InFlight(cur) - 1
            else InFlight(cur)
  {
  }

  lemma {:induction false} InFlightIsOutstanding<R(!new)>(calls: seq<Call<R>>)
    ensures Outstanding(calls) == InFlight(Book(calls).entry)
  {
    if calls != [] {
      InFlightIsOutstanding(calls[..|calls| - 1]);
      CallCounts(Book(calls[..|calls| - 1]).entry, calls[|calls| - 1]);
    }
  }

  /** So in every run a route is released only at a call after which every started fetch has finished. */
  lemma ReleasedOnlyWhenIdle<R(!new)>(calls: seq<Call<R>>)
    requires calls != []
    ensures Book(calls).released != Book(calls[..|calls| - 1]).released ==> Outstanding(calls) == 0
  {
    var before, call := Book(calls[..|calls| - 1]), calls[|calls| - 1];
    InFlightIsOutstanding(calls);
    NoReleaseInFlight(before.entry, call);
    var o := Done(before.entry, call);
    assert o.Release() == [] ==> Bag(o.waiting) == multiset{} && Bag(o.current) == multiset{};
  }

  /** A withdrawn share with no fetch outstanding is forgotten, and all it imported is accounted for. */
  lemma WithdrawnShareIsSettled<R(!new)>(calls: seq<Call<R>>)
    requires Outstanding(calls) == 0
    ensures Book(calls + [ShareWithdrawn]).entry == None
    ensures var l := Book(calls + [ShareWithdrawn]); l.imported == l.released + l.abandoned
  {
    var all := calls + [ShareWithdrawn];
    assert all[..|all| - 1] == calls;
    InFlightIsOutstanding(calls);
    RoutesAreConserved(all);
  }

  ghost predicate NoFreshFetch<R(!new)>(calls: seq<Call<R>>) {
    forall k :: 0 <= k < |calls| ==> !calls[k].FetchStarted?
  }

  /** The entry of a share withdrawn under way. */
  predicate Leaving<R>(cur: Option<GuardEntry<R>>) {
    cur.Some? && cur.value.withdrawn && cur.value.inFlight > 0
  }

  /** While it is out, nothing but a fresh fetch keeps a withdrawn share; the last fetch home settles it. */
  lemma LeavingStep<R>(cur: Option<GuardEntry<R>>, call: Call<R>)
    requires Leaving(cur) && !call.FetchStarted?
    ensures var o := Done(cur, call);
      if InFlight(o.entry) > 0 then Leaving(o.entry) && o.waiting == None && o.current == None else o.entry == None
  {
  }

  lemma LeavingStarts<R>(cur: Option<GuardEntry<R>>)
    requires InFlight(cur) > 0
    ensures var o := Done(cur, ShareWithdrawn); Leaving(o.entry) && o.waiting == None && o.current == None
  {
  }

  lemma BookSnoc<R>(calls: seq<Call<R>>, call: Call<R>)
    ensures Book(calls + [call]) == Posted(Book(calls), call)
  {
    assert (calls + [call])[..|calls|] == calls;
  }

  lemma StillOut<R>(calls: seq<Call<R>>, call: Call<R>)
    requires !call.FetchStarted? && Outstanding(calls + [call]) > 0
    ensures Outstanding(calls) > 0
  {
    assert (calls + [call])[..|calls|] == calls;
  }

  lemma {:induction false} LeavingWaits<R(!new)>(calls: seq<Call<R>>, later: seq<Call<R>>)
    requires Outstanding(calls) > 0 && NoFreshFetch(later)
    requires Outstanding(calls + [ShareWithdrawn] + later) > 0
    ensures var l := Book(calls + [ShareWithdrawn] + later); Leaving(l.entry) && l.released == Book(calls).released
    decreases |later|
  {
    hide Done, Book, Outstanding;
    var all := calls + [ShareWithdrawn] + later;
    InFlightIsOutstanding(calls);
    if later == [] {
      BookSnoc(calls, ShareWithdrawn);
      LeavingStarts(Book(calls).entry);
      assert all == calls + [ShareWithdrawn];
    } else {
      var front, last := later[..|later| - 1], later[|later| - 1];
      var before := calls + [ShareWithdrawn] + front;
      assert all == before + [last];
      BookSnoc(before, last);
      InFlightIsOutstanding(all);
      InFlightIsOutstanding(before);
      StillOut(before, last);
      LeavingWaits(calls, front);
      LeavingStep(Book(before).entry, last);
    }
  }

  /**
   A withdraw waits for every fetch still out. However many there are, and whatever calls but a fresh
   fetch come after it: while one is out nothing is released, and the call that brings the share to idle
   forgets it, with everything it ever imported released or abandoned.
   */
  lemma WithdrawWaitsForFetch<R(!new)>(calls: seq<Call<R>>, later: seq<Call<R>>, last: Call<R>)
    requires Outstanding(calls) > 0 && NoFreshFetch(later) && !last.FetchStarted?
    requires Outstanding(calls + [ShareWithdrawn] + later) > 0
    ensures var l := Book(calls + [ShareWithdrawn] + later); l.released == Book(calls).released
    ensures var l := Book(calls + [ShareWithdrawn] + later + [last]);
      Outstanding(calls + [ShareWithdrawn] + later + [last]) == 0 ==>
        l.entry == None && l.imported == l.released + l.abandoned
  {
    var before := calls + [ShareWithdrawn] + later;
    var all := before + [last];
    assert all[..|all| - 1] == before;
    LeavingWaits(calls, later);
    LeavingStep(Book(before).entry, last);
    InFlightIsOutstanding(all);
    RoutesAreConserved(all);
  }

  /** The ledger after further calls. */
  function PostedAll<R>(l: Ledger<R>, calls: seq<Call<R>>): Ledger<R> {
    if calls == [] then l else Posted(PostedAll(l, calls[..|calls| - 1]), calls[|calls| - 1])
  }

  /** Some fetch is out after each of the calls. */
  ghost predicate StaysInFlight<R(!new)>(l: Ledger<R>, calls: seq<Call<R>>) {
    forall k :: 0 <= k <= |calls| ==> InFlight(PostedAll(l, calls[..k]).entry) > 0
  }

  predicate Waits<R(==)>(cur: Option<GuardEntry<R>>, r: R) {
    cur.Some? && cur.value.inFlight > 0 && cur.value.pendingRelease == Some(r)
  }

  /** A route that waits goes on waiting while a fetch is out, and is handed back by the call that ends the flight. */
  lemma WaitingStep<R>(cur: Option<GuardEntry<R>>, call: Call<R>, r: R)
    requires Waits(cur, r)
    ensures var o := Done(cur, call);
      if InFlight(o.entry) > 0 then Waits(o.entry, r) && o.waiting == None && o.current == None
      else o.waiting == Some(r) && (o.entry.Some? ==> o.entry.value.pendingRelease == None)
  {
  }

  lemma WaitingPosted<R>(l: Ledger<R>, call: Call<R>, r: R)
    requires Waits(l.entry, r) && InFlight(Posted(l, call).entry) > 0
    ensures var after := Posted(l, call);
      Waits(after.entry, r) && after.released == l.released && l.abandoned <= after.abandoned
  {
    hide Done;
    WaitingStep(l.entry, call, r);
  }

  lemma StaysFront<R(!new)>(l: Ledger<R>, calls: seq<Call<R>>)
    requires calls != [] && StaysInFlight(l, calls)
    ensures StaysInFlight(l, calls[..|calls| - 1]) && InFlight(PostedAll(l, calls).entry) > 0
  {
    hide PostedAll, InFlight;
    var n, front := |calls| - 1, calls[..|calls| - 1];
    assert forall k :: 0 <= k <= n ==> front[..k] == calls[..k];
    assert calls[..n + 1] == calls;
  }

  lemma {:induction false} WaitingThroughout<R(!new)>(l: Ledger<R>, calls: seq<Call<R>>, r: R)
    requires Waits(l.entry, r) && StaysInFlight(l, calls)
    ensures var after := PostedAll(l, calls);
      Waits(after.entry, r) && after.released == l.released && l.abandoned <= after.abandoned
    decreases |calls|
  {
    hide Posted, Waits, StaysInFlight, InFlight;
    if calls != [] {
      var front := calls[..|calls| - 1];
      StaysFront(l, calls);
      WaitingThroughout(l, front, r);
      WaitingPosted(PostedAll(l, front), calls[|calls| - 1], r);
    }
  }

  /**
   Of two supersedes in one flight the earlier route is the one kept for release, and the later one is
   dropped. However many fetches are out and whatever calls follow: while one is out nothing is released,
   and the call that ends the flight hands `first` back, with the current route if the share has been
   withdrawn; `second` stays among the abandoned.
   */
  lemma SecondSupersedeDropsNewer<R(!new)>(l: Ledger<R>, first: R, second: R, later: seq<Call<R>>, last: Call<R>)
    requires Waits(l.entry, first) && l.entry.value.route == Some(second)
    ensures StaysInFlight(Posted(l, AdvertReplaced), later) ==>
              var mid := PostedAll(Posted(l, AdvertReplaced), later);
              var end := Posted(mid, last);
              && mid.released == l.released && l.abandoned + multiset{second} <= mid.abandoned
              && (InFlight(end.entry) == 0 ==>
                    && end.released == l.released + multiset{first} + Bag(Done(mid.entry, last).current)
                    && (end.entry.Some? ==> end.entry.value.pendingRelease == None)
                    && l.abandoned + multiset{second} <= end.abandoned)
  {
    var dropped := Posted(l, AdvertReplaced);
    assert Waits(dropped.entry, first);
    assert dropped.released == l.released && dropped.abandoned == l.abandoned + multiset{second};
    if StaysInFlight(dropped, later) {
      WaitingThroughout(dropped, later, first);
      WaitingStep(PostedAll(dropped, later).entry, last, first);
    }
  }

  /**
   A superseded route comes back at the later of two moments. If no fetch is out, it does at once and the
   share is forgotten; else nothing comes back while one is out, whatever calls follow, and the call that
   ends the flight hands it back.
   */
  lemma SupersededRouteComesBack<R(!new)>(l: Ledger<R>, r: R, later: seq<Call<R>>, last: Call<R>)
    requires l.entry.Some? && l.entry.value.route == Some(r) && l.entry.value.pendingRelease == None
    ensures l.entry.value.inFlight == 0 ==>
              Done(l.entry, AdvertReplaced).Release() == [r] && Posted(l, AdvertReplaced).entry == None
    ensures l.entry.value.inFlight > 0 && StaysInFlight(Posted(l, AdvertReplaced), later) ==>
              var mid := PostedAll(Posted(l, AdvertReplaced), later);
              && mid.released == l.released
              && (InFlight(Posted(mid, last).entry) == 0 ==> Done(mid.entry, last).waiting == Some(r))
  {
    var after := Posted(l, AdvertReplaced);
    if l.entry.value.inFlight > 0 && StaysInFlight(after, later) {
      assert Waits(after.entry, r) && after.released == l.released;
      WaitingThroughout(after, later, r);
      WaitingStep(PostedAll(after, later).entry, last, r);
    }
  }

  /** What a fetch imports becomes the share's current route, or is handed back with a share withdrawn under way. */
  lemma ImportIsCurrent<R>(cur: Option<GuardEntry<R>>, r: R)
    ensures var o := Done(cur, FetchFinished(Some(r)));
      if o.entry.Some? then o.entry.value.route == Some(r) && o.current == None else o.current == Some(r)
  {
  }

  /** Where a finish hands back two routes, the one that waited comes first. */
  lemma WaitingComesFirst<R>(first: R, current: R)
    ensures var e := GuardEntry(Some(current), 1, Some(first), true);
      Done(Some(e), FetchFinished(None)).Release() == [first, current]
  {
  }

  /** The share has been fetched since it was last withdrawn. */
  predicate Live<R>(cur: Option<GuardEntry<R>>) {
    cur.Some? ==> !cur.value.withdrawn
  }

  lemma LiveStep<R>(cur: Option<GuardEntry<R>>, call: Call<R>)
    requires Live(cur) || call.FetchStarted?
    ensures !call.ShareWithdrawn? ==> Live(Done(cur, call).entry)
  {
  }

  lemma LiveFinish<R>(cur: Option<GuardEntry<R>>, imported: Option<R>)
    requires Live(cur)
    ensures var o := Done(cur, FetchFinished(imported));
      o.current == None && (imported.Some? ==> o.entry.Some? && o.entry.value.route == imported)
  {
  }

  lemma {:induction false} LiveThroughout<R(!new)>(calls: seq<Call<R>>, later: seq<Call<R>>)
    requires forall k :: 0 <= k < |later| ==> !later[k].ShareWithdrawn?
    ensures Live(Book(calls + [FetchStarted] + later).entry)
    decreases |later|
  {
    hide Done;
    if later == [] {
      assert calls + [FetchStarted] + [] == calls + [FetchStarted];
      BookSnoc(calls, FetchStarted);
      LiveStep(Book(calls).entry, FetchStarted);
    } else {
      var front, last := later[..|later| - 1], later[|later| - 1];
      LiveThroughout(calls, front);
      assert calls + [FetchStarted] + later == calls + [FetchStarted] + front + [last];
      BookSnoc(calls + [FetchStarted] + front, last);
      LiveStep(Book(calls + [FetchStarted] + front).entry, last);
    }
  }

  /**
   A fresh fetch voids a withdraw. After it, and until the share is withdrawn again, no fetch that
   finishes hands back the current route, and what it imports stays with the share: even if the withdraw
   came with an earlier fetch still out.
   */
  lemma FreshFetchVoidsWithdraw<R(!new)>(calls: seq<Call<R>>, later: seq<Call<R>>, imported: Option<R>)
    requires forall k :: 0 <= k < |later| ==> !later[k].ShareWithdrawn?
    ensures var o := Done(Book(calls + [FetchStarted] + later).entry, FetchFinished(imported));
      o.current == None && (imported.Some? ==> o.entry.Some? && o.entry.value.route == imported)
  {
    hide Done, Book, Live;
    LiveThroughout(calls, later);
    LiveFinish(Book(calls + [FetchStarted] + later).entry, imported);
  }

  /**
   A release can hand back the very route its entry still holds, since a route imported again keeps its
   id. It happens exactly when a fetch that ends the flight of a share not withdrawn leaves current the
   route that was waiting: superseded in the flight, and imported again before its end.
   */
  lemma ReleasedWhileHeld<R>(e: GuardEntry<R>, call: Call<R>, r: R)
    requires e.Stored()
    ensures var o := Done(Some(e), call);
      (o.waiting == Some(r) || o.current == Some(r)) && TimesHeld(o.entry, r) > 0 <==>
        && call.FetchFinished? && e.inFlight <= 1 && !e.withdrawn && e.pendingRelease == Some(r)
        && (if call.imported.Some? then call.imported else e.route) == Some(r)
  {
  }

  /** Such a run: imported, fetched again, superseded under way, and imported again under its old id. */
  lemma ReleasedWhileHeldIsReachable<R>(r: R)
    ensures var e1 := Done(None, FetchFinished(Some(r))).entry;
      var e2 := Done(e1, FetchStarted).entry;
      var e3 := Done(e2, AdvertReplaced).entry;
      var end := Done(e3, FetchFinished(Some(r)));
      end.Release() == [r] && end.entry == Some(GuardEntry(Some(r), 0, None, false))
  {
  }

  /** Such an entry is reached by two imports with an advert between them during one flight. */
  lemma SecondSupersedeIsReachable<R>(first: R, second: R)
    ensures var e1 := Done(None, FetchFinished(Some(first))).entry;
      var e2 := Done(e1, FetchStarted).entry;
      var e3 := Done(e2, AdvertReplaced).entry;
      var e4 := Done(e3, FetchStarted).entry;
      Done(e4, FetchFinished(Some(second))).entry == Some(GuardEntry(Some(second), 1, Some(first), false))
  {
  }

  // ---------------------------------------------------------------------------------------------
  // Many shares
  // ---------------------------------------------------------------------------------------------

  /** A fresh guard after calls on many shares. */
  function GuardRun<S, R>(calls: seq<(S, Call<R>)>): map<S, GuardEntry<R>> {
    if calls == [] then map[]
    else
      var before, (share, call) := GuardRun(calls[..|calls| - 1]), calls[|calls| - 1];
      Put(before, share, Done(At(before, share), call).entry)
  }

  function CallsOn<S(==), R>(calls: seq<(S, Call<R>)>, share: S): seq<Call<R>> {
    if calls == [] then []
    else
      var before, last := CallsOn(calls[..|calls| - 1], share), calls[|calls| - 1];
      if last.0 == share then before + [last.1] else before
  }

  /** A share's entry depends on the calls made on that share alone. */
  lemma {:induction false} SharesAreIndependent<S, R>(calls: seq<(S, Call<R>)>, share: S)
    ensures At(GuardRun(calls), share) == Book(CallsOn(calls, share)).entry
  {
    if calls != [] {
      var front, last := calls[..|calls| - 1], calls[|calls| - 1];
      SharesAreIndependent(front, share);
      if last.0 == share {
        var mine := CallsOn(front, share);
        assert CallsOn(calls, share) == mine + [last.1];
        assert (mine + [last.1])[..|mine + [last.1]| - 1] == mine;
      }
    }
  }
}

/** The session-health tracker over whole histories: what a decision depends on, and how often repairs can come. */
module SessionHealthRuns {
  import opened Wrappers
  import opened SessionHealth

  /** One record's state after the events on it, from an untracked record. */
  function Run(k: nat, evs: seq<Event>): Option<RecordHealth> {
    if evs == [] then None else Next(k, Run(k, evs[..|evs| - 1]), evs[|evs| - 1])
  }

  /** A tracker's records after events on many of them. */
  function TrackerRun<Key>(k: nat, evs: seq<(Key, Event)>): map<Key, RecordHealth> {
    if evs == [] then map[]
    else
      var before, (key, e) := TrackerRun(k, evs[..|evs| - 1]), evs[|evs| - 1];
      Put(before, key, Next(k, At(before, key), e))
  }

  function EventsOn<Key(==)>(evs: seq<(Key, Event)>, key: Key): seq<Event> {
    if evs == [] then []
    else
      var before, last := EventsOn(evs[..|evs| - 1], key), evs[|evs| - 1];
      if last.0 == key then before + [last.1] else before
  }

  /** A record's state depends on the events on that record alone. */
  lemma {:induction false} RecordsAreIndependent<Key>(k: nat, evs: seq<(Key, Event)>, key: Key)
    ensures At(TrackerRun(k, evs), key) == Run(k, EventsOn(evs, key))
  {
    if evs != [] {
      var front, last := evs[..|evs| - 1], evs[|evs| - 1];
      RecordsAreIndependent(k, front, key);
      if last.0 == key {
        var mine := EventsOn(front, key);
        assert EventsOn(evs, key)[..|mine|] == mine;
      }
    }
  }

  // ---------------------------------------------------------------------------------------------
  // A decision, read off the record's history
  // ---------------------------------------------------------------------------------------------

  /** The watch was dead, or something was read, some read got no answer and none yielded a slot. */
  predicate Failed(e: Event) {
    && e.Pass?
    && (e.input.watch == Dead || (e.input.attempted != 0 && e.input.failed != 0 && e.input.found == 0))
  }

  /** A watch not known dead, something read, and either a slot yielded or every read answered. */
  predicate Succeeded(e: Event) {
    && e.Pass? && e.input.watch != Dead && e.input.attempted != 0
    && (e.input.found != 0 || e.input.failed == 0)
  }

  /** What ends a streak of failures: service seen, a repair sent out, or the record dropped. */
  predicate EndsStreak(e: Event) {
    Succeeded(e) || e.Dispatched? || e.Cleared?
  }

  function CountFailed(evs: seq<Event>): nat {
    if evs == [] then 0 else CountFailed(evs[..|evs| - 1]) + if Failed(evs[|evs| - 1]) then 1 else 0
  }

  /** `i` is where the current streak begins. */
  ghost predicate StreakStart(evs: seq<Event>, i: nat) {
    && i <= |evs|
    && (i > 0 ==> EndsStreak(evs[i - 1]))
    && forall j :: i <= j < |evs| ==> !EndsStreak(evs[j])
  }

  /** The pass at j failed in calm weather with at least `threshold` failures since i. */
  ghost predicate Fires(evs: seq<Event>, i: nat, j: int, threshold: nat) {
    i <= j < |evs| && Failed(evs[j]) && evs[j].input.weather.Calm? && CountFailed(evs[i..j + 1]) >= threshold
  }

  lemma StreakFront(evs: seq<Event>, i: nat)
    requires StreakStart(evs, i) && i < |evs|
    ensures var front := evs[..|evs| - 1];
      && StreakStart(front, i) && front[..i] == evs[..i]
      && CountFailed(evs[i..]) == CountFailed(front[i..]) + if Failed(evs[|evs| - 1]) then 1 else 0
  {
    var front := evs[..|evs| - 1];
    assert front[..i] == evs[..i] && evs[i..][..|evs| - 1 - i] == front[i..];
  }

  /** At the start of a streak nothing is counted and nothing latched. */
  lemma StreakOpens(k: nat, evs: seq<Event>)
    requires StreakStart(evs, |evs|)
    ensures Entered(Run(k, evs)).consecutiveFailed == 0 && !Entered(Run(k, evs)).repairDueLatched
  {
  }

  /** Within a streak the counter is the number of failures so far, and the multiplier stands still. */
  lemma {:induction false} StreakCounter(k: nat, evs: seq<Event>, i: nat)
    requires StreakStart(evs, i)
    ensures var count := CountFailed(evs[i..]);
      Entered(Run(k, evs)).consecutiveFailed == if count > 0xFFFF_FFFF then 0xFFFF_FFFF else count
    ensures Entered(Run(k, evs)).backoffMult == Entered(Run(k, evs[..i])).backoffMult
    decreases |evs|
  {
    if |evs| == i {
      StreakOpens(k, evs);
      assert evs[..i] == evs && evs[i..] == [];
    } else {
      StreakFront(evs, i);
      StreakCounter(k, evs[..|evs| - 1], i);
    }
  }

  /** Within a streak the latch is set once some pass has fired. */
  lemma {:induction false} StreakLatch(k: nat, evs: seq<Event>, i: nat)
    requires StreakStart(evs, i)
    ensures Entered(Run(k, evs)).repairDueLatched
       <==> exists j :: Fires(evs, i, j, Threshold(k, Entered(Run(k, evs[..i])).backoffMult))
    decreases |evs|
  {
    if |evs| == i {
      StreakOpens(k, evs);
    } else {
      var n, front := |evs| - 1, evs[..|evs| - 1];
      StreakFront(evs, i);
      StreakLatch(k, front, i);
      StreakCounter(k, front, i);
      var t := Threshold(k, Entered(Run(k, evs[..i])).backoffMult);
      FiresFront(evs, i, t);
      assert Entered(Run(k, evs)).repairDueLatched <==> Entered(Run(k, front)).repairDueLatched || Fires(evs, i, n, t);
    }
  }

  lemma FiresFront(evs: seq<Event>, i: nat, t: nat)
    requires StreakStart(evs, i) && i < |evs|
    ensures var n, front := |evs| - 1, evs[..|evs| - 1];
      && (forall j :: j != n ==> (Fires(front, i, j, t) <==> Fires(evs, i, j, t)))
      && (Fires(evs, i, n, t) <==> Failed(evs[n]) && evs[n].input.weather.Calm? && CountFailed(evs[i..]) >= t)
  {
    var n, front := |evs| - 1, evs[..|evs| - 1];
    assert evs[i..n + 1] == evs[i..];
    forall j | i <= j < n
      ensures Fires(front, i, j, t) <==> Fires(evs, i, j, t)
    {
      assert front[i..j + 1] == evs[i..j + 1];
    }
  }

  /**
   A pass is told RepairDue exactly when it failed in calm weather, the failures since the last success,
   dispatch or drop have reached K times the multiplier of the streak, and no earlier pass of the streak
   was: so at most once per episode.
   */
  lemma DecisionIsHistory(k: nat, evs: seq<Event>, i: nat, input: SweepHealthInput)
    requires StreakStart(evs, i)
    ensures var due := k * Entered(Run(k, evs[..i])).backoffMult;
      var t := if due > 0xFFFF_FFFF then 0xFFFF_FFFF else due;
      Decision(k, Run(k, evs), input) == RepairDue <==>
        && Fires(evs + [Pass(input)], i, |evs|, t)
        && forall j :: i <= j < |evs| ==> !Fires(evs, i, j, t)
  {
    hide Fires, Run, CountFailed;
    StreakCounter(k, evs, i);
    StreakLatch(k, evs, i);
    FiresInside(evs, i, Threshold(k, Entered(Run(k, evs[..i])).backoffMult));
    FiresNext(evs, i, input, Threshold(k, Entered(Run(k, evs[..i])).backoffMult));
  }

  lemma FiresInside(evs: seq<Event>, i: nat, t: nat)
    ensures forall j :: Fires(evs, i, j, t) ==> i <= j < |evs|
  {
  }

  lemma FiresNext(evs: seq<Event>, i: nat, input: SweepHealthInput, t: nat)
    requires i <= |evs|
    ensures Fires(evs + [Pass(input)], i, |evs|, t)
       <==> input.IsFailedPass() && input.weather.Calm? && CountFailed(evs[i..]) + 1 >= t
  {
    var all := evs + [Pass(input)];
    assert all[i..|evs| + 1] == evs[i..] + [Pass(input)];
    assert (evs[i..] + [Pass(input)])[..|evs| - i] == evs[i..];
  }

  /** A pass is told Suppressed exactly when it is in elevated weather and would be told RepairDue in calm. */
  lemma SuppressedIffDueInCalm(k: nat, cur: Option<RecordHealth>, input: SweepHealthInput)
    ensures Decision(k, cur, input) == Suppressed
       <==> input.weather == Elevated && Decision(k, cur, input.(weather := Calm)) == RepairDue
  {
  }

  // ---------------------------------------------------------------------------------------------
  // Sweeps, read by read
  // ---------------------------------------------------------------------------------------------

  /** What one read of a sweep comes to: a populated slot, an empty one, or no answer. */
  datatype Read = Slot | Empty | NoAnswer

  datatype Sweep = Sweep(gets: seq<Read>, watch: WatchState, weather: Weather)

  function CountOf(gets: seq<Read>, kind: Read): nat {
    if gets == [] then 0 else CountOf(gets[..|gets| - 1], kind) + if gets[|gets| - 1] == kind then 1 else 0
  }

  /** The accounting a sweep hands to the tracker. */
  function InputOf(s: Sweep): SweepHealthInput {
    SweepHealthInput(|s.gets|, CountOf(s.gets, NoAnswer), CountOf(s.gets, Slot), s.watch, s.weather)
  }

  /** The record did not serve the sweep: its watch is dead, or some read got no answer and none yielded a slot. */
  ghost predicate Unserviced(s: Sweep) {
    s.watch == Dead || (NoAnswer in s.gets && Slot !in s.gets)
  }

  lemma {:induction false} CountedIffPresent(gets: seq<Read>, kind: Read)
    ensures CountOf(gets, kind) > 0 <==> kind in gets
  {
    if gets != [] {
      CountedIffPresent(gets[..|gets| - 1], kind);
      assert gets == gets[..|gets| - 1] + [gets[|gets| - 1]];
    }
  }

  /** A pass fails exactly when the record did not serve it, and is no evidence exactly when it read nothing. */
  lemma FailedPassIsUnserviced(s: Sweep)
    ensures InputOf(s).IsFailedPass() <==> Unserviced(s)
    ensures InputOf(s).IsNoRead() <==> s.gets == [] && s.watch != Dead
    ensures Failed(Pass(InputOf(s))) <==> Unserviced(s)
    ensures Succeeded(Pass(InputOf(s))) <==> !Unserviced(s) && s.gets != []
  {
    CountedIffPresent(s.gets, NoAnswer);
    CountedIffPresent(s.gets, Slot);
  }

  /**
   The decision, from the reads up: a sweep is told RepairDue exactly when the record did not serve it, the
   weather is calm, the unserved sweeps of the streak have with it reached K times the multiplier, and
   no earlier one of the streak was told so. An empty record swept without error is never among them.
   */
  lemma SweepIsToldDue(k: nat, evs: seq<Event>, i: nat, s: Sweep)
    requires StreakStart(evs, i)
    ensures var due := k * Entered(Run(k, evs[..i])).backoffMult;
      var t := if due > 0xFFFF_FFFF then 0xFFFF_FFFF else due;
      Decision(k, Run(k, evs), InputOf(s)) == RepairDue <==>
        && Unserviced(s) && s.weather == Calm && CountFailed(evs[i..]) + 1 >= t
        && forall j :: i <= j < |evs| ==> !Fires(evs, i, j, t)
  {
    hide Fires, Run, CountFailed, InputOf;
    var due := k * Entered(Run(k, evs[..i])).backoffMult;
    DecisionIsHistory(k, evs, i, InputOf(s));
    FiresNext(evs, i, InputOf(s), if due > 0xFFFF_FFFF then 0xFFFF_FFFF else due);
    FailedPassIsUnserviced(s);
    SweepKeepsWeather(s);
  }

  lemma SweepKeepsWeather(s: Sweep)
    ensures InputOf(s).weather == s.weather
  {
  }

  // ---------------------------------------------------------------------------------------------
  // Suppression
  // ---------------------------------------------------------------------------------------------

  /** Passes that keep a suppressed streak waiting: nothing read, or failed in elevated weather. */
  ghost predicate KeepsWaiting(e: Event) {
    e.Pass? && (e.input.IsNoRead() || (e.input.IsFailedPass() && e.input.weather.Elevated?))
  }

  /** The record is past its threshold and not flagged: the next failed pass in calm is due. */
  ghost predicate Ripe(k: nat, cur: Option<RecordHealth>) {
    var r := Entered(cur);
    !r.repairDueLatched && Sat(r.consecutiveFailed + 1) >= Threshold(k, r.backoffMult)
  }

  lemma {:induction false} StaysRipe(k: nat, evs: seq<Event>, between: seq<Event>)
    requires Ripe(k, Run(k, evs)) && forall j :: 0 <= j < |between| ==> KeepsWaiting(between[j])
    ensures Ripe(k, Run(k, evs + between))
    decreases |between|
  {
    if between == [] {
      assert evs + [] == evs;
    } else {
      var front := between[..|between| - 1];
      StaysRipe(k, evs, front);
      assert (evs + between)[..|evs + between| - 1] == evs + front;
    }
  }

  /**
   Elevated weather only delays: a suppressed pass would have been due in calm, and after it, with any
   passes between that read nothing or fail in elevated weather, the next failed pass in calm is due.
   */
  lemma SuppressionOnlyDelays(k: nat, evs: seq<Event>, now: SweepHealthInput, between: seq<Event>,
                              later: SweepHealthInput)
    requires Decision(k, Run(k, evs), now) == Suppressed
    requires forall j :: 0 <= j < |between| ==> KeepsWaiting(between[j])
    requires later.IsFailedPass() && later.weather.Calm?
    ensures Decision(k, Run(k, evs), now.(weather := Calm)) == RepairDue
    ensures Decision(k, Run(k, evs + [Pass(now)] + between), later) == RepairDue
  {
    assert (evs + [Pass(now)])[..|evs|] == evs;
    StaysRipe(k, evs + [Pass(now)], between);
  }

  // ---------------------------------------------------------------------------------------------
  // The multiplier
  // ---------------------------------------------------------------------------------------------

  function Pow2(n: nat): (p: nat)
    ensures p >= 1
  {
    if n == 0 then 1 else 2 * Pow2(n - 1)
  }

  function Min(a: nat, b: nat): nat {
    if a < b then a else b
  }

  /** Some pass has been seen since the record was last dropped. */
  ghost predicate Tracked(evs: seq<Event>) {
    exists p :: 0 <= p < |evs| && evs[p].Pass? && forall q :: p < q < |evs| ==> !evs[q].Cleared?
  }

  lemma {:induction false} TrackedIsHistory(k: nat, evs: seq<Event>)
    ensures Run(k, evs).Some? <==> Tracked(evs)
  {
    if evs != [] {
      var n, front := |evs| - 1, evs[..|evs| - 1];
      TrackedIsHistory(k, front);
      if Tracked(front) && !evs[n].Cleared? {
        var p :| 0 <= p < n && front[p].Pass? && forall q :: p < q < n ==> !front[q].Cleared?;
        assert evs[p] == front[p] && forall q :: p < q < n ==> evs[q] == front[q];
        assert Tracked(evs);
      }
      if Tracked(evs) && !evs[n].Pass? {
        var p :| 0 <= p < |evs| && evs[p].Pass? && forall q :: p < q < |evs| ==> !evs[q].Cleared?;
        assert front[p] == evs[p] && forall q :: p < q < n ==> evs[q] == front[q];
        assert Tracked(front);
      }
    }
  }

  /** The dispatches at or after s that found the record tracked. */
  ghost function CountDispatches(evs: seq<Event>, s: nat): nat
    requires s <= |evs|
    decreases |evs|
  {
    if |evs| == s then 0
    else
      var front := evs[..|evs| - 1];
      CountDispatches(front, s) + if evs[|evs| - 1].Dispatched? && Tracked(front) then 1 else 0
  }

  /**
   The multiplier is 2 to the number of repairs dispatched since the last success or drop, at most 8.
   */
  lemma {:induction false} MultiplierIsHistory(k: nat, evs: seq<Event>, s: nat)
    requires s <= |evs| && (s > 0 ==> Succeeded(evs[s - 1]) || evs[s - 1].Cleared?)
    requires forall j :: s <= j < |evs| ==> !Succeeded(evs[j]) && !evs[j].Cleared?
    ensures Entered(Run(k, evs)).backoffMult == Pow2(Min(CountDispatches(evs, s), 3))
    decreases |evs|
  {
    assert Pow2(1) == 2 && Pow2(2) == 4 && Pow2(3) == 8;
    if |evs| == s {
      if s > 0 {
        assert evs[s - 1] == evs[|evs| - 1];
      }
    } else {
      var front := evs[..|evs| - 1];
      MultiplierIsHistory(k, front, s);
      TrackedIsHistory(k, front);
    }
  }

  /** In every run the multiplier is 1, 2, 4 or 8. */
  lemma {:induction false} MultiplierBounded(k: nat, evs: seq<Event>)
    ensures Entered(Run(k, evs)).backoffMult in {1, 2, 4, 8}
  {
    if evs != [] {
      MultiplierBounded(k, evs[..|evs| - 1]);
    }
  }

  // ---------------------------------------------------------------------------------------------
  // No-read passes
  // ---------------------------------------------------------------------------------------------

  function WithoutNoReads(evs: seq<Event>): seq<Event> {
    if evs == [] then []
    else
      var before, last := WithoutNoReads(evs[..|evs| - 1]), evs[|evs| - 1];
      if last.Pass? && last.input.IsNoRead() then before else before + [last]
  }

  /**
   A no-read pass changes no decision, except that it makes an untracked record tracked: putting one in
   front of an event changes what the event leaves exactly when that event dispatches a repair for a
   record nothing has been seen of.
   */
  lemma NoReadMattersOnlyToUntrackedDispatch(k: nat, cur: Option<RecordHealth>, input: SweepHealthInput, e: Event)
    requires input.IsNoRead() && (cur.Some? ==> cur.value.backoffMult > 0)
    ensures Decision(k, cur, input) == NotDue
    ensures Entered(Next(k, Next(k, cur, Pass(input)), e)) == Entered(Next(k, cur, e))
       <==> !(cur == None && e.Dispatched?)
  {
  }

  /** A pass that read something, or found the watch dead. */
  predicate Evidence(e: Event) {
    e.Pass? && !e.input.IsNoRead()
  }

  /** Some pass that was evidence has been seen since the record was last dropped. */
  ghost predicate TrackedOnEvidence(evs: seq<Event>) {
    exists p :: 0 <= p < |evs| && Evidence(evs[p]) && forall q :: p < q < |evs| ==> !evs[q].Cleared?
  }

  lemma {:induction false} TrackedWithoutNoReads(k: nat, evs: seq<Event>)
    ensures Run(k, WithoutNoReads(evs)).Some? <==> TrackedOnEvidence(evs)
  {
    if evs != [] {
      var n, front := |evs| - 1, evs[..|evs| - 1];
      var kept := WithoutNoReads(front);
      TrackedWithoutNoReads(k, front);
      assert (kept + [evs[n]])[..|kept|] == kept;
      if TrackedOnEvidence(front) && !evs[n].Cleared? {
        var p :| 0 <= p < n && Evidence(front[p]) && forall q :: p < q < n ==> !front[q].Cleared?;
        assert evs[p] == front[p] && forall q :: p < q < n ==> evs[q] == front[q];
        assert TrackedOnEvidence(evs);
      }
      if TrackedOnEvidence(evs) && !Evidence(evs[n]) {
        var p :| 0 <= p <= n && Evidence(evs[p]) && forall q :: p < q <= n ==> !evs[q].Cleared?;
        assert front[p] == evs[p] && forall q :: p < q < n ==> evs[q] == front[q];
        assert TrackedOnEvidence(front);
      }
    }
  }

  /** Deleting the no-read passes of a history leaves the record as it was, and so every decision on it. */
  ghost predicate Undisturbed(k: nat, evs: seq<Event>) {
    Entered(Run(k, WithoutNoReads(evs))) == Entered(Run(k, evs))
  }

  /** A dispatch for a record tracked on the word of no-read passes alone. */
  ghost predicate StrayDispatch(evs: seq<Event>, j: int) {
    0 <= j < |evs| && evs[j].Dispatched? && Tracked(evs[..j]) && !TrackedOnEvidence(evs[..j])
  }

  /** One event after two histories of one record: only a dispatch tells an untracked record from a tracked one. */
  lemma SameAfter(k: nat, a: Option<RecordHealth>, b: Option<RecordHealth>, e: Event)
    requires Entered(a) == Entered(b) && Entered(b).backoffMult in {1, 2, 4, 8} && (a.Some? ==> b.Some?)
    ensures Entered(Next(k, a, e)) == Entered(Next(k, b, e)) <==> !(e.Dispatched? && b.Some? && a == None)
    ensures e.Pass? && e.input.IsNoRead() ==> Entered(Next(k, b, e)) == Entered(b)
  {
  }

  /** One more event keeps a history undisturbed exactly when it is no stray dispatch. */
  lemma UndisturbedSnoc(k: nat, evs: seq<Event>)
    requires evs != [] && Undisturbed(k, evs[..|evs| - 1])
    ensures Undisturbed(k, evs) <==> !StrayDispatch(evs, |evs| - 1)
  {
    var front, last := evs[..|evs| - 1], evs[|evs| - 1];
    var kept := WithoutNoReads(front);
    TrackedIsHistory(k, front);
    TrackedWithoutNoReads(k, front);
    MultiplierBounded(k, front);
    assert TrackedOnEvidence(front) ==> Tracked(front);
    SameAfter(k, Run(k, kept), Run(k, front), last);
    assert (kept + [last])[..|kept|] == kept;
    hide Next, Tracked, TrackedOnEvidence;
  }

  /**
   Deleting every no-read pass changes no record at any point of a run, exactly when the run has no
   dispatch for a record of which nothing but no-read passes has been seen since it was last dropped.
   */
  lemma {:induction false} NoReadsDeletable(k: nat, evs: seq<Event>)
    ensures (forall j :: 0 <= j <= |evs| ==> Undisturbed(k, evs[..j])) <==> (forall j :: !StrayDispatch(evs, j))
    decreases |evs|
  {
    hide Undisturbed, StrayDispatch;
    if evs == [] {
      NothingUndisturbed(k);
      assert forall j :: 0 <= j <= 0 ==> evs[..j] == [];
      NothingStray();
    } else {
      var n, front := |evs| - 1, evs[..|evs| - 1];
      NoReadsDeletable(k, front);
      StrayFront(evs);
      assert front[..n] == front && evs[..n + 1] == evs;
      assert forall j :: 0 <= j <= n ==> front[..j] == evs[..j];
      if forall j :: 0 <= j <= n ==> Undisturbed(k, front[..j]) {
        assert Undisturbed(k, front[..n]);
        UndisturbedSnoc(k, evs);
        assert forall j :: 0 <= j <= n ==> Undisturbed(k, evs[..j]);
        assert (forall j :: 0 <= j <= n + 1 ==> Undisturbed(k, evs[..j])) <==> Undisturbed(k, evs[..n + 1]);
      } else {
        var j :| 0 <= j <= n && !Undisturbed(k, front[..j]);
        assert !Undisturbed(k, evs[..j]);
        var i :| StrayDispatch(front, i);
        StrayInside(front, i);
        assert StrayDispatch(evs, i);
      }
    }
  }

  lemma StrayInside(evs: seq<Event>, j: int)
    requires StrayDispatch(evs, j)
    ensures 0 <= j < |evs|
  {
  }

  lemma NothingUndisturbed(k: nat)
    ensures Undisturbed(k, [])
  {
  }

  lemma NothingStray()
    ensures forall j :: !StrayDispatch([], j)
  {
  }

  lemma StrayFront(evs: seq<Event>)
    requires evs != []
    ensures forall j :: j != |evs| - 1 ==> (StrayDispatch(evs, j) <==> StrayDispatch(evs[..|evs| - 1], j))
  {
    forall j | 0 <= j < |evs| - 1
      ensures StrayDispatch(evs, j) <==> StrayDispatch(evs[..|evs| - 1], j)
    {
      assert evs[..|evs| - 1][..j] == evs[..j];
    }
  }

  /** So without such a dispatch, no pass is told anything else for the no-read passes before it. */
  lemma NoReadsDecideNothing(k: nat, evs: seq<Event>, j: nat, input: SweepHealthInput)
    requires j <= |evs| && forall i :: !StrayDispatch(evs, i)
    ensures Decision(k, Run(k, WithoutNoReads(evs[..j])), input) == Decision(k, Run(k, evs[..j]), input)
  {
    NoReadsDeletable(k, evs);
    assert Undisturbed(k, evs[..j]);
  }

  /** Every dispatch comes after a failed pass of the record, with no drop in between. */
  ghost predicate DispatchesFollowFailures(evs: seq<Event>) {
    forall j :: 0 <= j < |evs| && evs[j].Dispatched? ==>
      exists i :: 0 <= i < j && Failed(evs[i]) && forall q :: i < q < j ==> !evs[q].Cleared?
  }

  /**
   No dispatch that follows a failed pass is stray: neither one for a flagged record, nor one a manual
   Refresh brings about on a single failed pass, below the threshold and with no flag set.
   */
  lemma FailureDispatchesAreNotStray(evs: seq<Event>, j: int)
    requires DispatchesFollowFailures(evs)
    ensures !StrayDispatch(evs, j)
  {
    if 0 <= j < |evs| && evs[j].Dispatched? {
      var i :| 0 <= i < j && Failed(evs[i]) && forall q :: i < q < j ==> !evs[q].Cleared?;
      assert evs[..j][i] == evs[i] && forall q :: i < q < j ==> evs[..j][q] == evs[q];
      assert TrackedOnEvidence(evs[..j]);
    }
  }

  /** A record is flagged only after a failed pass it has not been dropped since. */
  lemma {:induction false} FlagFollowsFailure(k: nat, evs: seq<Event>)
    requires Entered(Run(k, evs)).repairDueLatched
    ensures exists i :: 0 <= i < |evs| && Failed(evs[i]) && forall q :: i < q < |evs| ==> !evs[q].Cleared?
  {
    if evs != [] {
      var n, front := |evs| - 1, evs[..|evs| - 1];
      if !Failed(evs[n]) {
        FlagFollowsFailure(k, front);
        var i :| 0 <= i < n && Failed(front[i]) && forall q :: i < q < n ==> !front[q].Cleared?;
        assert evs[i] == front[i] && forall q :: i < q < n ==> evs[q] == front[q];
      }
    }
  }

  /** So dispatching only for flagged records follows failures. */
  lemma FlaggedDispatchesFollowFailures(k: nat, evs: seq<Event>)
    requires forall j :: 0 <= j < |evs| && evs[j].Dispatched? ==> Entered(Run(k, evs[..j])).repairDueLatched
    ensures DispatchesFollowFailures(evs)
  {
    forall j | 0 <= j < |evs| && evs[j].Dispatched?
      ensures exists i :: 0 <= i < j && Failed(evs[i]) && forall q :: i < q < j ==> !evs[q].Cleared?
    {
      FlagFollowsFailure(k, evs[..j]);
      var i :| 0 <= i < j && Failed(evs[..j][i]) && forall q :: i < q < j ==> !evs[..j][q].Cleared?;
      assert evs[i] == evs[..j][i] && forall q :: i < q < j ==> evs[q] == evs[..j][q];
    }
  }

  function Repeated(input: SweepHealthInput, n: nat): seq<Event> {
    if n == 0 then [] else Repeated(input, n - 1) + [Pass(input)]
  }

  /** A failed pass below the threshold only counts up. */
  lemma CountOne(k: nat, cur: Option<RecordHealth>, input: SweepHealthInput, n: nat, mult: nat)
    requires input.IsFailedPass() && n + 1 < Threshold(k, mult) && Entered(cur) == RecordHealth(n, false, mult)
    ensures Entered(Next(k, cur, Pass(input))) == RecordHealth(n + 1, false, mult)
  {
  }

  lemma {:induction false} CountsUp(k: nat, evs: seq<Event>, input: SweepHealthInput, n: nat, mult: nat)
    requires input.IsFailedPass() && n < Threshold(k, mult) && Entered(Run(k, evs)) == RecordHealth(0, false, mult)
    ensures Entered(Run(k, evs + Repeated(input, n))) == RecordHealth(n, false, mult)
  {
    hide Next, Threshold, Entered;
    if n == 0 {
      assert evs + [] == evs;
    } else {
      CountsUp(k, evs, input, n - 1, mult);
      var before, after := evs + Repeated(input, n - 1), evs + Repeated(input, n);
      assert after == before + [Pass(input)] && after[..|after| - 1] == before;
      CountOne(k, Run(k, before), input, n - 1, mult);
    }
  }

  lemma FailureIsKept(evs: seq<Event>, input: SweepHealthInput)
    requires input.IsFailedPass()
    ensures WithoutNoReads(evs + [Pass(input)]) == WithoutNoReads(evs) + [Pass(input)]
  {
    assert (evs + [Pass(input)])[..|evs|] == evs;
  }

  lemma {:induction false} FailuresAreKept(evs: seq<Event>, input: SweepHealthInput, n: nat)
    requires input.IsFailedPass()
    ensures WithoutNoReads(evs + Repeated(input, n)) == WithoutNoReads(evs) + Repeated(input, n)
  {
    if n == 0 {
      assert evs + [] == evs && WithoutNoReads(evs) + [] == WithoutNoReads(evs);
    } else {
      hide WithoutNoReads;
      FailuresAreKept(evs, input, n - 1);
      FailureIsKept(evs + Repeated(input, n - 1), input);
      assert evs + Repeated(input, n) == evs + Repeated(input, n - 1) + [Pass(input)];
    }
  }

  /** What a stray dispatch leaves: a doubled multiplier, and without the no-reads a bare record. */
  lemma StrayDoubles(k: nat, evs: seq<Event>)
    requires evs != [] && StrayDispatch(evs, |evs| - 1)
    ensures Entered(Run(k, WithoutNoReads(evs))) == FRESH
    ensures exists mult :: mult in {2, 4, 8} && Entered(Run(k, evs)) == RecordHealth(0, false, mult)
  {
    var front := evs[..|evs| - 1];
    var kept := WithoutNoReads(front);
    TrackedIsHistory(k, front);
    TrackedWithoutNoReads(k, front);
    MultiplierBounded(k, front);
    assert (kept + [Dispatched])[..|kept|] == kept;
    var mult := Entered(Run(k, evs)).backoffMult;
    assert mult in {2, 4, 8} && Entered(Run(k, evs)) == RecordHealth(0, false, mult);
  }

  /**
   A stray dispatch tells in the decisions: the first one of a run makes the k-th failed pass in calm
   after it due with the no-read passes deleted, and not due with them.
   */
  lemma StrayDispatchTells(k: nat, evs: seq<Event>, failing: SweepHealthInput)
    requires 0 < k && 2 * k <= U32_MAX && failing.IsFailedPass() && failing.weather.Calm?
    requires evs != [] && StrayDispatch(evs, |evs| - 1)
    ensures var all := evs + Repeated(failing, k - 1);
      Decision(k, Run(k, WithoutNoReads(all)), failing) == RepairDue && Decision(k, Run(k, all), failing) == NotDue
  {
    hide Run, WithoutNoReads, StrayDispatch;
    StrayDoubles(k, evs);
    var mult :| mult in {2, 4, 8} && Entered(Run(k, evs)) == RecordHealth(0, false, mult);
    assert k * mult >= 2 * k && Threshold(k, mult) >= 2 * k && Threshold(k, 1) == k;
    FailuresAreKept(evs, failing, k - 1);
    CountsUp(k, evs, failing, k - 1, mult);
    CountsUp(k, WithoutNoReads(evs), failing, k - 1, 1);
  }

  /** Such a run, with the shipped threshold: one no-read pass, a dispatch, a failure. */
  lemma NoReadThenStrayDispatch(failing: SweepHealthInput, idle: SweepHealthInput)
    requires failing.IsFailedPass() && failing.weather.Calm? && idle.IsNoRead()
    ensures var evs := [Pass(idle), Dispatched, Pass(failing)];
      && Decision(REPAIR_K_THRESHOLD, Run(REPAIR_K_THRESHOLD, evs), failing) == NotDue
      && Decision(REPAIR_K_THRESHOLD, Run(REPAIR_K_THRESHOLD, WithoutNoReads(evs)), failing) == RepairDue
  {
    var stray := [Pass(idle), Dispatched];
    assert stray[..1] == [Pass(idle)] && stray[..1][0].Pass?;
    assert Tracked(stray[..1]) && !TrackedOnEvidence(stray[..1]);
    StrayDispatchTells(REPAIR_K_THRESHOLD, stray, failing);
    assert Repeated(failing, 1) == [Pass(failing)];
    assert stray + [Pass(failing)] == [Pass(idle), Dispatched, Pass(failing)];
  }

  // ---------------------------------------------------------------------------------------------
  // The repair rate
  // ---------------------------------------------------------------------------------------------

  /** Passes told RepairDue. */
  function Signals(k: nat, evs: seq<Event>): nat {
    if evs == [] then 0
    else
      var front, last := evs[..|evs| - 1], evs[|evs| - 1];
      Signals(k, front) + if last.Pass? && Decision(k, Run(k, front), last.input) == RepairDue then 1 else 0
  }

  function CountDispatched(evs: seq<Event>): nat {
    if evs == [] then 0 else CountDispatched(evs[..|evs| - 1]) + if evs[|evs| - 1].Dispatched? then 1 else 0
  }

  /** The failed passes d repairs cost: K, 2K, 4K and from then on 8K each. */
  function Cost(k: nat, d: nat): nat {
    k * (Pow2(Min(d, 4)) - 1 + 8 * (if d > 4 then d - 4 else 0))
  }

  lemma CostStep(k: nat, d: nat)
    ensures Cost(k, d + 1) == Cost(k, d) + k * Pow2(Min(d, 3))
  {
    assert Pow2(1) == 2 && Pow2(2) == 4 && Pow2(3) == 8 && Pow2(4) == 16;
    var c, c' := Pow2(Min(d, 4)) - 1 + 8 * (if d > 4 then d - 4 else 0),
                 Pow2(Min(d + 1, 4)) - 1 + 8 * (if d + 1 > 4 then d + 1 - 4 else 0);
    assert c' == c + Pow2(Min(d, 3));
  }

  /** No success and no drop, and a repair is dispatched only for a record flagged repair-due. */
  ghost predicate Unserved(k: nat, evs: seq<Event>) {
    forall j :: 0 <= j < |evs| ==>
      && !Succeeded(evs[j]) && !evs[j].Cleared?
      && (evs[j].Dispatched? ==> Entered(Run(k, evs[..j])).repairDueLatched)
  }

  /** After `failed` failed passes, `signals` signals and d dispatches: every signal has been paid for. */
  ghost predicate Paid(k: nat, cur: Option<RecordHealth>, failed: nat, signals: nat, d: nat) {
    var r := Entered(cur);
    && r.backoffMult == Pow2(Min(d, 3))
    && signals == d + (if r.repairDueLatched then 1 else 0)
    && failed >= Cost(k, d) + r.consecutiveFailed
    && (r.repairDueLatched ==> r.consecutiveFailed >= k * r.backoffMult)
  }

  lemma PaidStep(k: nat, cur: Option<RecordHealth>, e: Event, failed: nat, signals: nat, d: nat)
    requires 8 * k <= U32_MAX && Paid(k, cur, failed, signals, d)
    requires !Succeeded(e) && !e.Cleared? && (e.Dispatched? ==> Entered(cur).repairDueLatched)
    ensures Paid(k, Next(k, cur, e),
                 failed + if Failed(e) then 1 else 0,
                 signals + if e.Pass? && Decision(k, cur, e.input) == RepairDue then 1 else 0,
                 d + if e.Dispatched? then 1 else 0)
  {
  }

  lemma {:induction false} RateInvariant(k: nat, evs: seq<Event>)
    requires 8 * k <= U32_MAX && Unserved(k, evs)
    ensures Paid(k, Run(k, evs), CountFailed(evs), Signals(k, evs), CountDispatched(evs))
    decreases |evs|
  {
    if evs != [] {
      var front, last := evs[..|evs| - 1], evs[|evs| - 1];
      assert forall j :: 0 <= j < |front| ==> front[j] == evs[j] && front[..j] == evs[..j];
      RateInvariant(k, front);
      PaidStep(k, Run(k, front), last, CountFailed(front), Signals(k, front), CountDispatched(front));
    }
  }

  /** The rate bound: d repairs signalled take at least Cost(d) failed passes. */
  lemma RepairRateBound(k: nat, evs: seq<Event>)
    requires 8 * k <= U32_MAX && Unserved(k, evs)
    ensures CountFailed(evs) >= Cost(k, Signals(k, evs))
  {
    RateInvariant(k, evs);
    CostStep(k, CountDispatched(evs));
  }

  /** Every failed pass is in calm weather, and each repair goes out before it: it finds the record unflagged. */
  ghost predicate PromptInCalm(k: nat, evs: seq<Event>) {
    forall j :: 0 <= j < |evs| && Failed(evs[j]) ==>
      evs[j].input.weather.Calm? && !Entered(Run(k, evs[..j])).repairDueLatched
  }

  /** Paid to the last failure: nothing has been spent beyond the signals but the current streak. */
  ghost predicate PaidExactly(k: nat, cur: Option<RecordHealth>, failed: nat, signals: nat, d: nat) {
    var r := Entered(cur);
    && r.backoffMult == Pow2(Min(d, 3))
    && signals == d + (if r.repairDueLatched then 1 else 0)
    && failed == Cost(k, d) + r.consecutiveFailed
    && (if r.repairDueLatched
        then r.consecutiveFailed == k * r.backoffMult
        else r.consecutiveFailed < k * r.backoffMult)
  }

  lemma PaidExactlyStep(k: nat, cur: Option<RecordHealth>, e: Event, failed: nat, signals: nat, d: nat)
    requires k > 0 && 8 * k <= U32_MAX && PaidExactly(k, cur, failed, signals, d)
    requires !Succeeded(e) && !e.Cleared? && (e.Dispatched? ==> Entered(cur).repairDueLatched)
    requires Failed(e) ==> e.input.weather.Calm? && !Entered(cur).repairDueLatched
    ensures PaidExactly(k, Next(k, cur, e),
                        failed + if Failed(e) then 1 else 0,
                        signals + if e.Pass? && Decision(k, cur, e.input) == RepairDue then 1 else 0,
                        d + if e.Dispatched? then 1 else 0)
  {
    assert Pow2(1) == 2 && Pow2(2) == 4 && Pow2(3) == 8;
    hide Cost;
    CostStep(k, d);
    var mult := Entered(cur).backoffMult;
    assert 0 < k * mult <= 8 * k by {
      assert mult in {1, 2, 4, 8};
    }
    var mult' := Pow2(Min(d + 1, 3));
    assert mult' == if 2 * mult < 8 then 2 * mult else 8;
    assert k * mult' > 0 by {
      assert mult' in {1, 2, 4, 8};
    }
  }

  lemma {:induction false} ExactInvariant(k: nat, evs: seq<Event>)
    requires k > 0 && 8 * k <= U32_MAX && Unserved(k, evs) && PromptInCalm(k, evs)
    ensures PaidExactly(k, Run(k, evs), CountFailed(evs), Signals(k, evs), CountDispatched(evs))
    decreases |evs|
  {
    if evs != [] {
      var front, last := evs[..|evs| - 1], evs[|evs| - 1];
      assert forall j :: 0 <= j < |front| ==> front[j] == evs[j] && front[..j] == evs[..j];
      ExactInvariant(k, front);
      PaidExactlyStep(k, Run(k, front), last, CountFailed(front), Signals(k, front), CountDispatched(front));
    }
  }

  /**
   The bound is met: over any run that only fails, in calm weather, with each repair sent before the next
   failure and no-read passes anywhere, exactly as many repairs are signalled as the failed passes pay for.
   */
  lemma RepairRateIsExact(k: nat, evs: seq<Event>)
    requires k > 0 && 8 * k <= U32_MAX && Unserved(k, evs) && PromptInCalm(k, evs)
    ensures Cost(k, Signals(k, evs)) <= CountFailed(evs) < Cost(k, Signals(k, evs) + 1)
  {
    hide Cost, Run, Signals, CountFailed, CountDispatched;
    ExactInvariant(k, evs);
    var d := CountDispatched(evs);
    CostStep(k, d);
    CostStep(k, d + 1);
    assert k * Pow2(Min(d + 1, 3)) > 0 by {
      assert Pow2(1) == 2 && Pow2(2) == 4 && Pow2(3) == 8;
      assert Pow2(Min(d + 1, 3)) in {1, 2, 4, 8};
    }
  }
}

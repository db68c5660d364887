/**
 Whole runs of the roster in presence.rs. Every fold is gated by the freshness window, as the
 ingest path gates it; each event carries the local instant `now` and the wall clock `wall`.
 */
module PresenceRuns {
  import opened Wrappers
  import opened Clock
  import opened Presence

  datatype Event =
    | Beacon(hb: Heartbeat, now: int, wall: int)
    | Chat(room: string, pubkey: PubKey, handle: string, sent: int, now: int, wall: int)
    | Reap(congested: bool, now: int, wall: int)
  {
    /** The member an event speaks for, when it is a delivery. */
    function Sender(): Option<PubKey> {
      match this
      case Beacon(hb, _, _) => Some(hb.senderPubkey)
      case Chat(_, pk, _, _, _, _) => Some(pk)
      case Reap(_, _, _) => None
    }

    predicate IsLeaveOf(pk: PubKey) {
      Beacon? && hb.isLeave && hb.senderPubkey == pk
    }

    predicate IsWriteOf(pk: PubKey) {
      Sender() == Some(pk) && !IsLeaveOf(pk)
    }

    /** The timestamp signed into a delivery. */
    function Sent(): int
      requires !Reap?
    {
      if Beacon? then hb.sentUnixMs else sent
    }

    /** Whether the ingest path of a tracker for `room` lets a delivery through to the fold. */
    predicate Accepted(scope: Option<string>) {
      && !Reap?
      && BeaconIsFresh(Sent(), wall)
      && (Chat? ==> scope == None || scope == Some(room))
    }
  }

  /** A tracker's fixed parameters. */
  datatype Config = Config(scope: Option<string>, ttl: int)

  function Step(c: Config, r: Roster, e: Event): Roster {
    if e.Reap? then Reaped(r, e.now, e.congested, c.ttl)
    else if !e.Accepted(c.scope) then r
    else if e.Chat? then FoldWrite(r, e.pubkey, e.handle, e.sent, e.now)
    else if e.hb.isLeave then FoldLeave(r, e.hb.senderPubkey, e.hb.sentUnixMs, e.now)
    else FoldWrite(r, e.hb.senderPubkey, e.hb.senderHandle, e.hb.sentUnixMs, e.now)
  }

  function Run(c: Config, r: Roster, evs: seq<Event>): Roster
    decreases |evs|
  {
    if evs == [] then r else Run(c, Step(c, r, evs[0]), evs[1..])
  }

  lemma StepKeepsValid(c: Config, r: Roster, e: Event)
    requires r.Valid()
    ensures Step(c, r, e).Valid()
  {
  }

  lemma {:induction false} RunKeepsValid(c: Config, r: Roster, evs: seq<Event>)
    requires r.Valid()
    ensures Run(c, r, evs).Valid()
    decreases |evs|
  {
    if evs != [] {
      RunKeepsValid(c, Step(c, r, evs[0]), evs[1..]);
    }
  }

  lemma {:induction false} RunSnoc(c: Config, r: Roster, evs: seq<Event>, k: nat)
    requires k < |evs|
    ensures Run(c, r, evs[..k + 1]) == Step(c, Run(c, r, evs[..k]), evs[k])
    decreases |evs|
  {
    if k > 0 {
      RunSnoc(c, Step(c, r, evs[0]), evs[1..], k - 1);
      assert evs[1..][..k] == evs[..k + 1][1..];
      assert evs[1..][..k - 1] == evs[..k][1..];
    }
  }

  // ---------------------------------------------------------------------------------------------
  // Departed stays departed
  // ---------------------------------------------------------------------------------------------

  /** Instants never step back, and the wall clock gains on the local clock or loses by at most `drift`. */
  ghost predicate WallKeepsUp(evs: seq<Event>, drift: int) {
    forall i, j :: 0 <= i < j < |evs| ==>
      && evs[i].now <= evs[j].now
      && evs[j].wall - evs[i].wall >= evs[j].now - evs[i].now - drift
  }

  /** By the time a record taken at `at` expires, a timestamp of at most `t` is no longer fresh. */
  ghost predicate OutlivesFreshness(at: int, t: int, rest: seq<Event>, ttl: int) {
    forall k :: 0 <= k < |rest| && Expired(at, rest[k].now, ttl) ==> t < rest[k].wall - REPLAY_FRESHNESS_PAST
  }

  /** Every row and every mark outlives the freshness of the timestamp it holds. */
  ghost predicate Aged(r: Roster, rest: seq<Event>, ttl: int) {
    && (forall pk :: pk in r.members ==>
          OutlivesFreshness(r.members[pk].lastSeen, r.members[pk].beaconUnixMs, rest, ttl))
    && (forall pk :: pk in r.departed ==>
          OutlivesFreshness(r.departed[pk].at, r.departed[pk].leaveMs, rest, ttl))
  }

  /**
   A write of `pk` dated at or before `limit` can do nothing: a mark dominates it, a fresher row
   orders it out, or it will never be fresh again.
   */
  ghost predicate Settled(r: Roster, pk: PubKey, limit: int, rest: seq<Event>) {
    || (pk in r.departed && limit <= r.departed[pk].leaveMs)
    || (pk in r.members && limit < r.members[pk].beaconUnixMs)
    || (forall k :: 0 <= k < |rest| ==> limit < rest[k].wall - REPLAY_FRESHNESS_PAST)
  }

  /** The margin that makes it work: a record's lifetime exceeds the freshness window plus the drift. */
  ghost predicate TtlCoversWindow(ttl: int, drift: int) {
    drift >= 0 && ttl > REPLAY_FRESHNESS_PAST + REPLAY_FRESHNESS_FUTURE + drift
  }

  /** A timestamp accepted at the head of a run is stale before a record taken there expires. */
  lemma FreshStampOutlived(evs: seq<Event>, t: int, ttl: int, drift: int)
    requires evs != [] && WallKeepsUp(evs, drift) && TtlCoversWindow(ttl, drift)
    requires BeaconIsFresh(t, evs[0].wall)
    ensures OutlivesFreshness(evs[0].now, t, evs[1..], ttl)
  {
  }

  lemma TailKeepsUp(evs: seq<Event>, drift: int)
    requires evs != [] && WallKeepsUp(evs, drift)
    ensures WallKeepsUp(evs[1..], drift)
  {
  }

  lemma OutlivesTail(at: int, t: int, evs: seq<Event>, ttl: int)
    requires evs != [] && OutlivesFreshness(at, t, evs, ttl)
    ensures OutlivesFreshness(at, t, evs[1..], ttl)
  {
  }

  lemma AgedStep(c: Config, r: Roster, evs: seq<Event>, drift: int)
    requires evs != [] && WallKeepsUp(evs, drift) && TtlCoversWindow(c.ttl, drift)
    requires Aged(r, evs, c.ttl)
    ensures Aged(Step(c, r, evs[0]), evs[1..], c.ttl)
  {
    var e, after := evs[0], Step(c, r, evs[0]);
    if !e.Reap? && BeaconIsFresh(e.Sent(), e.wall) {
      FreshStampOutlived(evs, e.Sent(), c.ttl, drift);
    }
    forall pk | pk in r.members
      ensures OutlivesFreshness(r.members[pk].lastSeen, r.members[pk].beaconUnixMs, evs[1..], c.ttl)
    {
      OutlivesTail(r.members[pk].lastSeen, r.members[pk].beaconUnixMs, evs, c.ttl);
    }
    forall pk | pk in r.departed
      ensures OutlivesFreshness(r.departed[pk].at, r.departed[pk].leaveMs, evs[1..], c.ttl)
    {
      OutlivesTail(r.departed[pk].at, r.departed[pk].leaveMs, evs, c.ttl);
    }
  }

  /** Once a row or mark that held `limit` back has expired, so has the freshness of `limit`. */
  lemma ExpiryEndsFreshness(at: int, t: int, limit: int, evs: seq<Event>, ttl: int, drift: int)
    requires evs != [] && WallKeepsUp(evs, drift)
    requires OutlivesFreshness(at, t, evs, ttl) && limit <= t && Expired(at, evs[0].now, ttl)
    requires ttl > 0
    ensures forall k :: 0 <= k < |evs| ==> limit < evs[k].wall - REPLAY_FRESHNESS_PAST
  {
  }

  lemma SettledStep(c: Config, r: Roster, pk: PubKey, limit: int, evs: seq<Event>, drift: int)
    requires evs != [] && r.Valid() && WallKeepsUp(evs, drift) && TtlCoversWindow(c.ttl, drift)
    requires Aged(r, evs, c.ttl) && Settled(r, pk, limit, evs)
    ensures Settled(Step(c, r, evs[0]), pk, limit, evs[1..])
    ensures evs[0].IsWriteOf(pk) && evs[0].Sent() <= limit ==> Step(c, r, evs[0]) == r
  {
    var e := evs[0];
    if e.Reap? && !e.congested {
      if pk in r.departed && limit <= r.departed[pk].leaveMs && Expired(r.departed[pk].at, e.now, c.ttl) {
        ExpiryEndsFreshness(r.departed[pk].at, r.departed[pk].leaveMs, limit, evs, c.ttl, drift);
      }
      if pk in r.members && limit < r.members[pk].beaconUnixMs && Expired(r.members[pk].lastSeen, e.now, c.ttl) {
        ExpiryEndsFreshness(r.members[pk].lastSeen, r.members[pk].beaconUnixMs, limit, evs, c.ttl, drift);
      }
    }
    assert forall k :: 0 <= k < |evs[1..]| ==> evs[1..][k] == evs[k + 1];
  }

  lemma {:induction false} SettledForever(c: Config, r: Roster, pk: PubKey, limit: int, evs: seq<Event>, j: nat,
                                          drift: int)
    requires j < |evs| && r.Valid() && WallKeepsUp(evs, drift) && TtlCoversWindow(c.ttl, drift)
    requires Aged(r, evs, c.ttl) && Settled(r, pk, limit, evs)
    requires evs[j].IsWriteOf(pk) && evs[j].Sent() <= limit
    ensures Run(c, r, evs[..j + 1]) == Run(c, r, evs[..j])
    decreases |evs|
  {
    hide Step, Aged, Settled, WallKeepsUp;
    SettledStep(c, r, pk, limit, evs, drift);
    AgedStep(c, r, evs, drift);
    StepKeepsValid(c, r, evs[0]);
    TailKeepsUp(evs, drift);
    if j > 0 {
      SettledForever(c, Step(c, r, evs[0]), pk, limit, evs[1..], j - 1, drift);
      assert evs[1..][..j] == evs[..j + 1][1..];
      assert evs[1..][..j - 1] == evs[..j][1..];
    }
  }

  lemma {:induction false} AgedRun(c: Config, r: Roster, evs: seq<Event>, i: nat, drift: int)
    requires i <= |evs| && r.Valid() && WallKeepsUp(evs, drift) && TtlCoversWindow(c.ttl, drift)
    requires Aged(r, evs, c.ttl)
    ensures Aged(Run(c, r, evs[..i]), evs[i..], c.ttl) && WallKeepsUp(evs[i..], drift)
    decreases |evs|
  {
    if i > 0 {
      AgedStep(c, r, evs, drift);
      TailKeepsUp(evs, drift);
      AgedRun(c, Step(c, r, evs[0]), evs[1..], i - 1, drift);
      assert evs[1..][..i - 1] == evs[..i][1..];
      assert evs[1..][i - 1..] == evs[i..];
    } else {
      assert evs[..0] == [] && evs[0..] == evs;
    }
  }

  lemma {:induction false} RunSplit(c: Config, r: Roster, evs: seq<Event>, i: nat, j: nat)
    requires i <= j <= |evs|
    ensures Run(c, r, evs[..j]) == Run(c, Run(c, r, evs[..i]), evs[i..j])
    decreases |evs|
  {
    if i > 0 {
      RunSplit(c, Step(c, r, evs[0]), evs[1..], i - 1, j - 1);
      assert evs[1..][..j - 1] == evs[..j][1..];
      assert evs[1..][..i - 1] == evs[..i][1..];
      assert evs[1..][i - 1..j - 1] == evs[i..j];
    } else {
      assert evs[0..j] == evs[..j] && evs[..0] == [];
    }
  }

  /** A leave that is let in settles every write dated at or before it. */
  lemma LeaveSettles(c: Config, r: Roster, e: Event, pk: PubKey, rest: seq<Event>)
    requires e.IsLeaveOf(pk) && e.Accepted(c.scope)
    ensures Settled(Step(c, r, e), pk, e.Sent(), rest)
  {
  }

  /**
   Departed stays departed. In every run from an empty tracker, once a leave of `pk` dated L has been
   let in at position i, any later write of `pk` dated at or before L leaves the whole roster as it
   was, however beacons, leaves, reaps and mark prunes are interleaved in between.
   */
  lemma DepartedStaysDeparted(c: Config, evs: seq<Event>, i: nat, j: nat, pk: PubKey, drift: int)
    requires i < j < |evs| && WallKeepsUp(evs, drift) && TtlCoversWindow(c.ttl, drift)
    requires evs[i].IsLeaveOf(pk) && evs[i].Accepted(c.scope)
    requires evs[j].IsWriteOf(pk) && evs[j].Sent() <= evs[i].Sent()
    ensures Run(c, EMPTY, evs[..j + 1]) == Run(c, EMPTY, evs[..j])
  {
    hide Step, Run, Aged, Settled, WallKeepsUp;
    var limit := evs[i].Sent();
    var before, after := Run(c, EMPTY, evs[..i]), Run(c, EMPTY, evs[..i + 1]);
    AgedAtStart(evs, c.ttl);
    AgedRun(c, EMPTY, evs, i + 1, drift);
    RunSnoc(c, EMPTY, evs, i);
    RunKeepsValid(c, EMPTY, evs[..i + 1]);
    LeaveSettles(c, before, evs[i], pk, evs[i + 1..]);
    SettledForever(c, after, pk, limit, evs[i + 1..], j - i - 1, drift);
    RunSplit(c, EMPTY, evs, i + 1, j);
    RunSplit(c, EMPTY, evs, i + 1, j + 1);
    assert evs[i + 1..][..j - i - 1] == evs[i + 1..j];
    assert evs[i + 1..][..j - i] == evs[i + 1..j + 1];
  }

  lemma AgedAtStart(evs: seq<Event>, ttl: int)
    ensures Aged(EMPTY, evs, ttl)
  {
  }

  /** A leave dated at the future edge, a calm reap one TTL later, and the same timestamp replayed. */
  function ReplayAfterPrune(pk: PubKey, ttl: int, drift: int): seq<Event> {
    [Beacon(Heartbeat(pk, "a", REPLAY_FRESHNESS_FUTURE, true), 0, 0),
     Reap(false, ttl, ttl - drift),
     Beacon(Heartbeat(pk, "a", REPLAY_FRESHNESS_FUTURE, false), ttl, ttl - drift)]
  }

  /** Whatever the TTL, the member is back exactly when the TTL does not cover the window and the drift. */
  lemma DriftBoundIsSharp(c: Config, pk: PubKey, drift: int)
    requires 0 <= drift <= c.ttl
    ensures WallKeepsUp(ReplayAfterPrune(pk, c.ttl, drift), drift)
    ensures pk in Run(c, EMPTY, ReplayAfterPrune(pk, c.ttl, drift)).members <==> !TtlCoversWindow(c.ttl, drift)
    ensures pk !in Run(c, EMPTY, ReplayAfterPrune(pk, c.ttl, drift)[..2]).members
  {
    var evs := ReplayAfterPrune(pk, c.ttl, drift);
    assert evs[..3] == evs && evs[..0] == [];
    RunSnoc(c, EMPTY, evs, 0);
    RunSnoc(c, EMPTY, evs, 1);
    RunSnoc(c, EMPTY, evs, 2);
  }

  /** A run in which a write no newer than an accepted leave changes the roster. */
  ghost predicate Returns(c: Config, evs: seq<Event>, i: nat, j: nat, pk: PubKey, drift: int) {
    && i < j < |evs| && WallKeepsUp(evs, drift)
    && evs[i].IsLeaveOf(pk) && evs[i].Accepted(c.scope)
    && evs[j].IsWriteOf(pk) && evs[j].Sent() <= evs[i].Sent()
    && Run(c, EMPTY, evs[..j + 1]) != Run(c, EMPTY, evs[..j])
  }

  /** For every TTL and every drift: departed stays departed in all runs exactly when the TTL covers both. */
  lemma DepartedStaysIffTtlCovers(c: Config, drift: int)
    requires c.ttl >= 0 && drift >= 0
    ensures (forall evs, i, j, pk :: !Returns(c, evs, i, j, pk, drift)) <==> TtlCoversWindow(c.ttl, drift)
  {
    if TtlCoversWindow(c.ttl, drift) {
      forall evs, i, j, pk
        ensures !Returns(c, evs, i, j, pk, drift)
      {
        if Returns(c, evs, i, j, pk, drift) {
          DepartedStaysDeparted(c, evs, i, j, pk, drift);
          assert false;
        }
      }
    } else {
      var lag, pk := if drift < c.ttl then drift else c.ttl, [];
      var evs := ReplayAfterPrune(pk, c.ttl, lag);
      DriftBoundIsSharp(c, pk, lag);
      assert evs[..3] == evs;
      assert Returns(c, evs, 0, 2, pk, drift);
    }
  }

  /** So with the shipped TTL the theorem holds at every drift below 240 s and at no other. */
  lemma ShippedTtlCoversWindow(scope: Option<string>, drift: int)
    requires drift >= 0
    ensures (forall evs, i, j, pk :: !Returns(Config(scope, PRESENCE_TTL), evs, i, j, pk, drift)) <==> drift < 240_000
  {
    DepartedStaysIffTtlCovers(Config(scope, PRESENCE_TTL), drift);
  }

  // ---------------------------------------------------------------------------------------------
  // A silent member is off the roster
  // ---------------------------------------------------------------------------------------------

  /** Instants never step back, and the wall clock gains on the local clock by at most `drift`. */
  ghost predicate WallRunsAhead(evs: seq<Event>, drift: int) {
    forall i, j :: 0 <= i < j < |evs| ==>
      evs[i].now <= evs[j].now && evs[j].wall - evs[i].wall <= evs[j].now - evs[i].now + drift
  }

  /** Every write of `pk` in the run is signed at or before `s`. */
  ghost predicate LastSigned(evs: seq<Event>, pk: PubKey, s: int) {
    forall k :: 0 <= k < |evs| && evs[k].IsWriteOf(pk) ==> evs[k].Sent() <= s
  }

  /** From `deadline` on the wall clock, `pk`'s row is overdue. */
  ghost predicate OverdueBy(r: Roster, pk: PubKey, rest: seq<Event>, deadline: int, ttl: int) {
    pk in r.members ==>
      forall k :: 0 <= k < |rest| && rest[k].wall >= deadline ==> Expired(r.members[pk].lastSeen, rest[k].now, ttl)
  }

  lemma OverdueStep(c: Config, r: Roster, evs: seq<Event>, pk: PubKey, s: int, drift: int)
    requires evs != [] && WallRunsAhead(evs, drift) && LastSigned(evs, pk, s) && c.ttl > 0
    requires OverdueBy(r, pk, evs, s + REPLAY_FRESHNESS_PAST + c.ttl + drift, c.ttl)
    ensures WallRunsAhead(evs[1..], drift) && LastSigned(evs[1..], pk, s)
    ensures OverdueBy(Step(c, r, evs[0]), pk, evs[1..], s + REPLAY_FRESHNESS_PAST + c.ttl + drift, c.ttl)
  {
    var rest, after := evs[1..], Step(c, r, evs[0]);
    assert forall n :: 0 <= n < |rest| ==> rest[n] == evs[n + 1];
    forall n | pk in after.members && 0 <= n < |rest| && rest[n].wall >= s + REPLAY_FRESHNESS_PAST + c.ttl + drift
      ensures Expired(after.members[pk].lastSeen, rest[n].now, c.ttl)
    {
      assert evs[0].now <= evs[n + 1].now;
      assert evs[n + 1].wall - evs[0].wall <= evs[n + 1].now - evs[0].now + drift;
    }
  }

  lemma {:induction false} OverdueRun(c: Config, r: Roster, evs: seq<Event>, k: nat, pk: PubKey, s: int, drift: int)
    requires k <= |evs| && WallRunsAhead(evs, drift) && LastSigned(evs, pk, s) && c.ttl > 0
    requires OverdueBy(r, pk, evs, s + REPLAY_FRESHNESS_PAST + c.ttl + drift, c.ttl)
    ensures OverdueBy(Run(c, r, evs[..k]), pk, evs[k..], s + REPLAY_FRESHNESS_PAST + c.ttl + drift, c.ttl)
    decreases |evs|
  {
    hide Step, OverdueBy, WallRunsAhead, LastSigned;
    if k == 0 {
      assert evs[..0] == [] && evs[0..] == evs;
    } else {
      var rest := evs[1..];
      OverdueStep(c, r, evs, pk, s, drift);
      OverdueRun(c, Step(c, r, evs[0]), rest, k - 1, pk, s, drift);
      assert rest[..k - 1] == evs[..k][1..];
      assert rest[k - 1..] == evs[k..];
    }
  }

  /**
   If every write of `pk` in a run is signed at or before s, then `pk` is off the roster after every
   calm reap whose wall clock reads s + 300 s + ttl (+ drift) or later.
   */
  lemma SilentMemberIsReaped(c: Config, evs: seq<Event>, k: nat, pk: PubKey, s: int, drift: int)
    requires k < |evs| && WallRunsAhead(evs, drift) && LastSigned(evs, pk, s) && c.ttl > 0
    requires evs[k].Reap? && !evs[k].congested
    requires evs[k].wall >= s + 300_000 + c.ttl + drift
    ensures pk !in Run(c, EMPTY, evs[..k + 1]).members
  {
    OverdueRun(c, EMPTY, evs, k, pk, s, drift);
    assert evs[k..][0] == evs[k];
    RunSnoc(c, EMPTY, evs, k);
  }

  /** With the shipped TTL that is 900 s after the last signature, and no less: a millisecond before, it can be live. */
  lemma SilenceIsFifteenMinutes(c: Config, pk: PubKey, handle: string, s: int, at: int)
    requires c.ttl == PRESENCE_TTL
    ensures var evs := [Beacon(Heartbeat(pk, handle, s, false), 0, s + 300_000), Reap(false, at, s + 300_000 + at)];
      pk in Run(c, EMPTY, evs).members <==> evs[1].wall < s + 900_000
  {
    var evs := [Beacon(Heartbeat(pk, handle, s, false), 0, s + 300_000), Reap(false, at, s + 300_000 + at)];
    assert evs[..2] == evs && evs[..0] == [];
    RunSnoc(c, EMPTY, evs, 0);
    RunSnoc(c, EMPTY, evs, 1);
  }

  /** The window is closed at both ends: five minutes back, one minute ahead. */
  lemma FreshnessWindow(sent: int, now: int)
    ensures BeaconIsFresh(sent, now) <==> -300_000 <= sent - now <= 60_000
  {
  }

  /**
   What one reap does to one member. A congested one changes nothing; a calm one keeps exactly the rows
   heard, and the marks recorded, less than a TTL ago, and keeps them as they are.
   */
  lemma ReapKeepsTheRecent(r: Roster, now: int, congested: bool, ttl: int, pk: PubKey)
    requires ttl > 0
    ensures var after := Reaped(r, now, congested, ttl);
      && (pk in after.members <==> pk in r.members && (congested || now - r.members[pk].lastSeen < ttl))
      && (pk in after.departed <==> pk in r.departed && (congested || now - r.departed[pk].at < ttl))
      && (pk in after.members ==> after.members[pk] == r.members[pk])
      && (pk in after.departed ==> after.departed[pk] == r.departed[pk])
  {
  }

  // ---------------------------------------------------------------------------------------------
  // Where a row and a mark come from
  // ---------------------------------------------------------------------------------------------

  /** The handle a write carries. */
  function HandleOf(e: Event): string
    requires !e.Reap?
  {
    if e.Beacon? then e.hb.senderHandle else e.handle
  }

  /** The row is what write j said when it was heard, and no write of the member as new has been let in since. */
  ghost predicate RowFrom(c: Config, evs: seq<Event>, k: nat, j: int, pk: PubKey, row: LiveMember)
    requires k <= |evs|
  {
    && 0 <= j < k && evs[j].IsWriteOf(pk) && evs[j].Accepted(c.scope)
    && row.handle == HandleOf(evs[j]) && row.pubkey == pk
    && row.beaconUnixMs == evs[j].Sent() && row.lastSeen == evs[j].now
    && forall m :: j < m < k && evs[m].IsWriteOf(pk) && evs[m].Accepted(c.scope) ==> evs[m].Sent() < row.beaconUnixMs
  }

  /** The mark is what leave j said when it was heard, and no leave of the member as late has been let in since. */
  ghost predicate MarkFrom(c: Config, evs: seq<Event>, k: nat, j: int, pk: PubKey, mark: DepartedMark)
    requires k <= |evs|
  {
    && 0 <= j < k && evs[j].IsLeaveOf(pk) && evs[j].Accepted(c.scope)
    && mark.leaveMs == evs[j].Sent() && mark.at == evs[j].now
    && forall m :: j < m < k && evs[m].IsLeaveOf(pk) && evs[m].Accepted(c.scope) ==> evs[m].Sent() < mark.leaveMs
  }

  lemma StepKeepsOrigin(c: Config, r: Roster, e: Event, pk: PubKey)
    requires r.Valid()
    ensures pk in Step(c, r, e).members ==>
              var row := Step(c, r, e).members[pk];
              || (&& e.IsWriteOf(pk) && e.Accepted(c.scope)
                  && row.handle == HandleOf(e) && row.pubkey == pk
                  && row.beaconUnixMs == e.Sent() && row.lastSeen == e.now)
              || (&& pk in r.members && row == r.members[pk]
                  && (e.IsWriteOf(pk) && e.Accepted(c.scope) ==> e.Sent() < row.beaconUnixMs))
    ensures pk in Step(c, r, e).departed ==>
              var mark := Step(c, r, e).departed[pk];
              || (e.IsLeaveOf(pk) && e.Accepted(c.scope) && mark.leaveMs == e.Sent() && mark.at == e.now)
              || (&& pk in r.departed && mark == r.departed[pk]
                  && (e.IsLeaveOf(pk) && e.Accepted(c.scope) ==> e.Sent() < mark.leaveMs))
  {
  }

  /** In every run, each live row shows the last write let in that was as new, and each mark the last leave as late. */
  lemma {:induction false} RosterShowsLastHeard(c: Config, evs: seq<Event>, k: nat, pk: PubKey)
    requires k <= |evs|
    ensures var r := Run(c, EMPTY, evs[..k]);
      && (pk in r.members ==> exists j :: RowFrom(c, evs, k, j, pk, r.members[pk]))
      && (pk in r.departed ==> exists j :: MarkFrom(c, evs, k, j, pk, r.departed[pk]))
  {
    hide Step, BeaconIsFresh;
    if k > 0 {
      var before, e := Run(c, EMPTY, evs[..k - 1]), evs[k - 1];
      var after := Step(c, before, e);
      RunSnoc(c, EMPTY, evs, k - 1);
      RunKeepsValid(c, EMPTY, evs[..k - 1]);
      RosterShowsLastHeard(c, evs, k - 1, pk);
      StepKeepsOrigin(c, before, e, pk);
      if pk in after.members {
        if !RowFrom(c, evs, k, k - 1, pk, after.members[pk]) {
          var j :| RowFrom(c, evs, k - 1, j, pk, before.members[pk]);
          assert RowFrom(c, evs, k, j, pk, after.members[pk]);
        }
      }
      if pk in after.departed {
        if !MarkFrom(c, evs, k, k - 1, pk, after.departed[pk]) {
          var j :| MarkFrom(c, evs, k - 1, j, pk, before.departed[pk]);
          assert MarkFrom(c, evs, k, j, pk, after.departed[pk]);
        }
      }
    }
  }

  // ---------------------------------------------------------------------------------------------
  // A member that is heard stays
  // ---------------------------------------------------------------------------------------------

  /** `pk` is live, on the word of a write dated `sent` or later, heard at `at` or later. */
  ghost predicate Heard(r: Roster, pk: PubKey, sent: int, at: int) {
    pk in r.members && r.members[pk].beaconUnixMs >= sent && r.members[pk].lastSeen >= at
  }

  /** The event can take off the roster a member on the word of that write. */
  ghost predicate Takes(c: Config, e: Event, pk: PubKey, sent: int, at: int) {
    || (e.IsLeaveOf(pk) && e.Accepted(c.scope) && e.Sent() >= sent)
    || (e.Reap? && !e.congested && e.now - at >= c.ttl)
  }

  lemma {:induction false} HeardUntilTaken(c: Config, r: Roster, evs: seq<Event>, pk: PubKey, sent: int, at: int)
    requires Heard(r, pk, sent, at) && c.ttl > 0
    requires forall k :: 0 <= k < |evs| ==> evs[k].now >= at && !Takes(c, evs[k], pk, sent, at)
    ensures Heard(Run(c, r, evs), pk, sent, at)
    decreases |evs|
  {
    if evs != [] {
      assert !Takes(c, evs[0], pk, sent, at);
      HeardUntilTaken(c, Step(c, r, evs[0]), evs[1..], pk, sent, at);
    }
  }

  /**
   A write let in that outranks what the roster knew puts its sender on the roster, and there the sender
   stays until a leave no older than the write is let in, or a calm reap comes a whole TTL after it was
   heard: no other member, no stale leave and no congested reap can take it off.
   */
  lemma HeardMemberStays(c: Config, r: Roster, evs: seq<Event>, pk: PubKey)
    requires r.Valid() && c.ttl > 0 && evs != [] && evs[0].IsWriteOf(pk) && evs[0].Accepted(c.scope)
    requires AtMost(StatusOf(r, pk), Present(evs[0].Sent()))
    requires forall k :: 1 <= k < |evs| ==>
               evs[k].now >= evs[0].now && !Takes(c, evs[k], pk, evs[0].Sent(), evs[0].now)
    ensures Heard(Run(c, r, evs), pk, evs[0].Sent(), evs[0].now)
  {
    var rest := evs[1..];
    assert forall k :: 0 <= k < |rest| ==> rest[k] == evs[k + 1];
    HeardUntilTaken(c, Step(c, r, evs[0]), rest, pk, evs[0].Sent(), evs[0].now);
  }

  // ---------------------------------------------------------------------------------------------
  // Convergence
  // ---------------------------------------------------------------------------------------------

  /** What a roster says of one member, leaving out handles and local receive times. */
  datatype Status = Unknown | Present(beaconMs: int) | Gone(leaveMs: int)

  function StatusOf(r: Roster, pk: PubKey): Status {
    if pk in r.departed then Gone(r.departed[pk].leaveMs)
    else if pk in r.members then Present(r.members[pk].beaconUnixMs)
    else Unknown
  }

  /** Later wins; at equal times a leave ranks above a write. */
  predicate AtMost(a: Status, b: Status) {
    match (a, b)
    case (Unknown, _) => true
    case (_, Unknown) => false
    case (Present(s), Present(t)) => s <= t
    case (Gone(s), Gone(t)) => s <= t
    case (Present(s), Gone(t)) => s <= t
    case (Gone(s), Present(t)) => s < t
  }

  /** What one accepted delivery claims of its sender. */
  function Claim(e: Event): Status
    requires !e.Reap?
  {
    if e.Beacon? && e.hb.isLeave then Gone(e.Sent()) else Present(e.Sent())
  }

  /** Everything the run's accepted deliveries claim of `pk`. */
  ghost function Claims(c: Config, evs: seq<Event>, pk: PubKey): set<Status> {
    set k | 0 <= k < |evs| && evs[k].Accepted(c.scope) && evs[k].Sender() == Some(pk) :: Claim(evs[k])
  }

  ghost predicate IsGreatest(s: Status, claims: set<Status>) {
    s in claims && forall t :: t in claims ==> AtMost(t, s)
  }

  /** What the head of a run claims of `pk`. */
  ghost function HeadClaim(c: Config, e: Event, pk: PubKey): set<Status> {
    if e.Accepted(c.scope) && e.Sender() == Some(pk) then {Claim(e)} else {}
  }

  lemma ClaimsCons(c: Config, evs: seq<Event>, pk: PubKey)
    requires evs != []
    ensures Claims(c, evs, pk) == HeadClaim(c, evs[0], pk) + Claims(c, evs[1..], pk)
  {
  }

  lemma StepTakesGreatest(c: Config, r: Roster, e: Event, pk: PubKey)
    requires r.Valid() && !e.Reap?
    ensures IsGreatest(StatusOf(Step(c, r, e), pk), {StatusOf(r, pk)} + HeadClaim(c, e, pk))
  {
  }

  lemma GreatestOfUnion(mid: Status, s: Status, start: Status, head: set<Status>, rest: set<Status>)
    requires IsGreatest(mid, {start} + head) && IsGreatest(s, {mid} + rest)
    ensures IsGreatest(s, {start} + head + rest)
  {
    forall t | t in {start} + head
      ensures AtMost(t, s)
    {
      assert AtMost(t, mid) && AtMost(mid, s);
    }
  }

  lemma {:induction false} StatusIsGreatestClaim(c: Config, r: Roster, evs: seq<Event>, pk: PubKey)
    requires r.Valid() && forall k :: 0 <= k < |evs| ==> !evs[k].Reap?
    ensures IsGreatest(StatusOf(Run(c, r, evs), pk), {StatusOf(r, pk)} + Claims(c, evs, pk))
    decreases |evs|
  {
    if evs != [] {
      var rest, after := evs[1..], Step(c, r, evs[0]);
      assert after.Valid();
      StatusIsGreatestClaim(c, after, rest, pk);
      StepTakesGreatest(c, r, evs[0], pk);
      ClaimsCons(c, evs, pk);
      GreatestOfUnion(StatusOf(after, pk), StatusOf(Run(c, r, evs), pk), StatusOf(r, pk),
                      HeadClaim(c, evs[0], pk), Claims(c, rest, pk));
      assert {StatusOf(r, pk)} + Claims(c, evs, pk)
          == {StatusOf(r, pk)} + HeadClaim(c, evs[0], pk) + Claims(c, rest, pk);
    }
  }

  /** Without reaping, a member's status is the greatest claim delivered for it, or unknown if none was. */
  lemma RosterIsGreatestClaim(c: Config, evs: seq<Event>, pk: PubKey)
    requires forall k :: 0 <= k < |evs| ==> !evs[k].Reap?
    ensures IsGreatest(StatusOf(Run(c, EMPTY, evs), pk), {Unknown} + Claims(c, evs, pk))
  {
    StatusIsGreatestClaim(c, EMPTY, evs, pk);
  }

  /**
   Convergence. Two runs that let in the same claims for every member, in any order and with any
   repeats, end with the same members live at the same beacon times and the same leave marks, and
   nobody both live and departed.
   */
  lemma RostersConverge(c: Config, left: seq<Event>, right: seq<Event>)
    requires forall k :: 0 <= k < |left| ==> !left[k].Reap?
    requires forall k :: 0 <= k < |right| ==> !right[k].Reap?
    requires forall pk :: Claims(c, left, pk) == Claims(c, right, pk)
    ensures var l, r := Run(c, EMPTY, left), Run(c, EMPTY, right);
      && l.members.Keys == r.members.Keys
      && l.departed.Keys == r.departed.Keys
      && l.members.Keys !! l.departed.Keys
      && (forall pk :: pk in l.members ==> l.members[pk].beaconUnixMs == r.members[pk].beaconUnixMs)
      && (forall pk :: pk in l.departed ==> l.departed[pk].leaveMs == r.departed[pk].leaveMs)
  {
    var l, r := Run(c, EMPTY, left), Run(c, EMPTY, right);
    RunKeepsValid(c, EMPTY, left);
    RunKeepsValid(c, EMPTY, right);
    forall pk: PubKey
      ensures StatusOf(l, pk) == StatusOf(r, pk)
    {
      RosterIsGreatestClaim(c, left, pk);
      RosterIsGreatestClaim(c, right, pk);
    }
    assert forall pk :: pk in l.members <==> StatusOf(l, pk).Present?;
    assert forall pk :: pk in r.members <==> StatusOf(r, pk).Present?;
    assert forall pk :: pk in l.departed <==> StatusOf(l, pk).Gone?;
    assert forall pk :: pk in r.departed <==> StatusOf(r, pk).Gone?;
  }
}

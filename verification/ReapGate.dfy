/**
 The reap-suspension gate of presence.rs (a hysteresis band plus a resume grace) over whole runs of
 observations, and the uniform-band interval draw.
 */
module ReapGate {
  import opened Wrappers
  import opened Clock
  import opened Presence

  /** Upper band, lower band and resume grace: 8 s, 4 s, 220 s. */
  const REAP_CONGESTION_THRESHOLD: int := 8_000
  const REAP_CALM_THRESHOLD: int := 4_000
  const REAP_RESUME_GRACE: int := 220_000

  datatype GateState = GateState(elevated: bool, calmSince: Option<int>)

  const CALM_GATE := GateState(false, None)

  datatype Observation = Observation(weatherMs: nat, now: int)

  function Observed(g: GateState, o: Observation): GateState {
    if g.elevated && o.weatherMs <= REAP_CALM_THRESHOLD then GateState(false, Some(o.now))
    else if !g.elevated && o.weatherMs >= REAP_CONGESTION_THRESHOLD then GateState(true, None)
    else g
  }

  predicate Suspends(g: GateState, now: int) {
    g.elevated || (g.calmSince.Some? && !Expired(g.calmSince.value, now, REAP_RESUME_GRACE))
  }

  class Gate {
    var elevated: bool
    var calmSince: Option<int>

    function State(): GateState
      reads this
    {
      GateState(elevated, calmSince)
    }

    constructor ()
      ensures State() == CALM_GATE
    {
      elevated, calmSince := false, None;
    }

    method Observe(weatherMs: nat, now: int)
      modifies this
      ensures State() == Observed(old(State()), Observation(weatherMs, now))
    {
      if elevated {
        if weatherMs <= REAP_CALM_THRESHOLD {
          elevated := false;
          calmSince := Some(now);
        }
      } else if weatherMs >= REAP_CONGESTION_THRESHOLD {
        elevated := true;
        calmSince := None;
      }
    }

    method SuspendReaping(now: int) returns (suspend: bool)
      ensures suspend == Suspends(State(), now)
    {
      if elevated {
        return true;
      }
      match calmSince {
        case Some(c) => suspend := !Expired(c, now, REAP_RESUME_GRACE);
        case None => suspend := false;
      }
    }
  }

  /** A fresh gate fed `obs` in order. */
  function GateRun(obs: seq<Observation>): GateState {
    if obs == [] then CALM_GATE else Observed(GateRun(obs[..|obs| - 1]), obs[|obs| - 1])
  }

  // ---------------------------------------------------------------------------------------------
  // The same gate read off the history alone
  // ---------------------------------------------------------------------------------------------

  /** Some observation reached the upper band and none since has come down to the lower one. */
  ghost predicate StillHot(obs: seq<Observation>) {
    exists i :: 0 <= i < |obs| && obs[i].weatherMs >= 8_000
      && forall j :: i < j < |obs| ==> obs[j].weatherMs > 4_000
  }

  /** Observation i is the one that brought a hot regime back to calm. */
  ghost predicate Crossing(obs: seq<Observation>, i: int) {
    0 <= i < |obs| && StillHot(obs[..i]) && obs[i].weatherMs <= 4_000
  }

  ghost predicate InOrder(obs: seq<Observation>) {
    forall i, j :: 0 <= i < j < |obs| ==> obs[i].now <= obs[j].now
  }

  lemma StillHotSnoc(obs: seq<Observation>)
    requires obs != []
    ensures var o, front := obs[|obs| - 1], obs[..|obs| - 1];
      StillHot(obs) <==> o.weatherMs >= 8_000
                         || (StillHot(front) && o.weatherMs > 4_000)
  {
  }

  lemma {:induction false} ElevatedIffStillHot(obs: seq<Observation>)
    ensures GateRun(obs).elevated <==> StillHot(obs)
  {
    if obs != [] {
      ElevatedIffStillHot(obs[..|obs| - 1]);
      StillHotSnoc(obs);
    }
  }

  /** In calm, the stamp is the time of the latest crossing, and there is none before the first. */
  lemma {:induction false} StampIsLatestCrossing(obs: seq<Observation>)
    ensures GateRun(obs).elevated ==> GateRun(obs).calmSince == None
    ensures !GateRun(obs).elevated && GateRun(obs).calmSince == None ==> forall i :: !Crossing(obs, i)
    ensures GateRun(obs).calmSince.Some? ==>
              exists i :: Crossing(obs, i) && GateRun(obs).calmSince.value == obs[i].now
                && forall j :: Crossing(obs, j) ==> j <= i
  {
    if obs != [] {
      var n, front := |obs| - 1, obs[..|obs| - 1];
      StampIsLatestCrossing(front);
      ElevatedIffStillHot(front);
      assert forall i :: 0 <= i < n ==> obs[..i] == front[..i] && obs[i] == front[i];
      assert forall i :: i != n ==> (Crossing(obs, i) <==> Crossing(front, i));
      if GateRun(front).elevated && obs[n].weatherMs <= 4_000 {
        assert Crossing(obs, n);
      } else if GateRun(front).calmSince.Some? && GateRun(obs).calmSince.Some? {
        var i :| Crossing(front, i) && GateRun(front).calmSince.value == front[i].now
          && forall j :: Crossing(front, j) ==> j <= i;
        assert Crossing(obs, i) && !Crossing(obs, n);
      }
    }
  }

  /**
   Reaping is suspended at `now` exactly when the regime is still hot, or some hot-to-calm crossing
   lies less than 220 s back.
   */
  lemma SuspensionIsHistory(obs: seq<Observation>, now: int)
    requires InOrder(obs)
    ensures Suspends(GateRun(obs), now) <==>
              StillHot(obs) || exists i :: Crossing(obs, i) && now - obs[i].now < 220_000
  {
    ElevatedIffStillHot(obs);
    StampIsLatestCrossing(obs);
    var g := GateRun(obs);
    if g.calmSince.Some? {
      var last :| Crossing(obs, last) && g.calmSince.value == obs[last].now
        && forall j :: Crossing(obs, j) ==> j <= last;
      LatestIsNearest(obs, last, now);
    }
  }

  lemma LatestIsNearest(obs: seq<Observation>, last: int, now: int)
    requires InOrder(obs) && Crossing(obs, last) && forall j :: Crossing(obs, j) ==> j <= last
    ensures (exists i :: Crossing(obs, i) && now - obs[i].now < 220_000)
              <==> now - obs[last].now < 220_000
  {
  }

  /** The tick the clients run: observe, then reap unless suspended. */
  function Tick(r: Roster, obs: seq<Observation>, o: Observation, ttl: int): Roster {
    Reaped(r, o.now, Suspends(GateRun(obs + [o]), o.now), ttl)
  }

  /**
   A tick removes a member only when it is overdue, the regime as observed is not hot, and every
   crossing lies at least 220 s back; while it is held back instead, the roster is flagged stale.
   */
  lemma TickReapsOnlyInCalm(r: Roster, obs: seq<Observation>, o: Observation, ttl: int, pk: PubKey)
    requires InOrder(obs + [o]) && pk in r.members
    ensures pk !in Tick(r, obs, o, ttl).members <==>
              && Expired(r.members[pk].lastSeen, o.now, ttl)
              && !StillHot(obs + [o])
              && forall i :: Crossing(obs + [o], i) ==> o.now - (obs + [o])[i].now >= 220_000
    ensures Expired(r.members[pk].lastSeen, o.now, ttl) && pk in Tick(r, obs, o, ttl).members ==>
              Suspends(GateRun(obs + [o]), o.now) && StaleIn(Tick(r, obs, o, ttl), o.now, ttl)
  {
    SuspensionIsHistory(obs + [o], o.now);
    if Expired(r.members[pk].lastSeen, o.now, ttl) && pk in Tick(r, obs, o, ttl).members {
      assert pk !in Reaped(r, o.now, false, ttl).members;
    }
  }
}

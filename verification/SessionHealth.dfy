/**
 The session-health tracker of crates/daemonseed-core/src/session_health.rs: a run of failed passes
 in calm weather flags a record repair-due, and each repair dispatched doubles the wait for the next.
 */
module SessionHealth {
  import opened Wrappers

  const U32_MAX: nat := 0xFFFF_FFFF
  const REPAIR_K_THRESHOLD: nat := 2
  const REPAIR_BACKOFF_CAP: nat := 8

  datatype Weather = Calm | Elevated

  datatype WatchState = Unknown | Live | Dead

  datatype SweepHealthInput = SweepHealthInput(
    attempted: nat, failed: nat, found: nat, watch: WatchState, weather: Weather)
  {
    predicate IsFailedPass() {
      watch.Dead? || (attempted > 0 && found == 0 && failed > 0)
    }

    /** A pass that read nothing, over a watch not known dead. */
    predicate IsNoRead() {
      attempted == 0 && !watch.Dead?
    }
  }

  datatype RepairDecision = NotDue | Suppressed | RepairDue

  datatype RecordHealth = RecordHealth(consecutiveFailed: nat, repairDueLatched: bool, backoffMult: nat)

  const FRESH := RecordHealth(0, false, 1)

  /** A 32-bit saturating result. */
  function Sat(n: nat): nat {
    if n > U32_MAX then U32_MAX else n
  }

  /** The failed passes in a row that make a record repair-due. */
  function Threshold(k: nat, mult: nat): nat {
    Sat(k * mult)
  }

  function Entered(cur: Option<RecordHealth>): RecordHealth {
    if cur.Some? then cur.value else FRESH
  }

  function Decision(k: nat, cur: Option<RecordHealth>, input: SweepHealthInput): RepairDecision {
    var r := Entered(cur);
    if !input.IsFailedPass() || Sat(r.consecutiveFailed + 1) < Threshold(k, r.backoffMult) || r.repairDueLatched
    then NotDue
    else if input.weather.Calm? then RepairDue else Suppressed
  }

  datatype Event = Pass(input: SweepHealthInput) | Dispatched | Cleared

  function Next(k: nat, cur: Option<RecordHealth>, e: Event): Option<RecordHealth> {
    match e
    case Cleared => None
    case Dispatched =>
      if cur == None then None
      else
        var twice := Sat(cur.value.backoffMult * 2);
        Some(RecordHealth(0, false, if twice < REPAIR_BACKOFF_CAP then twice else REPAIR_BACKOFF_CAP))
    case Pass(input) =>
      var r := Entered(cur);
      if input.IsNoRead() then Some(r)
      else if !input.IsFailedPass() then Some(FRESH)
      else Some(RecordHealth(Sat(r.consecutiveFailed + 1),
                             r.repairDueLatched || Decision(k, cur, input) == RepairDue,
                             r.backoffMult))
  }

  function At<Key, V>(m: map<Key, V>, key: Key): Option<V> {
    if key in m then Some(m[key]) else None
  }

  function Put<Key, V>(m: map<Key, V>, key: Key, v: Option<V>): map<Key, V> {
    if v.Some? then m[key := v.value] else m - {key}
  }

  class SessionHealthTracker<Key(==)> {
    var records: map<Key, RecordHealth>
    const kThreshold: nat

    constructor ()
      ensures records == map[] && kThreshold == REPAIR_K_THRESHOLD == 2
    {
      records := map[];
      kThreshold := REPAIR_K_THRESHOLD;
    }

    constructor WithThreshold(k: nat)
      ensures records == map[] && kThreshold == k
    {
      records := map[];
      kThreshold := k;
    }

    method Observe(key: Key, input: SweepHealthInput) returns (decision: RepairDecision)
      modifies this
      ensures records == Put(old(records), key, Next(kThreshold, At(old(records), key), Pass(input)))
      ensures decision == Decision(kThreshold, At(old(records), key), input)
    {
      if key !in records {
        records := records[key := FRESH];
      }
      var entry := records[key];
      if input.attempted == 0 && !input.watch.Dead? {
        return NotDue;
      }
      if !input.IsFailedPass() {
        records := records[key := FRESH];
        return NotDue;
      }
      var k := Sat(kThreshold * entry.backoffMult);
      entry := entry.(consecutiveFailed := Sat(entry.consecutiveFailed + 1));
      records := records[key := entry];
      if entry.consecutiveFailed < k {
        return NotDue;
      }
      if entry.repairDueLatched {
        return NotDue;
      }
      match input.weather {
        case Calm =>
          records := records[key := entry.(repairDueLatched := true)];
          decision := RepairDue;
        case Elevated =>
          decision := Suppressed;
      }
    }

    method NoteRepairDispatched(key: Key)
      modifies this
      ensures records == Put(old(records), key, Next(kThreshold, At(old(records), key), Dispatched))
    {
      if key in records {
        var twice := Sat(records[key].backoffMult * 2);
        var mult := if twice < REPAIR_BACKOFF_CAP then twice else REPAIR_BACKOFF_CAP;
        records := records[key := RecordHealth(0, false, mult)];
      }
    }

    method Clear(key: Key)
      modifies this
      ensures records == Put(old(records), key, Next(kThreshold, At(old(records), key), Cleared))
    {
      records := records - {key};
    }

    method IsRepairDue(key: Key) returns (due: bool)
      ensures due <==> Entered(At(records, key)).repairDueLatched
    {
      due := key in records && records[key].repairDueLatched;
    }
  }
}

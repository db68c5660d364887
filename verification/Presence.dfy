/**
 The member roster of crates/daemonseed-core/src/presence.rs: beacons, chat writes and leave
 tombstones fold into a map of live members, and a periodic reap ages the silent ones out.

 `Roster` is the value a tracker holds. `PresenceTracker` is the object that updates it in place;
 each of its methods is tied to a function on `Roster`, and the theorems are about those functions.
 Instants and wall-clock readings are both integers counting milliseconds.
 */
module Presence {
  import opened Wrappers
  import opened Bytes
  import opened Clock

  type PubKey = seq<Byte>

  /** Liveness TTL: 600 s. */
  const PRESENCE_TTL: int := 600_000
  /** How far in the past a beacon may be dated and still be folded: 300 s. */
  const REPLAY_FRESHNESS_PAST: int := 300_000
  /** How far in the future a beacon may be dated and still be folded: 60 s. */
  const REPLAY_FRESHNESS_FUTURE: int := 60_000

  datatype LiveMember = LiveMember(handle: string, pubkey: PubKey, beaconUnixMs: int, lastSeen: int)

  /** A leave-dominance mark: the advisory leave time, and the local instant it was recorded. */
  datatype DepartedMark = DepartedMark(leaveMs: int, at: int)

  datatype PresenceChange = Appeared | Refreshed | Departed | Unchanged

  datatype Heartbeat = Heartbeat(senderPubkey: PubKey, senderHandle: string, sentUnixMs: int, isLeave: bool)

  datatype Roster = Roster(members: map<PubKey, LiveMember>, departed: map<PubKey, DepartedMark>) {
    /** Each row is filed under its own key, and nobody is both live and departed. */
    ghost predicate Valid() {
      && (forall pk :: pk in members ==> members[pk].pubkey == pk)
      && members.Keys !! departed.Keys
    }
  }

  const EMPTY := Roster(map[], map[])

  /** The ingest gate: a timestamp is fresh inside [now - PAST, now + FUTURE]. */
  predicate BeaconIsFresh(sentUnixMs: int, nowUnixMs: int) {
    nowUnixMs - REPLAY_FRESHNESS_PAST <= sentUnixMs <= nowUnixMs + REPLAY_FRESHNESS_FUTURE
  }

  // ---------------------------------------------------------------------------------------------
  // What the folds do to a roster
  // ---------------------------------------------------------------------------------------------

  /** The roster after a write of `pk` signed at `sent` is folded at `now`. */
  function FoldWrite(r: Roster, pk: PubKey, handle: string, sent: int, now: int): Roster {
    if pk in r.departed && sent <= r.departed[pk].leaveMs then
      r
    else
      var marks := r.departed - {pk};
      if pk in r.members && sent < r.members[pk].beaconUnixMs then
        Roster(r.members, marks)
      else
        Roster(r.members[pk := LiveMember(handle, pk, sent, now)], marks)
  }

  /** The roster after a leave of `pk` dated `leaveMs` is folded at `now`. */
  function FoldLeave(r: Roster, pk: PubKey, leaveMs: int, now: int): Roster {
    if pk in r.members && leaveMs < r.members[pk].beaconUnixMs then
      r
    else if pk in r.departed && leaveMs < r.departed[pk].leaveMs then
      Roster(r.members - {pk}, r.departed)
    else
      Roster(r.members - {pk}, r.departed[pk := DepartedMark(leaveMs, now)])
  }

  /** The roster after a reap: a congested one changes nothing, a calm one drops what has expired. */
  function Reaped(r: Roster, now: int, congested: bool, ttl: int): Roster {
    if congested then
      r
    else
      Roster(map pk | pk in r.members && !Expired(r.members[pk].lastSeen, now, ttl) :: r.members[pk],
             map pk | pk in r.departed && !Expired(r.departed[pk].at, now, ttl) :: r.departed[pk])
  }

  /** The live tracker of one room. */
  class PresenceTracker {
    var members: map<PubKey, LiveMember>
    var departed: map<PubKey, DepartedMark>
    const room: Option<string>
    const ttl: int

    function Contents(): Roster
      reads this
    {
      Roster(members, departed)
    }

    ghost predicate Valid()
      reads this
    {
      Contents().Valid()
    }

    /** A tracker that folds writes of any room. */
    constructor (ttl: int)
      ensures Valid() && Contents() == EMPTY && room == None && this.ttl == ttl
    {
      members, departed := map[], map[];
      this.room, this.ttl := None, ttl;
    }

    /** A tracker that refuses a member write tagged with another room. */
    constructor ForRoom(room: string, ttl: int)
      ensures Valid() && Contents() == EMPTY && this.room == Some(room) && this.ttl == ttl
    {
      members, departed := map[], map[];
      this.room, this.ttl := Some(room), ttl;
    }

    /** Fold a verified heartbeat. */
    method Apply(hb: Heartbeat, now: int) returns (change: PresenceChange)
      requires Valid()
      modifies this
      ensures Valid()
      ensures hb.isLeave ==> Contents() == FoldLeave(old(Contents()), hb.senderPubkey, hb.sentUnixMs, now)
      ensures !hb.isLeave ==>
                Contents() == FoldWrite(old(Contents()), hb.senderPubkey, hb.senderHandle, hb.sentUnixMs, now)
      ensures change == Departed <==> hb.senderPubkey in old(members) && hb.senderPubkey !in members
      ensures change == Appeared <==> hb.senderPubkey !in old(members) && hb.senderPubkey in members
      ensures change == Refreshed <==> !hb.isLeave && hb.senderPubkey in old(members)
                                       && hb.sentUnixMs >= old(members)[hb.senderPubkey].beaconUnixMs
    {
      if hb.isLeave {
        change := ApplyLeave(hb.senderPubkey, hb.sentUnixMs, now);
      } else {
        change := FoldWriteInPlace(hb.senderPubkey, hb.senderHandle, hb.sentUnixMs, now);
      }
    }

    /** Fold a verified chat write tagged with `writeRoom`. */
    method ApplyMemberWrite(writeRoom: string, pk: PubKey, handle: string, sent: int, now: int)
      returns (change: PresenceChange)
      requires Valid()
      modifies this
      ensures Valid()
      ensures room.Some? && room.value != writeRoom ==> change == Unchanged && Contents() == old(Contents())
      ensures !(room.Some? && room.value != writeRoom) ==>
                Contents() == FoldWrite(old(Contents()), pk, handle, sent, now)
      ensures change == Appeared <==> pk !in old(members) && pk in members
      ensures change != Departed
    {
      if room.Some? && room.value != writeRoom {
        return Unchanged;
      }
      change := FoldWriteInPlace(pk, handle, sent, now);
    }

    method FoldWriteInPlace(pk: PubKey, handle: string, sent: int, now: int) returns (change: PresenceChange)
      requires Valid()
      modifies this
      ensures Valid()
      ensures Contents() == FoldWrite(old(Contents()), pk, handle, sent, now)
      ensures change == Appeared <==> pk !in old(members) && pk in members
      ensures change == Refreshed <==> pk in old(members) && sent >= old(members)[pk].beaconUnixMs
      ensures change != Departed && members.Keys >= old(members.Keys)
    {
      if pk in departed {
        if sent <= departed[pk].leaveMs {
          return Unchanged;
        }
      }
      departed := departed - {pk};
      if pk in members {
        var cur := members[pk];
        if sent < cur.beaconUnixMs {
          return Unchanged;
        }
        members := members[pk := cur.(handle := handle, beaconUnixMs := sent, lastSeen := now)];
        return Refreshed;
      }
      members := members[pk := LiveMember(handle, pk, sent, now)];
      change := Appeared;
    }

    method ApplyLeave(pk: PubKey, leaveMs: int, now: int) returns (change: PresenceChange)
      requires Valid()
      modifies this
      ensures Valid()
      ensures Contents() == FoldLeave(old(Contents()), pk, leaveMs, now)
      ensures change == if pk in old(members) && pk !in members then Departed else Unchanged
      ensures pk !in old(members) ==> pk !in members
    {
      if pk in members && leaveMs < members[pk].beaconUnixMs {
        return Unchanged;
      }
      if pk !in departed {
        departed := departed[pk := DepartedMark(leaveMs, now)];
      }
      if leaveMs >= departed[pk].leaveMs {
        departed := departed[pk := DepartedMark(leaveMs, now)];
      }
      change := if pk in members then Departed else Unchanged;
      members := members - {pk};
    }

    /** Age out expired members and marks; the members aged out are returned, each once. */
    method Reap(now: int, congested: bool) returns (reaped: seq<LiveMember>)
      requires Valid()
      modifies this
      ensures Valid()
      ensures Contents() == Reaped(old(Contents()), now, congested, ttl)
      ensures forall m :: m in reaped <==> m.pubkey in old(members) && m.pubkey !in members
                                            && m == old(members)[m.pubkey]
      ensures forall i, j :: 0 <= i < j < |reaped| ==> reaped[i] != reaped[j]
      ensures StaleIn(old(Contents()), now, ttl) && !congested <==> reaped != []
    {
      hide StaleIn, Expired;
      reaped := [];
      if congested {
        return;
      }
      departed := map pk | pk in departed && !Expired(departed[pk].at, now, ttl) :: departed[pk];
      var todo := members.Keys;
      var kept: map<PubKey, LiveMember> := map[];
      while todo != {}
        invariant todo <= members.Keys
        invariant kept
               == map pk | pk in members && pk !in todo && !Expired(members[pk].lastSeen, now, ttl) :: members[pk]
        invariant forall m :: m in reaped <==>
                    m.pubkey in members && m.pubkey !in todo && Expired(m.lastSeen, now, ttl) && m == members[m.pubkey]
        invariant forall i, j :: 0 <= i < j < |reaped| ==> reaped[i] != reaped[j]
        invariant unchanged(`members)
        decreases |todo|
      {
        var pk :| pk in todo;
        todo := todo - {pk};
        if Expired(members[pk].lastSeen, now, ttl) {
          reaped := reaped + [members[pk]];
        } else {
          kept := kept[pk := members[pk]];
        }
      }
      assert StaleIn(old(Contents()), now, ttl) <==> reaped != [] by {
        StaleIffExpired(old(Contents()), now, ttl);
        assert reaped != [] ==> reaped[0] in reaped;
        assert forall pk :: pk in members && Expired(members[pk].lastSeen, now, ttl) ==> members[pk] in reaped;
      }
      members := kept;
    }

    /** Whether a suspended reap is holding an overdue member visible. */
    method StaleSuspected(now: int, congested: bool) returns (stale: bool)
      ensures stale <==> congested && StaleIn(Contents(), now, ttl)
    {
      stale := congested && exists pk | pk in members :: Expired(members[pk].lastSeen, now, ttl);
    }
  }

  /** Some member would be removed by a calm reap at `now`. */
  ghost predicate StaleIn(r: Roster, now: int, ttl: int) {
    exists pk | pk in r.members :: pk !in Reaped(r, now, false, ttl).members
  }

  lemma StaleIffExpired(r: Roster, now: int, ttl: int)
    ensures StaleIn(r, now, ttl) <==> exists pk :: pk in r.members && Expired(r.members[pk].lastSeen, now, ttl)
  {
  }
}

/**
  The presence registry of one user: the register, unregister and heartbeat handlers of
  `backend/src/api/websocket_core.rs` and the count of `backend/src/realtime/cluster_limits.rs`,
  over a set key and heartbeat keys that expire. Each handler is one step without store errors.
 */
module PresenceSpec {
  import opened Wrappers

  const TTL: int := 90

  type Conn = string

  /** The connection set with its expiry, and the expiry of each heartbeat key. */
  datatype Registry = Registry(members: set<Conn>, setExpires: int, beats: map<Conn, int>)

  const EMPTY := Registry({}, 0, map[])

  function Present(r: Registry, now: int): set<Conn> {
    if now < r.setExpires then r.members else {}
  }

  predicate Beating(r: Registry, c: Conn, now: int) {
    c in r.beats && now < r.beats[c]
  }

  datatype Event =
    | Touch(c: Conn, at: int)
    | Unregister(c: Conn, at: int)
    | Count(at: int)

  /** Registering and heartbeating do the same. */
  function AfterTouch(r: Registry, c: Conn, now: int): Registry {
    Registry(Present(r, now) + {c}, now + 2 * TTL, r.beats[c := now + TTL])
  }

  function AfterUnregister(r: Registry, c: Conn, now: int): Registry {
    var left := Present(r, now) - {c};
    Registry(left, if left == {} then now else now + 2 * TTL, r.beats - {c})
  }

  function Active(r: Registry, now: int): set<Conn> {
    set c | c in Present(r, now) && Beating(r, c, now)
  }

  /** Counting drops connections without a heartbeat. */
  function AfterCount(r: Registry, now: int): Registry {
    if Present(r, now) == {} then r
    else if Active(r, now) == {} then Registry({}, now, r.beats)
    else Registry(Active(r, now), now + 2 * TTL, r.beats)
  }

  function Step(r: Registry, e: Event): Registry {
    match e
    case Touch(c, at) => AfterTouch(r, c, at)
    case Unregister(c, at) => AfterUnregister(r, c, at)
    case Count(at) => AfterCount(r, at)
  }

  function Run(es: seq<Event>): Registry {
    if es == [] then EMPTY else Step(Run(es[..|es| - 1]), es[|es| - 1])
  }

  predicate Ordered(es: seq<Event>) {
    forall i, j :: 0 <= i < j < |es| ==> es[i].at <= es[j].at
  }

  // ------------------------------------------------------------------------- history

  /** When `c` was last registered or heartbeat, unless it has unregistered since. */
  function LastTouch(es: seq<Event>, c: Conn): Option<int> {
    if es == [] then None else
      match es[|es| - 1]
      case Touch(x, at) => if x == c then Some(at) else LastTouch(es[..|es| - 1], c)
      case Unregister(x, _) => if x == c then None else LastTouch(es[..|es| - 1], c)
      case Count(_) => LastTouch(es[..|es| - 1], c)
  }

  predicate RecentlyTouched(es: seq<Event>, c: Conn, now: int) {
    LastTouch(es, c).Some? && now < LastTouch(es, c).value + 90
  }
}

module PresenceTheorems {
  import opened Wrappers
  import opened PresenceSpec

  /** Every live heartbeat belongs to a member, under a set key that outlives it by a whole TTL. */
  ghost predicate Inv(r: Registry, now: int) {
    && (forall c :: c in r.beats ==> r.beats[c] <= now + TTL)
    && (forall c :: Beating(r, c, now) ==> c in r.members && r.beats[c] + TTL <= r.setExpires)
  }

  lemma {:induction false} StepKeeps(r: Registry, now: int, e: Event)
    requires Inv(r, now) && now <= e.at
    ensures Inv(Step(r, e), e.at)
  {
  }

  lemma TouchedIsActive(r: Registry, c: Conn, now: int)
    ensures c in Active(AfterTouch(r, c, now), now)
  {
  }

  function Clock(es: seq<Event>): int {
    if es == [] then 0 else es[|es| - 1].at
  }

  /** In every run, at every later time, the registry invariant holds. */
  lemma {:induction false} RegistryInvariant(es: seq<Event>, now: int)
    requires Ordered(es) && (es != [] ==> Clock(es) <= now)
    ensures Inv(Run(es), now)
    ensures forall c :: Beating(Run(es), c, now) ==>
              c in Present(Run(es), now) && Run(es).beats[c] + 90 <= Run(es).setExpires
  {
    if es != [] {
      var before, e := es[..|es| - 1], es[|es| - 1];
      RegistryInvariant(before, e.at);
      StepKeeps(Run(before), e.at, e);
      forall c | Beating(Run(es), c, now) ensures c in Run(es).members && Run(es).beats[c] + TTL <= Run(es).setExpires {
        assert Beating(Run(es), c, e.at);
      }
    }
  }

  lemma {:induction false} BeatsAreTouches(es: seq<Event>, c: Conn)
    ensures c in Run(es).beats <==> LastTouch(es, c).Some?
    ensures c in Run(es).beats ==> Run(es).beats[c] == LastTouch(es, c).value + TTL
  {
    if es != [] {
      BeatsAreTouches(es[..|es| - 1], c);
    }
  }

  /** A connection is registered, with a live heartbeat, exactly while less than 90 seconds have
      passed since its last touch and it has not unregistered, whatever the other connections do. */
  lemma {:induction false} RegisteredExactly(es: seq<Event>, c: Conn, now: int)
    requires Ordered(es) && (es != [] ==> Clock(es) <= now)
    ensures RecentlyTouched(es, c, now) <==> Beating(Run(es), c, now)
    ensures RecentlyTouched(es, c, now) <==> c in Active(Run(es), now)
  {
    BeatsAreTouches(es, c);
    RegistryInvariant(es, now);
  }

  predicate Touches(es: seq<Event>, c: Conn, i: nat) {
    i < |es| && es[i].Touch? && es[i].c == c
  }

  /** From its touch at `b` on, `c` does not unregister, and each of its touches before the one at `l`
      is followed by another within 90 seconds. Nothing is said about other connections. */
  ghost predicate KeepsBeating(es: seq<Event>, c: Conn, b: nat, l: nat) {
    && b <= l && Touches(es, c, b) && Touches(es, c, l)
    && (forall i :: b <= i < |es| ==> !(es[i].Unregister? && es[i].c == c))
    && (forall i :: b <= i < l && Touches(es, c, i) ==> TouchedShortlyAfter(es, c, i, l))
  }

  ghost predicate TouchedShortlyAfter(es: seq<Event>, c: Conn, i: nat, l: nat)
    requires i < |es|
  {
    exists j :: i < j <= l && Touches(es, c, j) && es[j].at - es[i].at < 90
  }

  /** The latest touch is the one remembered. */
  lemma {:induction false} LatestTouch(es: seq<Event>, c: Conn, b: nat) returns (i: nat)
    requires Touches(es, c, b) && forall k :: b <= k < |es| ==> !(es[k].Unregister? && es[k].c == c)
    ensures b <= i && Touches(es, c, i) && LastTouch(es, c) == Some(es[i].at)
    ensures forall k :: i < k < |es| ==> !Touches(es, c, k)
  {
    var before := es[..|es| - 1];
    i := |es| - 1;
    if !Touches(es, c, i) {
      i := LatestTouch(before, c, b);
      assert forall k :: 0 <= k < |before| ==> Touches(es, c, k) == Touches(before, c, k);
    }
  }

  lemma {:induction false} StillRecent(es: seq<Event>, c: Conn, b: nat, l: nat, n: nat, now: int)
    requires Ordered(es) && KeepsBeating(es, c, b, l) && b < n <= |es|
    requires (n < |es| ==> now <= es[n].at) && now < es[l].at + 90
    ensures RecentlyTouched(es[..n], c, now)
  {
    var past := es[..n];
    var i := LatestTouch(past, c, b);
    assert Touches(es, c, i);
    if i < l {
      var j :| i < j <= l && Touches(es, c, j) && es[j].at - es[i].at < TTL;
      assert j < n ==> Touches(past, c, j);
      assert es[n].at <= es[j].at;
    }
  }

  /** A connection that keeps heartbeating with gaps under 90 seconds is registered from its first
      touch on, at every moment until 90 seconds after its last, whatever other connections do. */
  lemma {:induction false} StaysRegistered(es: seq<Event>, c: Conn, b: nat, l: nat, n: nat, now: int)
    requires Ordered(es) && KeepsBeating(es, c, b, l) && b < n <= |es|
    requires es[n - 1].at <= now && (n < |es| ==> now <= es[n].at) && now < es[l].at + 90
    ensures c in Active(Run(es[..n]), now)
  {
    StillRecent(es, c, b, l, n, now);
    RegisteredExactly(es[..n], c, now);
  }
}

module Presence {
  import opened Wrappers
  import opened Strings
  import opened PresenceSpec
  import opened PresenceTheorems

  /** The stored keys of one user. `trace` records the steps taken so far. */
  class PresenceRegistry {
    var members: set<Conn>
    var setExpires: int
    var beats: map<Conn, int>
    ghost var trace: seq<Event>

    ghost predicate Valid()
      reads this
    {
      Ordered(trace) && Run(trace) == Registry(members, setExpires, beats)
    }

    ghost predicate Later(now: int)
      reads this
    {
      trace != [] ==> Clock(trace) <= now
    }

    constructor ()
      ensures Valid() && trace == []
    {
      members, setExpires, beats, trace := {}, 0, map[], [];
    }

    ghost method Record(e: Event)
      requires Ordered(trace) && Later(e.at)
      modifies this`trace
      ensures trace == old(trace) + [e] && Ordered(trace) && Run(trace) == Step(Run(old(trace)), e)
    {
      trace := trace + [e];
      assert trace[..|trace| - 1] == old(trace);
      assert old(trace) != [] ==> forall i :: 0 <= i < |old(trace)| - 1 ==> old(trace)[i].at <= old(trace)[|old(trace)| - 1].at;
    }

    /** `register_presence_connection` */
    method Register(connection: string, now: int)
      requires Valid() && Later(now)
      modifies this
      ensures Valid()
      ensures trace == if Trim(connection) == "" then old(trace) else old(trace) + [Touch(Trim(connection), now)]
      ensures Trim(connection) != "" ==>
                && members == (if old(setExpires) <= now then {} else old(members)) + {Trim(connection)}
                && setExpires == now + 180 && beats == old(beats)[Trim(connection) := now + 90]
      ensures Trim(connection) != "" ==> Trim(connection) in Active(Run(trace), now)
    {
      var id := Trim(connection);
      if id == "" {
        return;
      }
      if setExpires <= now {
        members := {};
      }
      members := members + {id};
      beats := beats[id := now + TTL];
      setExpires := now + 2 * TTL;
      Record(Touch(id, now));
      TouchedIsActive(Run(old(trace)), id, now);
    }

    /** `heartbeat_presence_connection` */
    method Heartbeat(connection: string, now: int)
      requires Valid() && Later(now)
      modifies this
      ensures Valid()
      ensures trace == if Trim(connection) == "" then old(trace) else old(trace) + [Touch(Trim(connection), now)]
      ensures Trim(connection) != "" ==>
                && members == (if old(setExpires) <= now then {} else old(members)) + {Trim(connection)}
                && setExpires == now + 180 && beats == old(beats)[Trim(connection) := now + 90]
    {
      Register(connection, now);
    }

    /** `unregister_presence_connection` */
    method UnregisterConnection(connection: string, now: int)
      requires Valid() && Later(now)
      modifies this
      ensures Valid()
      ensures trace == if Trim(connection) == "" then old(trace) else old(trace) + [Unregister(Trim(connection), now)]
      ensures Trim(connection) != "" ==>
                && members == (if old(setExpires) <= now then {} else old(members)) - {Trim(connection)}
                && setExpires == (if members == {} then now else now + 180) && beats == old(beats) - {Trim(connection)}
    {
      var id := Trim(connection);
      if id == "" {
        return;
      }
      members := if setExpires <= now then {} else members;
      members := members - {id};
      beats := beats - {id};
      if members == {} {
        setExpires := now;
      } else {
        setExpires := now + 2 * TTL;
      }
      Record(Unregister(id, now));
    }

    /** `get_global_connection_count`: exactly the connections touched within the last 90 seconds and
        not unregistered since. */
    method GlobalConnectionCount(now: int) returns (count: nat)
      requires Valid() && Later(now)
      modifies this
      ensures Valid() && trace == old(trace) + [Count(now)]
      ensures count == |Active(Run(old(trace)), now)| && beats == old(beats)
      ensures now < old(setExpires) && old(members) != {} ==>
                && members == (set c | c in old(members) && c in beats && now < beats[c])
                && setExpires == if members == {} then now else now + 180
      ensures forall c :: c in Active(Run(old(trace)), now) <==> RecentlyTouched(old(trace), c, now)
    {
      forall c ensures c in Active(Run(trace), now) <==> RecentlyTouched(trace, c, now) {
        RegisteredExactly(trace, c, now);
      }
      var connections := if setExpires <= now then {} else members;
      if connections == {} {
        assert Active(Run(trace), now) == {};
        Record(Count(now));
        return 0;
      }
      var rest, active: set<Conn> := connections, {};
      while rest != {}
        invariant rest <= connections
        invariant active == set c | c in connections - rest && c in beats && now < beats[c]
        decreases rest
      {
        var c :| c in rest;
        rest := rest - {c};
        if c in beats && now < beats[c] {
          active := active + {c};
        }
      }
      assert active == Active(Run(trace), now);
      members := active;
      if active != {} {
        setExpires := now + 2 * TTL;
      } else {
        setExpires := now;
      }
      count := |active|;
      Record(Count(now));
    }
  }
}

/** Takeover gateway: follow the external target while it is fresh, fall back when it is not. */
module Gateway {
  import opened Common

  datatype State = FollowingExternal | SelfConsumption

  datatype Transition = Takeover | Release

  datatype External = External(target: real, at: real)

  datatype WatchdogState = WatchdogState(state: State, last: Option<External>, takeovers: nat)

  datatype TickResult = TickResult(state: State, effective: real, activeSource: int,
                                   transition: Option<Transition>, age: Option<real>)

  datatype Config = Config(timeout: real, selfConsumption: real)

  predicate Fresh(c: Config, last: Option<External>, now: real) {
    last.Some? && now - last.value.at < c.timeout
  }

  function Effective(c: Config, last: Option<External>, now: real): real {
    if Fresh(c, last, now) then last.value.target else c.selfConsumption
  }

  function TransitionOf(before: State, after: State): Option<Transition> {
    if before == after then None else if after == SelfConsumption then Some(Takeover) else Some(Release)
  }

  function WatchdogTick(c: Config, s: WatchdogState, now: real): WatchdogState {
    var next := if Fresh(c, s.last, now) then FollowingExternal else SelfConsumption;
    s.(state := next, takeovers := s.takeovers + if TransitionOf(s.state, next) == Some(Takeover) then 1 else 0)
  }

  class Watchdog {
    const cfg: Config
    var state: State
    var last: Option<External>
    var takeoverCount: nat

    constructor (cfg: Config)
      ensures this.cfg == cfg && Snapshot() == WatchdogState(SelfConsumption, None, 0)
    {
      this.cfg := cfg;
      state, last, takeoverCount := SelfConsumption, None, 0;
    }

    function Snapshot(): WatchdogState reads this { WatchdogState(state, last, takeoverCount) }

    method OnExternal(target: real, now: real)
      modifies this`last
      ensures last == Some(External(target, now))
    {
      last := Some(External(target, now));
    }

    method Tick(now: real) returns (r: TickResult)
      modifies this`state, this`takeoverCount
      ensures Snapshot() == WatchdogTick(cfg, old(Snapshot()), now)
      ensures r == TickResult(state, Effective(cfg, last, now), if state == FollowingExternal then 1 else 0,
                              TransitionOf(old(state), state), if last.Some? then Some(now - last.value.at) else None)
    {
      var prev := state;
      state := if Fresh(cfg, last, now) then FollowingExternal else SelfConsumption;
      var transition: Option<Transition> := None;
      if state != prev {
        if state == SelfConsumption {
          takeoverCount := takeoverCount + 1;
          transition := Some(Takeover);
        } else {
          transition := Some(Release);
        }
      }
      r := TickResult(state, Effective(cfg, last, now), if state == FollowingExternal then 1 else 0,
                      transition, if last.Some? then Some(now - last.value.at) else None);
    }
  }

  datatype GatewayState = GatewayState(wd: WatchdogState, lastForwarded: Option<real>)

  /** delivered is the forwarder's answer should it be called. */
  datatype Event = Heard(target: real, at: real) | Ticked(at: real, delivered: bool)

  const START := GatewayState(WatchdogState(SelfConsumption, None, 0), None)

  /** Whether this tick calls the forwarder. */
  predicate Calls(s: GatewayState, effective: real) { s.lastForwarded != Some(effective) }

  function Step(c: Config, s: GatewayState, e: Event): GatewayState {
    match e
    case Heard(target, now) => s.(wd := s.wd.(last := Some(External(target, now))))
    case Ticked(now, delivered) =>
      var effective := Effective(c, s.wd.last, now);
      GatewayState(WatchdogTick(c, s.wd, now),
                   if Calls(s, effective) && delivered then Some(effective) else s.lastForwarded)
  }

  class Gateway {
    const wd: Watchdog
    var lastForwarded: Option<real>
    var received: seq<real>  // what the forwarder delivered

    constructor (wd: Watchdog)
      ensures this.wd == wd && lastForwarded == None && received == []
    {
      this.wd := wd;
      lastForwarded, received := None, [];
    }

    function Snapshot(): GatewayState reads this, wd { GatewayState(wd.Snapshot(), lastForwarded) }

    method HandleExternal(target: real, now: real)
      modifies wd
      ensures Snapshot() == Step(wd.cfg, old(Snapshot()), Heard(target, now)) && received == old(received)
    {
      wd.OnExternal(target, now);
    }

    method Tick(now: real, delivered: bool) returns (r: TickResult)
      modifies this, wd
      ensures Snapshot() == Step(wd.cfg, old(Snapshot()), Ticked(now, delivered))
      ensures received == old(received) + Delivered(wd.cfg, old(Snapshot()), Ticked(now, delivered))
      ensures r == TickResult(wd.state, Effective(wd.cfg, wd.last, now),
                              if wd.state == FollowingExternal then 1 else 0,
                              TransitionOf(old(wd.state), wd.state),
                              if wd.last.Some? then Some(now - wd.last.value.at) else None)
    {
      r := wd.Tick(now);
      if lastForwarded.None? || r.effective != lastForwarded.value {
        if delivered {
          received := received + [r.effective];
          lastForwarded := Some(r.effective);
        }
      }
    }
  }

  /** What one event puts on the wire. */
  function Delivered(c: Config, s: GatewayState, e: Event): seq<real> {
    if e.Ticked? && e.delivered && Calls(s, Effective(c, s.wd.last, e.at)) then [Effective(c, s.wd.last, e.at)] else []
  }

  // ------------------------------------------------------------ whole runs

  function Run(c: Config, h: seq<Event>): GatewayState {
    if h == [] then START else Step(c, Run(c, h[..|h| - 1]), h[|h| - 1])
  }

  /** The transitions the ticks of a run reported, in order. */
  ghost function Transitions(c: Config, h: seq<Event>): seq<Transition> {
    if h == [] then []
    else
      var before, after := Run(c, h[..|h| - 1]).wd.state, Run(c, h).wd.state;
      var t := TransitionOf(before, after);
      Transitions(c, h[..|h| - 1]) + if t.Some? then [t.value] else []
  }

  /** What the receiver got, in order. */
  ghost function Received(c: Config, h: seq<Event>): seq<real> {
    if h == [] then []
    else Received(c, h[..|h| - 1]) + Delivered(c, Run(c, h[..|h| - 1]), h[|h| - 1])
  }

  ghost function Count(ts: seq<Transition>, t: Transition): nat {
    if ts == [] then 0 else Count(ts[..|ts| - 1], t) + if ts[|ts| - 1] == t then 1 else 0
  }

  lemma CountStep(ts: seq<Transition>, t: Transition, u: Transition)
    ensures Count(ts + [u], t) == Count(ts, t) + if u == t then 1 else 0
  {
    assert (ts + [u])[..|ts|] == ts;
  }

  /** Releases and takeovers alternate, starting with a release: their difference tells the state,
      and the counter counts exactly the takeovers of the trace. */
  lemma {:induction false} TransitionsBalance(c: Config, h: seq<Event>)
    ensures var ts, wd := Transitions(c, h), Run(c, h).wd;
      && Count(ts, Release) - Count(ts, Takeover) == (if wd.state == FollowingExternal then 1 else 0)
      && wd.takeovers == Count(ts, Takeover)
      && (forall i | 0 <= i < |ts| :: ts[i] == if i % 2 == 0 then Release else Takeover)
      && |ts| % 2 == (if wd.state == FollowingExternal then 1 else 0)
  {
    if h != [] {
      var rest := h[..|h| - 1];
      var t, ts := TransitionOf(Run(c, rest).wd.state, Run(c, h).wd.state), Transitions(c, rest);
      TransitionsBalance(c, rest);
      if t.Some? {
        CountStep(ts, Release, t.value);
        CountStep(ts, Takeover, t.value);
      } else {
        assert Transitions(c, h) == ts;
      }
    }
  }

  /** The last external target of a run, if any. */
  ghost function LastExternal(h: seq<Event>): Option<External> {
    if h == [] then None
    else if h[|h| - 1].Heard? then Some(External(h[|h| - 1].target, h[|h| - 1].at))
    else LastExternal(h[..|h| - 1])
  }

  /** Reference behaviour: a gateway that forwards on every tick, so its receiver always has the last
      tick's effective target. */
  ghost function Naive(c: Config, h: seq<Event>): Option<real> {
    if h == [] then None
    else if h[|h| - 1].Ticked? then Some(Effective(c, LastExternal(h), h[|h| - 1].at))
    else Naive(c, h[..|h| - 1])
  }

  ghost predicate AllDelivered(h: seq<Event>) { forall i | 0 <= i < |h| :: h[i].Ticked? ==> h[i].delivered }

  lemma {:induction false} LastIsLast(c: Config, h: seq<Event>)
    ensures Run(c, h).wd.last == LastExternal(h)
  {
    if h != [] {
      LastIsLast(c, h[..|h| - 1]);
    }
  }

  /** Forwarding on change refines forwarding on every tick: while deliveries succeed the receiver
      cannot tell the two apart, although no target is delivered twice in a row. A successful
      delivery brings the receiver up to date even after failures. */
  lemma {:induction false} ForwardOnChangeRefines(c: Config, h: seq<Event>)
    ensures var got := Received(c, h);
      && Run(c, h).lastForwarded == (if got == [] then None else Some(got[|got| - 1]))
      && (forall i | 0 < i < |got| :: got[i - 1] != got[i])
    ensures AllDelivered(h) ==> Run(c, h).lastForwarded == Naive(c, h)
    ensures h != [] && h[|h| - 1].Ticked? && h[|h| - 1].delivered ==> Run(c, h).lastForwarded == Naive(c, h)
    ensures h != [] && h[|h| - 1].Ticked? ==>
      (Run(c, h).wd.state == FollowingExternal <==> Fresh(c, LastExternal(h), h[|h| - 1].at))
  {
    if h != [] {
      ForwardOnChangeRefines(c, h[..|h| - 1]);
      LastIsLast(c, h);
      LastIsLast(c, h[..|h| - 1]);
      assert AllDelivered(h) ==> AllDelivered(h[..|h| - 1]);
    }
  }

  /** Events come in the order of their clock. */
  ghost predicate InTimeOrder(h: seq<Event>) { forall i, j | 0 <= i <= j < |h| :: h[i].at <= h[j].at }

  lemma {:induction false} LastExternalIsLatest(h: seq<Event>, i: nat)
    requires InTimeOrder(h) && i < |h| && h[i].Heard?
    ensures LastExternal(h).Some? && h[i].at <= LastExternal(h).value.at
  {
    if !h[|h| - 1].Heard? {
      LastExternalIsLatest(h[..|h| - 1], i);
    }
  }

  lemma {:induction false} LastExternalCame(h: seq<Event>) returns (i: nat)
    requires LastExternal(h).Some?
    ensures i < |h| && h[i].Heard? && LastExternal(h).value == External(h[i].target, h[i].at)
    ensures forall k | i < k < |h| :: !h[k].Heard?
  {
    if h[|h| - 1].Heard? {
      i := |h| - 1;
    } else {
      i := LastExternalCame(h[..|h| - 1]);
    }
  }

  /** On an orderly clock a tick follows the external target exactly when some external message came
      less than the timeout ago. */
  lemma FollowsExactlyWhileFresh(c: Config, h: seq<Event>)
    requires h != [] && h[|h| - 1].Ticked? && InTimeOrder(h)
    ensures Run(c, h).wd.state == FollowingExternal <==>
      exists i :: 0 <= i < |h| && h[i].Heard? && h[|h| - 1].at - h[i].at < c.timeout
  {
    var now := h[|h| - 1].at;
    ForwardOnChangeRefines(c, h);
    if LastExternal(h).Some? {
      var k := LastExternalCame(h);
    }
    forall i | 0 <= i < |h| && h[i].Heard? ensures LastExternal(h).Some? && h[i].at <= LastExternal(h).value.at {
      LastExternalIsLatest(h, i);
    }
    hide Run, LastExternal, Naive, Received;
  }

  /** The last external message of the history that came less than the timeout before now, if it did. */
  ghost predicate HeardInTime(c: Config, h: seq<Event>, i: int, now: real) {
    && 0 <= i < |h| && h[i].Heard? && now - h[i].at < c.timeout
    && forall k | i < k < |h| :: !h[k].Heard?
  }

  lemma {:induction false} LastHeard(h: seq<Event>, i: nat)
    requires i < |h| && h[i].Heard? && forall k | i < k < |h| :: !h[k].Heard?
    ensures LastExternal(h) == Some(External(h[i].target, h[i].at))
  {
    if i < |h| - 1 {
      LastHeard(h[..|h| - 1], i);
    }
  }

  /** What a tick is about: it follows, and its target is the last external one, when that came less than
      the timeout ago; otherwise its target is the configured self-consumption. A delivered tick leaves the
      receiver with that target. */
  lemma TickTarget(c: Config, h: seq<Event>)
    requires h != [] && h[|h| - 1].Ticked?
    ensures var now, before, after := h[|h| - 1].at, Run(c, h[..|h| - 1]), Run(c, h);
      var target := Effective(c, before.wd.last, now);
      && (forall i | HeardInTime(c, h, i, now) :: after.wd.state == FollowingExternal && target == h[i].target)
      && ((forall i :: !HeardInTime(c, h, i, now)) ==> after.wd.state == SelfConsumption && target == c.selfConsumption)
      && (h[|h| - 1].delivered ==> after.lastForwarded == Some(target))
  {
    var now, rest := h[|h| - 1].at, h[..|h| - 1];
    LastIsLast(c, rest);
    assert LastExternal(h) == LastExternal(rest);
    forall i | HeardInTime(c, h, i, now) ensures LastExternal(h) == Some(External(h[i].target, h[i].at)) {
      LastHeard(h, i);
    }
    if LastExternal(h).Some? {
      var i := LastExternalCame(h);
      assert LastExternal(h).value.target == h[i].target;
      assert now - h[i].at < c.timeout ==> HeardInTime(c, h, i, now);
    }
    hide LastExternal;
  }
}

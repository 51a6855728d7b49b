/** Core's backstop against a silent controller. */
module SilenceWatchdog {
  import opened Common
  import opened Setpoints

  const DEFAULT_SAFE_SETPOINTS: map<AssetClass, Points> := map[
    Battery := map[ActivePower := 0.0, ReactivePower := 0.0],
    FlexibleLoad := map[DerateFactor := 0.0]]

  datatype WatchdogState = WatchdogState(lastSetpoint: Option<real>, tripped: bool)

  predicate Silent(timeout: real, s: WatchdogState, now: real) {
    s.lastSetpoint.Some? && now - s.lastSetpoint.value > timeout
  }

  /** Whether a check at this time trips. */
  predicate TripsNow(timeout: real, s: WatchdogState, now: real) { !s.tripped && Silent(timeout, s, now) }

  /** The safe-state commands, one per reachable controllable device, in configuration order. */
  function SafeCommands(assets: seq<(string, AssetClass)>, adapters: set<string>, safe: map<AssetClass, Points>)
    : seq<(string, Points)>
  {
    if assets == [] then []
    else
      var a := assets[|assets| - 1];
      SafeCommands(assets[..|assets| - 1], adapters, safe)
      + if a.1 in safe && safe[a.1] != map[] && a.0 in adapters then [(a.0, safe[a.1])] else []
  }

  class SetpointWatchdog {
    const assets: seq<(string, AssetClass)>
    const adapters: set<string>
    const timeout: real
    const safe: map<AssetClass, Points>
    var lastSetpoint: Option<real>
    var tripped: bool
    var issued: seq<(string, Points)>  // every command given to an adapter
    var failed: set<string>            // devices whose last safe-state write failed

    constructor (assets: seq<(string, AssetClass)>, adapters: set<string>, period: real, maxSilenceCycles: int)
      requires period > 0.0 && maxSilenceCycles >= 1
      ensures this.assets == assets && this.adapters == adapters && safe == DEFAULT_SAFE_SETPOINTS
      ensures timeout == period * maxSilenceCycles as real
      ensures State() == WatchdogState(None, false) && issued == []
    {
      this.assets, this.adapters := assets, adapters;
      timeout := period * maxSilenceCycles as real;
      safe := DEFAULT_SAFE_SETPOINTS;
      lastSetpoint, tripped, issued, failed := None, false, [], {};
    }

    function State(): WatchdogState reads this { WatchdogState(lastSetpoint, tripped) }

    /** An accepted setpoint, or the start of the service: arms the timer, clears a trip. */
    method Notify(now: real)
      modifies this`lastSetpoint, this`tripped
      ensures State() == WatchdogState(Some(now), false)
    {
      lastSetpoint := Some(now);
      tripped := false;
    }

    method Check(now: real) returns (trips: bool)
      modifies this
      ensures trips == TripsNow(timeout, old(State()), now)
      ensures State() == old(State()).(tripped := old(tripped) || trips)
      ensures issued == old(issued) + if trips then SafeCommands(assets, adapters, safe) else []
    {
      if tripped || !Silent(timeout, State(), now) {
        return false;
      }
      Trip();
      tripped := true;
      return true;
    }

    /** Best effort: a failing device (the adapter's answer is arbitrary) never keeps another from
        being commanded. */
    method Trip()
      modifies this`issued, this`failed
      ensures issued == old(issued) + SafeCommands(assets, adapters, safe)
    {
      failed := {};
      for i := 0 to |assets|
        invariant issued == old(issued) + SafeCommands(assets[..i], adapters, safe)
      {
        assert assets[..i + 1][..i] == assets[..i];
        var (id, cls) := assets[i];
        if cls !in safe || safe[cls] == map[] || id !in adapters {
          continue;
        }
        issued := issued + [(id, safe[cls])];
        var ok: bool := *;
        if !ok {
          failed := failed + {id};
        }
      }
      assert assets[..|assets|] == assets;
    }
  }

  /** A trip reaches every device whose class has a safe state and that has an adapter, and commands
      nothing else. */
  lemma {:induction false} TripCoversExactly(assets: seq<(string, AssetClass)>, adapters: set<string>,
                                             safe: map<AssetClass, Points>, command: (string, Points))
    ensures command in SafeCommands(assets, adapters, safe) <==>
      exists a | a in assets :: a.0 == command.0 && a.0 in adapters && a.1 in safe && safe[a.1] == command.1 != map[]
  {
    if assets != [] {
      var rest, a := assets[..|assets| - 1], assets[|assets| - 1];
      TripCoversExactly(rest, adapters, safe, command);
      assert assets == rest + [a];
    }
  }

  /** What a trip tells the devices: batteries no power of either kind, flexible loads a factor of zero,
      and no other device anything. */
  lemma TripCommandsExactly(assets: seq<(string, AssetClass)>, adapters: set<string>, command: (string, Points))
    ensures command in SafeCommands(assets, adapters, DEFAULT_SAFE_SETPOINTS) <==>
      && command.0 in adapters
      && (((command.0, Battery) in assets && command.1 == map[ActivePower := 0.0, ReactivePower := 0.0])
          || ((command.0, FlexibleLoad) in assets && command.1 == map[DerateFactor := 0.0]))
  {
    TripCoversExactly(assets, adapters, DEFAULT_SAFE_SETPOINTS, command);
    hide SafeCommands;
    assert ActivePower in map[ActivePower := 0.0, ReactivePower := 0.0];
    assert DerateFactor in map[DerateFactor := 0.0];
    if exists a :: a in assets && a.0 == command.0 && a.1 in DEFAULT_SAFE_SETPOINTS
         && DEFAULT_SAFE_SETPOINTS[a.1] == command.1
    {
      var a :| a in assets && a.0 == command.0 && a.1 in DEFAULT_SAFE_SETPOINTS
        && DEFAULT_SAFE_SETPOINTS[a.1] == command.1;
      assert a == (command.0, a.1);
    }
  }

  // ------------------------------------------------------------ whole runs

  datatype Event =
    | Armed(at: real)    // an accepted setpoint, or a (re)start
    | Refused(at: real)  // a message the dispatcher refused
    | Checked(at: real)  // the per-cycle check

  function Step(timeout: real, s: WatchdogState, e: Event): WatchdogState {
    match e
    case Armed(now) => WatchdogState(Some(now), false)
    case Refused(_) => s
    case Checked(now) => s.(tripped := s.tripped || TripsNow(timeout, s, now))
  }

  function After(timeout: real, h: seq<Event>): WatchdogState {
    if h == [] then WatchdogState(None, false) else Step(timeout, After(timeout, h[..|h| - 1]), h[|h| - 1])
  }

  /** The i-th event is a check that trips. */
  ghost predicate TripAt(timeout: real, h: seq<Event>, i: nat)
    requires i < |h|
  {
    h[i].Checked? && TripsNow(timeout, After(timeout, h[..i]), h[i].at)
  }

  /** Where the silence going on at the end of h began: the last arming event; |h| when never armed. */
  ghost function SilenceStart(h: seq<Event>): (k: nat)
    ensures k <= |h|
    ensures k < |h| ==> h[k].Armed? && forall i | k < i < |h| :: !h[i].Armed?
    ensures k == |h| ==> forall i | 0 <= i < |h| :: !h[i].Armed?
  {
    if h == [] then 0
    else if h[|h| - 1].Armed? then |h| - 1
    else
      var k := SilenceStart(h[..|h| - 1]);
      if k == |h| - 1 then |h| else k
  }

  /** The i-th event is a check that comes later than the timeout after the start of the silence. */
  ghost predicate LateCheck(timeout: real, h: seq<Event>, start: nat, i: nat)
    requires start < |h|
  {
    start < i < |h| && h[i].Checked? && h[i].at - h[start].at > timeout
  }

  ghost predicate SomeLateCheck(timeout: real, h: seq<Event>) {
    SilenceStart(h) < |h| && exists i: nat :: LateCheck(timeout, h, SilenceStart(h), i)
  }

  lemma {:induction false} StateIsHistory(timeout: real, h: seq<Event>)
    ensures After(timeout, h).lastSetpoint == if SilenceStart(h) < |h| then Some(h[SilenceStart(h)].at) else None
    ensures After(timeout, h).tripped <==> SomeLateCheck(timeout, h)
  {
    if h != [] {
      var n, rest, e := |h| - 1, h[..|h| - 1], h[|h| - 1];
      StateIsHistory(timeout, rest);
      var k := SilenceStart(h);
      if !e.Armed? && k < n {
        assert k == SilenceStart(rest);
        if SomeLateCheck(timeout, rest) {
          var i: nat :| LateCheck(timeout, rest, k, i);
          assert LateCheck(timeout, h, k, i);
        }
        if e.Checked? && e.at - h[k].at > timeout {
          assert LateCheck(timeout, h, k, n);
        }
        if SomeLateCheck(timeout, h) {
          var i: nat :| LateCheck(timeout, h, k, i);
          assert i < n ==> LateCheck(timeout, rest, k, i);
        }
      }
    }
  }

  /** Exactly the first late check of each silence trips, whatever was refused in between. */
  lemma TripsExactlyAtFirstLateCheck(timeout: real, h: seq<Event>, i: nat)
    requires i < |h|
    ensures TripAt(timeout, h, i) <==>
      var k := SilenceStart(h[..i]);
      && h[i].Checked? && k < i && LateCheck(timeout, h, k, i)
      && forall j | k < j < i :: !LateCheck(timeout, h, k, j)
  {
    var before, k := h[..i], SilenceStart(h[..i]);
    StateIsHistory(timeout, before);
    if k < i {
      forall j | k < j < i ensures LateCheck(timeout, h, k, j) <==> LateCheck(timeout, before, k, j) {}
      assert h[k] == before[k];
    }
  }

  /** Between any two trips the timer was armed again. */
  lemma TripsSeparated(timeout: real, h: seq<Event>, i: nat, j: nat)
    requires i < j < |h| && TripAt(timeout, h, i) && TripAt(timeout, h, j)
    ensures exists k :: i < k < j && h[k].Armed?
  {
    TripsExactlyAtFirstLateCheck(timeout, h, i);
    TripsExactlyAtFirstLateCheck(timeout, h, j);
    var ki, kj := SilenceStart(h[..i]), SilenceStart(h[..j]);
    assert h[..j][kj].Armed?;
    if kj < i {
      StartStays(h, i, j);
      assert false;
    }
    assert h[kj].Armed? && kj != i;
  }

  lemma StartStays(h: seq<Event>, i: nat, j: nat)
    requires i <= j <= |h| && SilenceStart(h[..j]) < i
    ensures SilenceStart(h[..i]) == SilenceStart(h[..j])
  {
    var k, k' := SilenceStart(h[..j]), SilenceStart(h[..i]);
    assert h[..j][k] == h[..i][k];
  }

  ghost function WithoutRefused(h: seq<Event>): seq<Event> {
    if h == [] then []
    else WithoutRefused(h[..|h| - 1]) + if h[|h| - 1].Refused? then [] else [h[|h| - 1]]
  }

  /** Refused messages neither postpone nor cause anything. */
  lemma {:induction false} RefusedInvisible(timeout: real, h: seq<Event>)
    ensures After(timeout, WithoutRefused(h)) == After(timeout, h)
  {
    if h != [] {
      RefusedInvisible(timeout, h[..|h| - 1]);
      var w := WithoutRefused(h[..|h| - 1]);
      if h[|h| - 1].Refused? {
        assert WithoutRefused(h) == w;
      } else {
        assert WithoutRefused(h)[..|w|] == w;
      }
    }
  }
}

/** Publisher, broker, dispatcher and silence watchdog together, over an adversarial broker. */
module SetpointProtocol {
  import opened Common
  import opened Setpoints
  import P = Publisher
  import D = Dispatcher
  import W = SilenceWatchdog

  datatype Config = Config(dispatch: D.DispatchConfig, timeout: real, start: real)

  datatype Accepted = Accepted(m: Message, at: real)

  /** What a class of devices was last told. */
  datatype Told = Following(m: Message) | SafeState

  /** wire holds every message ever attempted: the broker may deliver any of them, whether or not it
      acknowledged it, at any time and any number of times. accepted logs what the dispatcher took. */
  datatype System = System(
    pub: P.PubState, wire: set<Message>, lastSeq: map<AssetClass, int>, accepted: seq<Accepted>,
    wd: W.WatchdogState, told: map<AssetClass, Told>, clock: real)

  datatype Action =
    | Publish(m: Message, outcome: P.Outcome)
    | Flush
    | Deliver(payload: Payload, limits: map<string, D.UnitLimits>, now: real)
    | Check(now: real)

  ghost predicate Init(c: Config, s: System) {
    s == System(P.PubState(0, map[], {}, map[]), {}, map[], [], W.WatchdogState(Some(c.start), false), map[], c.start)
  }

  /** Classes commanded by a trip, given that they have units. */
  predicate SafeClass(c: Config, cls: AssetClass) {
    cls in W.DEFAULT_SAFE_SETPOINTS && D.UnitsOf(c.dispatch.assets, cls) != []
  }

  ghost predicate Step(c: Config, s: System, a: Action, s': System) {
    match a
    case Publish(m, outcome) =>
      && m.seqNo == s.pub.seqNo + 1 && m.site == c.dispatch.site
      && P.PublishStep(c.dispatch.dm, s.pub, m, outcome, s'.pub)
      && s' == s.(pub := s'.pub, wire := s.wire + if outcome == P.Refused then {} else {m})
    case Flush =>
      P.FlushStep(s.pub, s'.pub) && s' == s.(pub := s'.pub)
    case Deliver(payload, limits, now) =>
      && now >= s.clock && (payload.Payload? ==> payload.message in s.wire)
      && var (lastSeq, report) := D.Dispatched(c.dispatch, s.lastSeq, payload, limits, now);
         s' == if report.accepted then
                 s.(lastSeq := lastSeq, clock := now, accepted := s.accepted + [Accepted(payload.message, now)],
                    wd := W.Step(c.timeout, s.wd, W.Armed(now)),
                    told := s.told[payload.message.assetClass := Following(payload.message)])
               else
                 s.(lastSeq := lastSeq, clock := now, wd := W.Step(c.timeout, s.wd, W.Refused(now)))
    case Check(now) =>
      && now >= s.clock
      && s' == s.(clock := now, wd := W.Step(c.timeout, s.wd, W.Checked(now)),
                  told := if W.TripsNow(c.timeout, s.wd, now) then Tripped(c, s.told) else s.told)
  }

  ghost function Tripped(c: Config, told: map<AssetClass, Told>): map<AssetClass, Told> {
    map cls | cls in told.Keys + W.DEFAULT_SAFE_SETPOINTS.Keys && (cls in told || SafeClass(c, cls)) ::
      if SafeClass(c, cls) then SafeState else told[cls]
  }

  /** A run: states and the actions between them. */
  ghost predicate Behavior(c: Config, ss: seq<System>, acts: seq<Action>) {
    && |ss| == |acts| + 1
    && Init(c, ss[0])
    && forall i | 0 <= i < |acts| :: Step(c, ss[i], acts[i], ss[i + 1])
  }

  // ------------------------------------------------------------ the invariant

  /** The last accepted message of a class. */
  ghost function LastOf(log: seq<Accepted>, cls: AssetClass): Option<Accepted> {
    if log == [] then None
    else if log[|log| - 1].m.assetClass == cls then Some(log[|log| - 1])
    else LastOf(log[..|log| - 1], cls)
  }

  ghost predicate WireInv(c: Config, pub: P.PubState, wire: set<Message>) {
    && P.Inv(pub)
    && (forall m | P.Known(pub, m) :: m in wire)
    && (forall m | m in wire :: WireMessage(c, pub, m))
    && OneNumberEach(wire)
  }

  ghost predicate OneNumberEach(wire: set<Message>) {
    forall m, m' | m in wire && m' in wire && m.seqNo == m'.seqNo :: m == m'
  }

  ghost predicate WireMessage(c: Config, pub: P.PubState, m: Message) {
    && m.seqNo <= pub.seqNo && m.site == c.dispatch.site
    && P.TopicOf(m) in pub.latest && m.seqNo <= pub.latest[P.TopicOf(m)].seqNo
  }

  /** Per class the accepted numbers increase, and the guard remembers at least the last of them. */
  ghost predicate LogInv(c: Config, s: System) {
    && (forall i | 0 <= i < |s.accepted| ::
          var x := s.accepted[i];
          && x.m in s.wire && x.at <= s.clock
          && x.m.ts.Some? && x.at - x.m.ts.value <= c.dispatch.maxAge
          && x.m.seqNo <= D.LastSeqOf(s.lastSeq, x.m.assetClass))
    && (forall i, j | 0 <= i < j < |s.accepted| && s.accepted[i].m.assetClass == s.accepted[j].m.assetClass ::
          s.accepted[i].m.seqNo < s.accepted[j].m.seqNo)
  }

  ghost predicate ToldInv(c: Config, s: System) {
    && s.wd.lastSetpoint == Some(if s.accepted == [] then c.start else s.accepted[|s.accepted| - 1].at)
    && (s.wd.tripped ==> forall cls | SafeClass(c, cls) :: cls in s.told && s.told[cls] == SafeState)
    && (forall cls | cls in s.told && s.told[cls].Following? ::
          LastOf(s.accepted, cls).Some? && s.told[cls].m == LastOf(s.accepted, cls).value.m)
  }

  ghost predicate Inv(c: Config, s: System) { WireInv(c, s.pub, s.wire) && LogInv(c, s) && ToldInv(c, s) }

  lemma StepKeepsWire(c: Config, s: System, a: Action, s': System)
    requires WireInv(c, s.pub, s.wire) && Step(c, s, a, s')
    ensures WireInv(c, s'.pub, s'.wire)
  {
    hide D.Dispatched, W.DEFAULT_SAFE_SETPOINTS, P.PublishStep, P.FlushStep, Tripped;
    match a {
      case Publish(m, outcome) =>
        PublishWire(c, s.pub, s.wire, m, outcome, s'.pub);
        if outcome == P.Refused { assert s'.wire == s.wire; }
      case Flush =>
        FlushWire(c, s.pub, s.wire, s'.pub);
      case Deliver(payload, limits, now) =>
      case Check(now) =>
    }
  }

  lemma FlushWire(c: Config, pub: P.PubState, wire: set<Message>, pub': P.PubState)
    requires WireInv(c, pub, wire) && P.FlushStep(pub, pub')
    ensures WireInv(c, pub', wire)
  {
    P.FlushKeepsInv(pub, pub');
    P.FlushKeepsLatest(pub, pub');
    hide P.Inv, P.Known, P.FlushStep;
  }

  lemma PublishWire(c: Config, pub: P.PubState, wire: set<Message>, m: Message, r: P.Outcome, pub': P.PubState)
    requires WireInv(c, pub, wire) && m.seqNo == pub.seqNo + 1 && m.site == c.dispatch.site
    requires P.PublishStep(c.dispatch.dm, pub, m, r, pub')
    ensures WireInv(c, pub', wire + if r == P.Refused then {} else {m})
  {
    hide P.Inv, P.Known, P.PublishStep;
    P.PublishKeepsInv(c.dispatch.dm, pub, m, r, pub');
    P.PublishNotes(c.dispatch.dm, pub, m, r, pub');
    if r == P.Refused {
      assert wire + {} == wire;
    } else {
      NumbersStayUnique(wire, m, pub.seqNo);
    }
    hide OneNumberEach;
  }

  lemma NumbersStayUnique(wire: set<Message>, m: Message, counter: nat)
    requires OneNumberEach(wire) && m.seqNo == counter + 1 && forall k | k in wire :: k.seqNo <= counter
    ensures OneNumberEach(wire + {m})
  {}

  lemma LastOfGrows(log: seq<Accepted>, x: Accepted, cls: AssetClass)
    ensures LastOf(log + [x], cls) == if x.m.assetClass == cls then Some(x) else LastOf(log, cls)
  {
    assert (log + [x])[..|log|] == log;
  }

  lemma StepKeepsLog(c: Config, s: System, a: Action, s': System)
    requires LogInv(c, s) && Step(c, s, a, s')
    ensures LogInv(c, s')
  {
    hide D.Written, D.SharingOf, W.DEFAULT_SAFE_SETPOINTS, P.PublishStep, P.FlushStep, Tripped;
    match a {
      case Publish(_, _) =>
      case Flush =>
      case Deliver(payload, limits, now) =>
        var r := D.Dispatched(c.dispatch, s.lastSeq, payload, limits, now);
      case Check(_) =>
    }
  }

  lemma StepKeepsTold(c: Config, s: System, a: Action, s': System)
    requires ToldInv(c, s) && Step(c, s, a, s')
    ensures ToldInv(c, s')
  {
    hide P.PublishStep, P.FlushStep, D.Written, D.SharingOf, D.UnitsOf;
    match a {
      case Publish(_, _) =>
      case Flush =>
      case Deliver(payload, limits, now) =>
        if D.Dispatched(c.dispatch, s.lastSeq, payload, limits, now).1.accepted {
          var x := Accepted(payload.message, now);
          forall cls
            ensures LastOf(s'.accepted, cls) == if x.m.assetClass == cls then Some(x) else LastOf(s.accepted, cls)
          {
            LastOfGrows(s.accepted, x, cls);
          }
        }
      case Check(now) =>
    }
  }

  lemma InitKeeps(c: Config, s: System)
    requires Init(c, s)
    ensures Inv(c, s)
  {}

  lemma {:induction false} Reachable(c: Config, ss: seq<System>, acts: seq<Action>, i: nat)
    requires Behavior(c, ss, acts) && i < |ss|
    ensures Inv(c, ss[i])
  {
    hide WireInv, LogInv, ToldInv, Step, Init;
    if i == 0 {
      InitKeeps(c, ss[0]);
    } else {
      Reachable(c, ss, acts, i - 1);
      assert Step(c, ss[i - 1], acts[i - 1], ss[i - 1 + 1]);
      StepKeepsWire(c, ss[i - 1], acts[i - 1], ss[i]);
      StepKeepsLog(c, ss[i - 1], acts[i - 1], ss[i]);
      StepKeepsTold(c, ss[i - 1], acts[i - 1], ss[i]);
    }
  }

  // ------------------------------------------------------------ safety over whole runs

  /** Whatever the broker loses, repeats or reorders, the numbers accepted for a class strictly
      increase, so no message takes effect twice and none after a later one. */
  lemma AcceptedSeqsIncrease(c: Config, ss: seq<System>, acts: seq<Action>, k: nat, i: nat, j: nat)
    requires Behavior(c, ss, acts) && k < |ss| && i < j < |ss[k].accepted|
    requires ss[k].accepted[i].m.assetClass == ss[k].accepted[j].m.assetClass
    ensures ss[k].accepted[i].m.seqNo < ss[k].accepted[j].m.seqNo
    ensures ss[k].accepted[i].m in ss[k].wire && ss[k].accepted[i].m != ss[k].accepted[j].m
  {
    Reachable(c, ss, acts, k);
  }

  lemma {:induction false} LastOfIsGreatest(log: seq<Accepted>, cls: AssetClass, i: nat)
    requires i < |log| && log[i].m.assetClass == cls
    requires forall i, j | 0 <= i < j < |log| && log[i].m.assetClass == log[j].m.assetClass ::
      log[i].m.seqNo < log[j].m.seqNo
    ensures LastOf(log, cls).Some? && log[i].m.seqNo <= LastOf(log, cls).value.m.seqNo
    ensures LastOf(log, cls).value in log && LastOf(log, cls).value.m.assetClass == cls
  {
    var n := |log| - 1;
    if log[n].m.assetClass != cls {
      LastOfIsGreatest(log[..n], cls, i);
    }
  }

  /** A class follows the accepted message with the greatest number, or its safe state. */
  lemma ToldTheGreatest(c: Config, ss: seq<System>, acts: seq<Action>, k: nat, cls: AssetClass, i: nat)
    requires Behavior(c, ss, acts) && k < |ss| && i < |ss[k].accepted|
    requires ss[k].accepted[i].m.assetClass == cls && cls in ss[k].told && ss[k].told[cls].Following?
    ensures ss[k].accepted[i].m.seqNo <= ss[k].told[cls].m.seqNo
    ensures ss[k].accepted[i].m.seqNo == ss[k].told[cls].m.seqNo ==> ss[k].accepted[i].m == ss[k].told[cls].m
    ensures ss[k].told[cls].m in ss[k].wire
  {
    Reachable(c, ss, acts, k);
    LastOfIsGreatest(ss[k].accepted, cls, i);
  }

  /** Once a class follows the newest message published for it, no flush, duplicate or late delivery
      can move it: only a newer publish or a trip can. */
  lemma NewestSticks(c: Config, ss: seq<System>, acts: seq<Action>, k: nat, cls: AssetClass)
    requires Behavior(c, ss, acts) && k < |acts|
    requires cls in ss[k].told && ss[k].told[cls].Following?
    requires var t := Topic(c.dispatch.site, cls);
      t in ss[k].pub.latest && ss[k].told[cls].m == ss[k].pub.latest[t]
    ensures cls in ss[k + 1].told
    ensures ss[k + 1].told[cls] == ss[k].told[cls] || (ss[k + 1].told[cls] == SafeState && ss[k + 1].wd.tripped)
  {
    hide Inv, Init, Step;
    Reachable(c, ss, acts, k);
    assert Step(c, ss[k], acts[k], ss[k + 1]);
    NewestSticksOnce(c, ss[k], acts[k], ss[k + 1], cls);
  }

  lemma NewestSticksOnce(c: Config, s: System, a: Action, s': System, cls: AssetClass)
    requires Inv(c, s) && Step(c, s, a, s') && cls in s.told && s.told[cls].Following?
    requires var t := Topic(c.dispatch.site, cls); t in s.pub.latest && s.told[cls].m == s.pub.latest[t]
    ensures cls in s'.told
    ensures s'.told[cls] == s.told[cls] || (s'.told[cls] == SafeState && s'.wd.tripped)
  {
    hide Inv, D.Written, D.SharingOf, D.UnitsOf, D.Guard, P.PublishStep, P.FlushStep, W.DEFAULT_SAFE_SETPOINTS,
         W.TripsNow;
    match a {
      case Publish(_, _) =>
      case Flush =>
      case Deliver(payload, limits, now) =>
        if payload.Payload? && payload.message.assetClass == cls {
          OldIsRefused(c, s, a, cls);
        }
        AcceptedHasPayload(c, s, payload, limits, now);
        hide D.Dispatched;
      case Check(now) =>
        if W.TripsNow(c.timeout, s.wd, now) {
          TrippedTold(c, s.told, cls);
        }
    }
  }

  lemma AcceptedHasPayload(c: Config, s: System, payload: Payload, limits: map<string, D.UnitLimits>, now: real)
    ensures D.Dispatched(c.dispatch, s.lastSeq, payload, limits, now).1.accepted ==>
      payload.Payload? && D.Guard(c.dispatch, s.lastSeq, payload, now).None?
  {
    hide D.Written, D.SharingOf, D.UnitsOf;
  }

  lemma TrippedTold(c: Config, told: map<AssetClass, Told>, cls: AssetClass)
    requires cls in told
    ensures cls in Tripped(c, told) && (Tripped(c, told)[cls] == told[cls] || Tripped(c, told)[cls] == SafeState)
  {}

  lemma {:induction false} LastOfLogged(log: seq<Accepted>, cls: AssetClass)
    requires LastOf(log, cls).Some?
    ensures LastOf(log, cls).value in log && LastOf(log, cls).value.m.assetClass == cls
  {
    if log[|log| - 1].m.assetClass != cls {
      LastOfLogged(log[..|log| - 1], cls);
    }
  }

  lemma OldIsRefused(c: Config, s: System, a: Action, cls: AssetClass)
    requires Inv(c, s) && a.Deliver? && a.payload.Payload? && a.payload.message in s.wire
    requires a.payload.message.assetClass == cls && cls in s.told && s.told[cls].Following?
    requires var t := Topic(c.dispatch.site, cls); t in s.pub.latest && s.told[cls].m == s.pub.latest[t]
    ensures D.Guard(c.dispatch, s.lastSeq, a.payload, a.now).Some?
  {
    LastOfLogged(s.accepted, cls);
    assert a.payload.message.seqNo <= s.told[cls].m.seqNo <= D.LastSeqOf(s.lastSeq, cls);
  }

  /** End-to-end freshness: after every check, either the safe state is in force on every device class
      that has one, or some setpoint was accepted within the timeout (or the service started within
      it) and that setpoint was built at most timeout plus the age limit ago. */
  lemma SafeOrFresh(c: Config, ss: seq<System>, acts: seq<Action>, k: nat)
    requires Behavior(c, ss, acts) && k < |acts| && acts[k].Check?
    ensures var s, now := ss[k + 1], acts[k].now;
      if s.wd.tripped then forall cls | SafeClass(c, cls) :: cls in s.told && s.told[cls] == SafeState
      else if s.accepted == [] then now - c.start <= c.timeout
      else
        var x := s.accepted[|s.accepted| - 1];
        now - x.at <= c.timeout && x.m.ts.Some? && now - x.m.ts.value <= c.timeout + c.dispatch.maxAge
  {
    Reachable(c, ss, acts, k);
    Reachable(c, ss, acts, k + 1);
    assert Step(c, ss[k], acts[k], ss[k + 1]);
    hide WireInv, W.DEFAULT_SAFE_SETPOINTS;
  }

  /** The timer is shared by all classes: one accepted message of any class keeps every class running
      on its last command. The check trips exactly when no class was heard within the timeout. */
  lemma AnyClassFeedsTheTimer(c: Config, ss: seq<System>, acts: seq<Action>, k: nat)
    requires Behavior(c, ss, acts) && k < |acts| && acts[k].Check? && !ss[k].wd.tripped
    ensures ss[k + 1].wd.tripped <==>
      acts[k].now - c.start > c.timeout && forall x | x in ss[k].accepted :: acts[k].now - x.at > c.timeout
  {
    Reachable(c, ss, acts, k);
    assert Step(c, ss[k], acts[k], ss[k + 1]);
    AcceptedInTimeOrder(c, ss, acts, k);
    hide WireInv, W.DEFAULT_SAFE_SETPOINTS;
    var log := ss[k].accepted;
    if log != [] {
      assert log[|log| - 1] in log;
    }
  }

  lemma {:induction false} AcceptedInTimeOrder(c: Config, ss: seq<System>, acts: seq<Action>, k: nat)
    requires Behavior(c, ss, acts) && k < |ss|
    ensures ss[k].clock >= c.start
    ensures forall x | x in ss[k].accepted :: c.start <= x.at <= ss[k].accepted[|ss[k].accepted| - 1].at <= ss[k].clock
  {
    if k > 0 {
      AcceptedInTimeOrder(c, ss, acts, k - 1);
      assert Step(c, ss[k - 1], acts[k - 1], ss[k - 1 + 1]);
      hide D.Dispatched, P.PublishStep, P.FlushStep, W.DEFAULT_SAFE_SETPOINTS, Tripped;
    }
  }

  /** No latest setpoint is lost on the publisher's side, over every run. */
  lemma LatestNeverLost(c: Config, ss: seq<System>, acts: seq<Action>, k: nat, t: Topic)
    requires Behavior(c, ss, acts) && k < |ss| && t in ss[k].pub.latest
    ensures var p := ss[k].pub;
      && (p.latest[t] in p.handed || (t in p.pending && p.pending[t] == p.latest[t]))
      && (t in p.pending ==> p.pending[t].seqNo <= p.seqNo)
  {
    Reachable(c, ss, acts, k);
    assert P.Known(ss[k].pub, ss[k].pub.latest[t]);
    assert t in ss[k].pub.pending ==> P.Known(ss[k].pub, ss[k].pub.pending[t]);
  }
}

/** Concrete losses: a factor refused for its age, and a load that stays shed after a trip. */
module LostSetpoints {
  import opened Common
  import opened Setpoints
  import opened SetpointProtocol
  import opened SetpointDelivery
  import opened LoopDelivery
  import P = Publisher
  import D = Dispatcher
  import W = SilenceWatchdog
  import CL = ControlLoop

  // ------------------------------------------------------------ building behaviours

  /** The data model has the points the loop commands. */
  ghost predicate Commandable(dm: DataModel) {
    && Battery in dm.outputs && {ActivePower, ReactivePower} <= dm.outputs[Battery]
    && Pv in dm.outputs && DerateFactor in dm.outputs[Pv]
    && FlexibleLoad in dm.outputs && DerateFactor in dm.outputs[FlexibleLoad]
  }

  /** The message for an entry of the loop's outbox. */
  ghost function MessageFor(c: Config, x: CL.Published, before: nat, ts: real): Message {
    P.Build(c.dispatch.dm, c.dispatch.site, before, x.assetClass, x.points, ts)
  }

  /** A conformant message of the site with this number, time and content. */
  ghost predicate IsFor(c: Config, m: Message, x: CL.Published, number: int, ts: real) {
    && m.seqNo == number && m.site == c.dispatch.site && m.ts == Some(ts) && Conformant(m, c.dispatch.dm)
    && m.assetClass == x.assetClass && m.setpoints == x.points
  }

  /** The loop's entries: both powers for the battery, the factor for the others. */
  ghost predicate LoopEntry(x: CL.Published) {
    if x.assetClass == Battery then x.points.Keys == {ActivePower, ReactivePower}
    else (x.assetClass == Pv || x.assetClass == FlexibleLoad) && x.points.Keys == {DerateFactor}
  }

  lemma MessageForIs(c: Config, x: CL.Published, before: nat, ts: real)
    requires Commandable(c.dispatch.dm) && LoopEntry(x)
    ensures IsFor(c, MessageFor(c, x, before, ts), x, before + 1, ts)
  {
    assert DerateFactor in x.points.Keys || ActivePower in x.points.Keys;
  }

  /** A behaviour and what its publish calls were asked to send. */
  ghost predicate Sending(c: Config, ss: seq<System>, acts: seq<Action>, out: seq<CL.Published>) {
    Behavior(c, ss, acts) && Sends(acts) == out
  }

  lemma Begin(c: Config)
    ensures Sending(c, [Start(c)], [], [])
  {}

  lemma Extend(c: Config, ss: seq<System>, acts: seq<Action>, out: seq<CL.Published>, a: Action, s': System)
    returns (ss': seq<System>, acts': seq<Action>, out': seq<CL.Published>)
    requires ss != [] && Sending(c, ss, acts, out) && Step(c, ss[|ss| - 1], a, s')
    ensures ss' == ss + [s'] && acts' == acts + [a] && ss'[|ss'| - 1] == s'
    ensures out' == out + if a.Publish? then [CL.Published(a.m.assetClass, a.m.setpoints)] else []
    ensures Sending(c, ss', acts', out')
  {
    hide Step, Init;
    SendsOne(acts, a);
    ss', acts' := ss + [s'], acts + [a];
    out' := out + if a.Publish? then [CL.Published(a.m.assetClass, a.m.setpoints)] else [];
    forall i | 0 <= i < |acts'| ensures Step(c, ss'[i], acts'[i], ss'[i + 1]) {
      if i < |acts| {
        assert Step(c, ss[i], acts[i], ss[i + 1]);
      }
    }
  }

  ghost function Start(c: Config): System {
    System(P.PubState(0, map[], {}, map[]), {}, map[], [], W.WatchdogState(Some(c.start), false), map[], c.start)
  }

  /** The broker is away: the message is parked. */
  ghost function AfterParking(s: System, m: Message): System {
    var t := P.TopicOf(m);
    s.(pub := P.PubState(s.pub.seqNo + 1, s.pub.pending[t := m], s.pub.handed, s.pub.latest[t := m]),
       wire := s.wire + {m})
  }

  /** The broker takes the message, and nothing is parked. */
  ghost function AfterSending(s: System, m: Message): System {
    s.(pub := P.PubState(s.pub.seqNo + 1, s.pub.pending, s.pub.handed + {m}, s.pub.latest[P.TopicOf(m) := m]),
       wire := s.wire + {m})
  }

  ghost function AfterFlush(s: System): System {
    s.(pub := s.pub.(pending := map[], handed := s.pub.handed + set t | t in s.pub.pending :: s.pub.pending[t]))
  }

  ghost function AfterAccepting(s: System, m: Message, now: real): System {
    s.(lastSeq := s.lastSeq[m.assetClass := m.seqNo], clock := now, accepted := s.accepted + [Accepted(m, now)],
       wd := W.WatchdogState(Some(now), false), told := s.told[m.assetClass := Following(m)])
  }

  ghost predicate Publishable(c: Config, s: System, m: Message) {
    m.seqNo == s.pub.seqNo + 1 && m.site == c.dispatch.site && Conformant(m, c.dispatch.dm)
  }

  lemma Parks(c: Config, s: System, m: Message)
    requires Publishable(c, s, m)
    ensures Step(c, s, Publish(m, P.Parked), AfterParking(s, m))
  {
    hide Conformant;
  }

  lemma SendsIt(c: Config, s: System, m: Message)
    requires Publishable(c, s, m) && s.pub.pending == map[]
    ensures Step(c, s, Publish(m, P.Sent), AfterSending(s, m))
  {
    hide Conformant;
  }

  lemma Flushes(c: Config, s: System)
    ensures Step(c, s, Flush, AfterFlush(s))
  {}

  lemma RefusesLate(c: Config, s: System, m: Message, limits: map<string, D.UnitLimits>, now: real)
    requires m in s.wire && TooOld(c, m, now) && now >= s.clock
    ensures Step(c, s, Deliver(Payload(m), limits, now), s.(clock := now))
  {
    D.AcceptedExactly(c.dispatch, s.lastSeq, Payload(m), limits, now);
    hide D.Dispatched, Conformant;
  }

  lemma Accepts(c: Config, s: System, m: Message, limits: map<string, D.UnitLimits>, now: real)
    requires m in s.wire && m.site == c.dispatch.site && Conformant(m, c.dispatch.dm)
    requires (m.assetClass in s.lastSeq ==> s.lastSeq[m.assetClass] < m.seqNo) && m.ts.Some? && InTime(c, m, now)
    requires D.UnitsOf(c.dispatch.assets, m.assetClass) != [] && now >= s.clock
    ensures Step(c, s, Deliver(Payload(m), limits, now), AfterAccepting(s, m, now))
  {
    D.AcceptedExactly(c.dispatch, s.lastSeq, Payload(m), limits, now);
    D.UnitsExactly(c.dispatch.assets, m.assetClass);
    hide D.Dispatched, Conformant, D.UnitsOf;
  }

  // ------------------------------------------------------------ a factor that is never applied

  /** The loop's first messages. */
  ghost function First(c: Config, loop: CL.LoopConfig, y: CL.Cycle, i: nat, ts: real): Message
    requires CL.ValidLoop(loop) && i < |CL.Outbox(loop, [y])|
  {
    MessageFor(c, CL.Outbox(loop, [y])[i], i, ts)
  }

  lemma FirstAre(c: Config, loop: CL.LoopConfig, y: CL.Cycle, ts: real)
    requires CL.ValidLoop(loop) && Commandable(c.dispatch.dm)
    ensures |CL.Outbox(loop, [y])| == 3
    ensures First(c, loop, y, 0, ts).assetClass == Battery && First(c, loop, y, 1, ts).assetClass == Pv
      && First(c, loop, y, 2, ts).assetClass == FlexibleLoad
    ensures forall i | 0 <= i < 3 :: IsFor(c, First(c, loop, y, i, ts), CL.Outbox(loop, [y])[i], i + 1, ts)
  {
    CL.FirstCycleTellsAll(loop, y);
    hide CL.Outbox, CL.CommandOf, CL.ValidLoop, IsFor;
    forall i | 0 <= i < 3 ensures IsFor(c, First(c, loop, y, i, ts), CL.Outbox(loop, [y])[i], i + 1, ts) {
      MessageForIs(c, CL.Outbox(loop, [y])[i], i, ts);
    }
  }

  /** The broker is away while the loop's first messages go out. They are parked, handed over when it is
      back, and arrive after the age limit: all are refused and nobody holds them any more. Whatever the
      broker and the devices do afterwards, the inverters are never told the curtailment factor for as long
      as it stays in force. */
  lemma LateFactorIsLost(c: Config, loop: CL.LoopConfig, y: CL.Cycle, built: real, now: real,
                         limits: map<string, D.UnitLimits>)
    returns (ss: seq<System>, acts: seq<Action>)
    requires CL.ValidLoop(loop) && Commandable(c.dispatch.dm)
    requires now - built > c.dispatch.maxAge && now >= c.start
    ensures |CL.Outbox(loop, [y])| == 3
    ensures acts == [Publish(First(c, loop, y, 0, built), P.Parked), Publish(First(c, loop, y, 1, built), P.Parked),
                     Publish(First(c, loop, y, 2, built), P.Parked), Flush,
                     Deliver(Payload(First(c, loop, y, 1, built)), limits, now)]
    ensures Sending(c, ss, acts, CL.Outbox(loop, [y])) && ss[5].pub.pending == map[]
    ensures forall ss': seq<System>, acts', zs |
      Continues(c, ss, acts, ss', acts') && DrivenUnchanged(loop, [y], zs, acts', Pv) :: Pv !in ss'[|acts'|].told
  {
    FirstAre(c, loop, y, built);
    var b, p, l := First(c, loop, y, 0, built), First(c, loop, y, 1, built), First(c, loop, y, 2, built);
    ss, acts := ParkedThenLate(c, b, p, l, CL.Outbox(loop, [y]), built, now, limits);
    forall ss': seq<System>, acts', zs |
      Continues(c, ss, acts, ss', acts') && DrivenUnchanged(loop, [y], zs, acts', Pv)
      ensures Pv !in ss'[|acts'|].told
    {
      hide Continues, DrivenUnchanged, CL.Outbox, First, Sending;
      LostForGood(c, ss, acts, ss', acts', loop, [y], zs, Pv);
    }
  }

  lemma ParkedThenLate(c: Config, b: Message, p: Message, l: Message, out: seq<CL.Published>, built: real,
                       now: real, limits: map<string, D.UnitLimits>)
    returns (ss: seq<System>, acts: seq<Action>)
    requires |out| == 3 && p.assetClass == Pv && now >= c.start && now - built > c.dispatch.maxAge
    requires IsFor(c, b, out[0], 1, built) && IsFor(c, p, out[1], 2, built) && IsFor(c, l, out[2], 3, built)
    ensures acts == [Publish(b, P.Parked), Publish(p, P.Parked), Publish(l, P.Parked), Flush,
                     Deliver(Payload(p), limits, now)]
    ensures |ss| == 6 && Sending(c, ss, acts, out) && ss[5].pub.pending == map[]
    ensures Spent(c, ss[5], Pv) && Pv !in ss[5].told
  {
    hide Step, Sending, Conformant;
    Begin(c);
    var sent: seq<CL.Published>;
    var s0 := Start(c);
    var s1 := AfterParking(s0, b);
    var s2 := AfterParking(s1, p);
    var s3 := AfterParking(s2, l);
    var s4 := AfterFlush(s3);
    Parks(c, s0, b);
    ss, acts, sent := Extend(c, [s0], [], [], Publish(b, P.Parked), s1);
    Parks(c, s1, p);
    ss, acts, sent := Extend(c, ss, acts, sent, Publish(p, P.Parked), s2);
    Parks(c, s2, l);
    ss, acts, sent := Extend(c, ss, acts, sent, Publish(l, P.Parked), s3);
    Flushes(c, s3);
    ss, acts, sent := Extend(c, ss, acts, sent, Flush, s4);
    RefusesLate(c, s4, p, limits, now);
    ss, acts, sent := Extend(c, ss, acts, sent, Deliver(Payload(p), limits, now), s4.(clock := now));
    assert sent == out;
  }

  // ------------------------------------------------------------ a trip that outlives the silence

  /** The first message of the loop's second cycle. */
  ghost function Fourth(c: Config, loop: CL.LoopConfig, y: CL.Cycle, y': CL.Cycle, ts: real): Message
    requires CL.ValidLoop(loop) && |CL.Outbox(loop, [y, y'])| > 3
  {
    MessageFor(c, CL.Outbox(loop, [y, y'])[3], 3, ts)
  }

  lemma FourthIs(c: Config, loop: CL.LoopConfig, y: CL.Cycle, y': CL.Cycle, ts: real)
    requires CL.ValidLoop(loop) && Commandable(c.dispatch.dm)
    ensures |CL.Outbox(loop, [y])| == 3 && |CL.Outbox(loop, [y, y'])| > 3
    ensures CL.Outbox(loop, [y]) <= CL.Outbox(loop, [y, y'])
    ensures Fourth(c, loop, y, y', ts).assetClass == Battery
    ensures IsFor(c, Fourth(c, loop, y, y', ts), CL.Outbox(loop, [y, y'])[3], 4, ts)
  {
    CL.FirstCycleTellsAll(loop, y);
    CL.NextCycleTellsBattery(loop, [y], y');
    hide CL.Outbox, CL.CommandOf, CL.ValidLoop, IsFor;
    assert [y] + [y'] == [y, y'];
    MessageForIs(c, CL.Outbox(loop, [y, y'])[3], 3, ts);
  }

  /** Times at which the first factor is accepted, the silence trips, and the battery's next message is. */
  ghost predicate SilenceBetween(c: Config, built: real, heard: real, silent: real, rebuilt: real, now: real) {
    && c.timeout >= 0.0 && c.start <= heard && heard + c.timeout < silent <= now
    && heard - built <= c.dispatch.maxAge && now - rebuilt <= c.dispatch.maxAge
  }

  /** The load takes the loop's first factor; then the core hears nothing for longer than its timeout and
      trips. The battery recovers with its next message and the trip is over, but the load has no message
      coming: whatever happens afterwards, it stays shed for as long as its factor stays in force. */
  lemma LoadStaysShed(c: Config, loop: CL.LoopConfig, y: CL.Cycle, y': CL.Cycle, built: real, heard: real,
                      silent: real, rebuilt: real, now: real, limits: map<string, D.UnitLimits>)
    returns (ss: seq<System>, acts: seq<Action>)
    requires CL.ValidLoop(loop) && Commandable(c.dispatch.dm) && SilenceBetween(c, built, heard, silent, rebuilt, now)
    requires D.UnitsOf(c.dispatch.assets, Battery) != [] && D.UnitsOf(c.dispatch.assets, FlexibleLoad) != []
    ensures |CL.Outbox(loop, [y])| == 3 && |CL.Outbox(loop, [y, y'])| > 3
    ensures var b, p, l := First(c, loop, y, 0, built), First(c, loop, y, 1, built), First(c, loop, y, 2, built);
      var b' := Fourth(c, loop, y, y', rebuilt);
      && acts == [Publish(b, P.Sent), Publish(p, P.Sent), Publish(l, P.Sent), Deliver(Payload(l), limits, heard),
                  Check(silent), Publish(b', P.Sent), Deliver(Payload(b'), limits, now)]
      && |ss| == 8 && !ss[7].wd.tripped
      && ss[4].told == map[FlexibleLoad := Following(l)]
      && ss[7].told == map[Battery := Following(b'), FlexibleLoad := SafeState]
    ensures Sending(c, ss, acts, CL.Outbox(loop, [y, y'])[..4])
    ensures forall ss': seq<System>, acts', zs |
      Continues(c, ss, acts, ss', acts') && DrivenUnchanged(loop, [y], zs, acts', FlexibleLoad) ::
        ToldOf(ss'[|acts'|], FlexibleLoad) == Some(SafeState)
  {
    FirstAre(c, loop, y, built);
    FourthIs(c, loop, y, y', rebuilt);
    var out := CL.Outbox(loop, [y, y'])[..4];
    var b, p, l := First(c, loop, y, 0, built), First(c, loop, y, 1, built), First(c, loop, y, 2, built);
    var b' := Fourth(c, loop, y, y', rebuilt);
    hide Continues, DrivenUnchanged, CL.Outbox, First, Fourth, Sending, IsFor, D.UnitsOf, SilenceBetween;
    ss, acts := HeardThenSilent(c, b, p, l, b', out, built, heard, silent, rebuilt, now, limits);
    forall ss': seq<System>, acts', zs |
      Continues(c, ss, acts, ss', acts') && DrivenUnchanged(loop, [y], zs, acts', FlexibleLoad)
      ensures ToldOf(ss'[|acts'|], FlexibleLoad) == Some(SafeState)
    {
      LostForGood(c, ss, acts, ss', acts', loop, [y], zs, FlexibleLoad);
    }
  }

  lemma Trips(c: Config, s: System, silent: real)
    requires W.TripsNow(c.timeout, s.wd, silent) && silent >= s.clock && s.told.Keys <= {FlexibleLoad}
    requires D.UnitsOf(c.dispatch.assets, Battery) != [] && D.UnitsOf(c.dispatch.assets, FlexibleLoad) != []
    ensures Step(c, s, Check(silent), s.(clock := silent, wd := s.wd.(tripped := true),
                                         told := map[Battery := SafeState, FlexibleLoad := SafeState]))
  {
    hide D.UnitsOf;
    assert SafeClass(c, Battery) && SafeClass(c, FlexibleLoad);
    assert Tripped(c, s.told) == map[Battery := SafeState, FlexibleLoad := SafeState];
  }

  lemma HeardThenSilent(c: Config, b: Message, p: Message, l: Message, b': Message, out: seq<CL.Published>,
                        built: real, heard: real, silent: real, rebuilt: real, now: real,
                        limits: map<string, D.UnitLimits>)
    returns (ss: seq<System>, acts: seq<Action>)
    requires |out| == 4 && b'.assetClass == Battery && l.assetClass == FlexibleLoad && p.assetClass == Pv
      && b.assetClass == Battery
    requires IsFor(c, b, out[0], 1, built) && IsFor(c, p, out[1], 2, built) && IsFor(c, l, out[2], 3, built)
      && IsFor(c, b', out[3], 4, rebuilt)
    requires SilenceBetween(c, built, heard, silent, rebuilt, now)
    requires D.UnitsOf(c.dispatch.assets, Battery) != [] && D.UnitsOf(c.dispatch.assets, FlexibleLoad) != []
    ensures acts == [Publish(b, P.Sent), Publish(p, P.Sent), Publish(l, P.Sent), Deliver(Payload(l), limits, heard),
                     Check(silent), Publish(b', P.Sent), Deliver(Payload(b'), limits, now)]
    ensures |ss| == 8 && Sending(c, ss, acts, out) && !ss[7].wd.tripped && Spent(c, ss[7], FlexibleLoad)
    ensures ss[4].told == map[FlexibleLoad := Following(l)]
    ensures ss[7].told == map[Battery := Following(b'), FlexibleLoad := SafeState]
  {
    hide Step, Sending, Conformant, D.UnitsOf;
    var sent: seq<CL.Published>;
    ss, acts, sent := Heard(c, b, p, l, out, built, heard, limits);
    var s4 := ss[4];
    var s5 := s4.(clock := silent, wd := s4.wd.(tripped := true),
                  told := map[Battery := SafeState, FlexibleLoad := SafeState]);
    var s6 := AfterSending(s5, b');
    Trips(c, s4, silent);
    ss, acts, sent := Extend(c, ss, acts, sent, Check(silent), s5);
    SendsIt(c, s5, b');
    ss, acts, sent := Extend(c, ss, acts, sent, Publish(b', P.Sent), s6);
    Accepts(c, s6, b', limits, now);
    ss, acts, sent := Extend(c, ss, acts, sent, Deliver(Payload(b'), limits, now), AfterAccepting(s6, b', now));
    assert sent == out;
  }

  /** The load has taken its factor, and nothing else was delivered. */
  ghost predicate LoadTold(s: System, b: Message, p: Message, l: Message, heard: real) {
    && s.pub.seqNo == 3 && s.pub.pending == map[] && s.wire == {b, p, l} && s.clock == heard
    && s.lastSeq == map[FlexibleLoad := 3] && s.wd == W.WatchdogState(Some(heard), false)
    && s.told == map[FlexibleLoad := Following(l)]
  }

  lemma Heard(c: Config, b: Message, p: Message, l: Message, out: seq<CL.Published>, built: real, heard: real,
              limits: map<string, D.UnitLimits>)
    returns (ss: seq<System>, acts: seq<Action>, sent: seq<CL.Published>)
    requires |out| == 4 && l.assetClass == FlexibleLoad
    requires IsFor(c, b, out[0], 1, built) && IsFor(c, p, out[1], 2, built) && IsFor(c, l, out[2], 3, built)
    requires c.start <= heard && heard - built <= c.dispatch.maxAge
    requires D.UnitsOf(c.dispatch.assets, FlexibleLoad) != []
    ensures acts == [Publish(b, P.Sent), Publish(p, P.Sent), Publish(l, P.Sent), Deliver(Payload(l), limits, heard)]
    ensures |ss| == 5 && sent == out[..3] && Sending(c, ss, acts, sent) && LoadTold(ss[4], b, p, l, heard)
  {
    hide Step, Sending, Conformant, D.UnitsOf;
    Begin(c);
    var s0 := Start(c);
    var s1 := AfterSending(s0, b);
    var s2 := AfterSending(s1, p);
    var s3 := AfterSending(s2, l);
    SendsIt(c, s0, b);
    ss, acts, sent := Extend(c, [s0], [], [], Publish(b, P.Sent), s1);
    SendsIt(c, s1, p);
    ss, acts, sent := Extend(c, ss, acts, sent, Publish(p, P.Sent), s2);
    SendsIt(c, s2, l);
    ss, acts, sent := Extend(c, ss, acts, sent, Publish(l, P.Sent), s3);
    Accepts(c, s3, l, limits, heard);
    ss, acts, sent := Extend(c, ss, acts, sent, Deliver(Payload(l), limits, heard), AfterAccepting(s3, l, heard));
    assert sent == out[..3];
  }
}

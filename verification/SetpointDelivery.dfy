/** When the newest setpoint reaches the devices, and when it does not. */
module SetpointDelivery {
  import opened Common
  import opened Setpoints
  import opened SetpointProtocol
  import P = Publisher
  import D = Dispatcher
  import W = SilenceWatchdog

  // ------------------------------------------------------------ where accepted numbers come from

  /** Every number the guard remembers was sent for its class, and everything sent is conformant. */
  ghost predicate Sourced(c: Config, s: System) {
    && (forall cls | cls in s.lastSeq :: exists m :: SentAs(s, m, cls, s.lastSeq[cls]))
    && (forall m | m in s.wire :: Conformant(m, c.dispatch.dm))
  }

  ghost predicate SentAs(s: System, m: Message, cls: AssetClass, number: int) {
    m in s.wire && m.assetClass == cls && m.seqNo == number
  }

  lemma StepKeepsSourced(c: Config, s: System, a: Action, s': System)
    requires Sourced(c, s) && Step(c, s, a, s')
    ensures Sourced(c, s')
  {
    hide D.Dispatched, W.DEFAULT_SAFE_SETPOINTS, Tripped, Conformant;
    match a {
      case Publish(m, outcome) =>
        StillSent(s, s');
      case Flush =>
        StillSent(s, s');
      case Deliver(payload, limits, now) =>
        D.AcceptedExactly(c.dispatch, s.lastSeq, payload, limits, now);
        NumbersAfter(c, s, payload, limits, now, s');
      case Check(now) =>
        StillSent(s, s');
    }
  }

  lemma StillSent(s: System, s': System)
    requires s'.lastSeq == s.lastSeq && s.wire <= s'.wire
    requires forall cls | cls in s.lastSeq :: exists m :: SentAs(s, m, cls, s.lastSeq[cls])
    ensures forall cls | cls in s'.lastSeq :: exists m :: SentAs(s', m, cls, s'.lastSeq[cls])
  {
    forall cls | cls in s'.lastSeq ensures exists m :: SentAs(s', m, cls, s'.lastSeq[cls]) {
      var m :| SentAs(s, m, cls, s.lastSeq[cls]);
      assert SentAs(s', m, cls, s'.lastSeq[cls]);
    }
  }

  lemma NumbersAfter(c: Config, s: System, payload: Payload, limits: map<string, D.UnitLimits>, now: real, s': System)
    requires forall cls | cls in s.lastSeq :: exists m :: SentAs(s, m, cls, s.lastSeq[cls])
    requires s'.wire == s.wire && (payload.Payload? ==> payload.message in s.wire)
    requires s'.lastSeq == s.lastSeq
      || (payload.Payload? && s'.lastSeq == s.lastSeq[payload.message.assetClass := payload.message.seqNo])
    ensures forall cls | cls in s'.lastSeq :: exists m :: SentAs(s', m, cls, s'.lastSeq[cls])
  {
    forall cls | cls in s'.lastSeq ensures exists m :: SentAs(s', m, cls, s'.lastSeq[cls]) {
      if cls in s.lastSeq && s'.lastSeq[cls] == s.lastSeq[cls] {
        var m :| SentAs(s, m, cls, s.lastSeq[cls]);
        assert SentAs(s', m, cls, s'.lastSeq[cls]);
      } else {
        assert SentAs(s', payload.message, cls, s'.lastSeq[cls]);
      }
    }
  }

  lemma {:induction false} AlwaysSourced(c: Config, ss: seq<System>, acts: seq<Action>, k: nat)
    requires Behavior(c, ss, acts) && k < |ss|
    ensures Sourced(c, ss[k])
  {
    hide Step;
    if k > 0 {
      hide Sourced, Init;
      AlwaysSourced(c, ss, acts, k - 1);
      assert Step(c, ss[k - 1], acts[k - 1], ss[k - 1 + 1]);
      StepKeepsSourced(c, ss[k - 1], acts[k - 1], ss[k]);
    }
  }

  // ------------------------------------------------------------ exactly when the newest is accepted

  /** The newest message published for a class, if any. */
  ghost function Newest(c: Config, s: System, cls: AssetClass): Option<Message> {
    var t := Topic(c.dispatch.site, cls);
    if t in s.pub.latest then Some(s.pub.latest[t]) else None
  }

  /** The message's number was already taken. */
  ghost predicate Taken(s: System, m: Message) { m.assetClass in s.lastSeq && s.lastSeq[m.assetClass] == m.seqNo }

  ghost predicate InTime(c: Config, m: Message, now: real)
    requires m.ts.Some?
  { now - m.ts.value <= c.dispatch.maxAge }

  /** The newest message was sent, and no number the guard remembers is above its own. */
  lemma NewestLeads(c: Config, s: System, cls: AssetClass)
    requires Inv(c, s) && Sourced(c, s) && Newest(c, s, cls).Some?
    ensures var m := Newest(c, s, cls).value;
      && m in s.wire && m.assetClass == cls && m.site == c.dispatch.site
      && (cls in s.lastSeq ==> s.lastSeq[cls] <= m.seqNo)
  {
    var m := Newest(c, s, cls).value;
    assert P.Known(s.pub, m) && P.TopicOf(m) == Topic(c.dispatch.site, cls);
    if cls in s.lastSeq {
      var n :| SentAs(s, n, cls, s.lastSeq[cls]);
      assert WireMessage(c, s.pub, n);
    }
  }

  /** In every state of every behaviour, the newest message of a class, unless its number was taken
      before, is accepted exactly when it arrives within the age limit and the class has units. Nothing
      else the broker did matters. */
  lemma NewestAcceptedExactly(c: Config, ss: seq<System>, acts: seq<Action>, k: nat, cls: AssetClass,
                              limits: map<string, D.UnitLimits>, now: real)
    requires Behavior(c, ss, acts) && k < |ss| && Newest(c, ss[k], cls).Some?
    requires var m := Newest(c, ss[k], cls).value; m.ts.Some? && !Taken(ss[k], m)
    ensures var m := Newest(c, ss[k], cls).value;
      D.Dispatched(c.dispatch, ss[k].lastSeq, Payload(m), limits, now).1.accepted
      <==> InTime(c, m, now) && D.UnitsOf(c.dispatch.assets, cls) != []
  {
    Reachable(c, ss, acts, k);
    AlwaysSourced(c, ss, acts, k);
    hide Inv, Behavior;
    NewestLeads(c, ss[k], cls);
    var m := Newest(c, ss[k], cls).value;
    assert Conformant(m, c.dispatch.dm);
    D.AcceptedExactly(c.dispatch, ss[k].lastSeq, Payload(m), limits, now);
    D.UnitsExactly(c.dispatch.assets, cls);
    hide D.Dispatched, D.UnitsOf, Conformant;
  }

  /** So the delivery of a newest message makes its class follow it under exactly that condition. */
  lemma NewestFollowedExactly(c: Config, ss: seq<System>, acts: seq<Action>, k: nat, cls: AssetClass)
    requires Behavior(c, ss, acts) && k < |acts| && Newest(c, ss[k], cls).Some?
    requires acts[k].Deliver? && acts[k].payload == Payload(Newest(c, ss[k], cls).value)
    requires var m := Newest(c, ss[k], cls).value; m.ts.Some? && !Taken(ss[k], m)
    ensures var m := Newest(c, ss[k], cls).value;
      (cls in ss[k + 1].told && ss[k + 1].told[cls] == Following(m))
      <==> InTime(c, m, acts[k].now) && D.UnitsOf(c.dispatch.assets, cls) != []
  {
    var m, a := Newest(c, ss[k], cls).value, acts[k];
    NewestAcceptedExactly(c, ss, acts, k, cls, a.limits, a.now);
    Reachable(c, ss, acts, k);
    AlwaysSourced(c, ss, acts, k);
    assert Step(c, ss[k], a, ss[k + 1]);
    hide Behavior, D.Dispatched, D.UnitsOf, InTime;
    NewestLeads(c, ss[k], cls);
    NotYetFollowed(c, ss[k], m);
  }

  lemma NotYetFollowed(c: Config, s: System, m: Message)
    requires LogInv(c, s) && ToldInv(c, s) && !Taken(s, m)
    requires m.assetClass in s.lastSeq ==> s.lastSeq[m.assetClass] <= m.seqNo
    requires m.seqNo >= 0 || m.assetClass in s.lastSeq
    ensures !(m.assetClass in s.told && s.told[m.assetClass] == Following(m))
  {
    if m.assetClass in s.told && s.told[m.assetClass] == Following(m) {
      LastOfLogged(s.accepted, m.assetClass);
    }
  }

  // ------------------------------------------------------------ when nothing sent can take effect any more

  ghost predicate TooOld(c: Config, m: Message, now: real) { m.ts.Some? && !InTime(c, m, now) }

  /** Every message ever sent to the class is numbered no higher than one already taken, has no
      timestamp or is too old by now. */
  ghost predicate Spent(c: Config, s: System, cls: AssetClass) {
    forall m | m in s.wire && m.assetClass == cls ::
      m.seqNo <= D.LastSeqOf(s.lastSeq, cls) || m.ts.None? || TooOld(c, m, s.clock)
  }

  ghost function ToldOf(s: System, cls: AssetClass): Option<Told> {
    if cls in s.told then Some(s.told[cls]) else None
  }

  /** Whether the delivery of this message is accepted. */
  ghost predicate TakesEffect(c: Config, s: System, m: Message, limits: map<string, D.UnitLimits>, now: real) {
    D.Dispatched(c.dispatch, s.lastSeq, Payload(m), limits, now).1.accepted
  }

  /** Being spent is exactly that no delivery of anything sent so far can be accepted, now or later. */
  lemma SpentExactly(c: Config, ss: seq<System>, acts: seq<Action>, k: nat, cls: AssetClass)
    requires Behavior(c, ss, acts) && k < |ss| && D.UnitsOf(c.dispatch.assets, cls) != []
    ensures Spent(c, ss[k], cls) <==>
      forall m, limits, now | m in ss[k].wire && m.assetClass == cls && now >= ss[k].clock ::
        !TakesEffect(c, ss[k], m, limits, now)
  {
    Reachable(c, ss, acts, k);
    AlwaysSourced(c, ss, acts, k);
    var s := ss[k];
    hide *;
    forall m, limits: map<string, D.UnitLimits>, now | m in s.wire && m.assetClass == cls
      ensures TakesEffect(c, s, m, limits, now)
        <==> !(m.seqNo <= D.LastSeqOf(s.lastSeq, cls) || m.ts.None? || TooOld(c, m, now))
    {
      SentIsAdmissible(c, s, m, limits, now);
      UntilTooOld(c, m, now);
    }
    SpentSoFar(c, s, cls);
  }

  lemma UntilTooOld(c: Config, m: Message, now: real)
    ensures m.ts.Some? ==> (InTime(c, m, now) <==> !TooOld(c, m, now))
  {}

  lemma SpentSoFar(c: Config, s: System, cls: AssetClass)
    requires forall m, limits: map<string, D.UnitLimits>, now | m in s.wire && m.assetClass == cls ::
      TakesEffect(c, s, m, limits, now)
      <==> !(m.seqNo <= D.LastSeqOf(s.lastSeq, cls) || m.ts.None? || TooOld(c, m, now))
    ensures Spent(c, s, cls) <==>
      forall m, limits, now | m in s.wire && m.assetClass == cls && now >= s.clock :: !TakesEffect(c, s, m, limits, now)
  {
    hide TakesEffect, InTime, D.LastSeqOf;
    if !Spent(c, s, cls) {
      var m :| m in s.wire && m.assetClass == cls
        && !(m.seqNo <= D.LastSeqOf(s.lastSeq, cls) || m.ts.None? || TooOld(c, m, s.clock));
      assert TakesEffect(c, s, m, map[], s.clock);
    } else {
      forall m, limits: map<string, D.UnitLimits>, now | m in s.wire && m.assetClass == cls && now >= s.clock
        ensures !TakesEffect(c, s, m, limits, now)
      {
        LaterIsOlder(c, s, now);
      }
    }
  }

  lemma SentIsAdmissible(c: Config, s: System, m: Message, limits: map<string, D.UnitLimits>, now: real)
    requires Inv(c, s) && Sourced(c, s) && m in s.wire && D.UnitsOf(c.dispatch.assets, m.assetClass) != []
    ensures TakesEffect(c, s, m, limits, now)
      <==> m.seqNo > D.LastSeqOf(s.lastSeq, m.assetClass) && m.ts.Some? && InTime(c, m, now)
  {
    assert WireMessage(c, s.pub, m) && Conformant(m, c.dispatch.dm);
    D.UnitsExactly(c.dispatch.assets, m.assetClass);
    D.AcceptedExactly(c.dispatch, s.lastSeq, Payload(m), limits, now);
    hide Inv, Sourced, Conformant, D.Dispatched, D.UnitsOf;
  }

  /** Once its newest message has taken effect, everything sent to the class is spent. */
  lemma FollowedIsSpent(c: Config, ss: seq<System>, acts: seq<Action>, k: nat, cls: AssetClass)
    requires Behavior(c, ss, acts) && k < |ss| && Newest(c, ss[k], cls).Some?
    requires Taken(ss[k], Newest(c, ss[k], cls).value)
    ensures Spent(c, ss[k], cls)
  {
    Reachable(c, ss, acts, k);
    AlwaysSourced(c, ss, acts, k);
    var s := ss[k];
    hide Behavior;
    NewestLeads(c, s, cls);
    forall m | m in s.wire && m.assetClass == cls ensures m.seqNo <= D.LastSeqOf(s.lastSeq, cls) {
      assert WireMessage(c, s.pub, m) && P.TopicOf(m) == Topic(c.dispatch.site, cls);
    }
  }

  ghost predicate TripsAt(c: Config, s: System, a: Action) { a.Check? && W.TripsNow(c.timeout, s.wd, a.now) }

  ghost predicate TripsBetween(c: Config, ss: seq<System>, acts: seq<Action>, k: nat, j: nat)
    requires |acts| <= |ss| && j <= |acts|
  {
    exists i :: k <= i < j && TripsAt(c, ss[i], acts[i])
  }

  /** A message of the class takes effect here. */
  ghost predicate HeardAt(c: Config, s: System, a: Action, cls: AssetClass) {
    && a.Deliver? && a.payload.Payload? && a.payload.message.assetClass == cls
    && TakesEffect(c, s, a.payload.message, a.limits, a.now)
  }

  lemma ToldStep(c: Config, s: System, a: Action, s': System, cls: AssetClass)
    requires Step(c, s, a, s')
    ensures ToldOf(s', cls) == if HeardAt(c, s, a, cls) then Some(Following(a.payload.message))
                               else if SafeClass(c, cls) && TripsAt(c, s, a) then Some(SafeState)
                               else ToldOf(s, cls)
  {
    hide D.Dispatched, P.PublishStep, P.FlushStep, W.DEFAULT_SAFE_SETPOINTS, W.TripsNow;
    if a.Deliver? {
      AcceptedHasPayload(c, s, a.payload, a.limits, a.now);
    }
  }

  /** A class in its safe state leaves it only by accepting a message of its own: refused deliveries, and
      whatever the other classes accept, do not bring it back. */
  lemma {:induction false} SafeStateStays(c: Config, ss: seq<System>, acts: seq<Action>, k: nat, j: nat,
                                          cls: AssetClass)
    requires Behavior(c, ss, acts) && k <= j < |ss| && ToldOf(ss[k], cls) == Some(SafeState)
    requires forall i | k <= i < j :: !HeardAt(c, ss[i], acts[i], cls)
    ensures ToldOf(ss[j], cls) == Some(SafeState)
    decreases j
  {
    hide Step, Init, HeardAt, SafeClass, TripsAt, ToldOf;
    if k < j {
      SafeStateStays(c, ss, acts, k, j - 1, cls);
      assert Step(c, ss[j - 1], acts[j - 1], ss[j - 1 + 1]);
      ToldStep(c, ss[j - 1], acts[j - 1], ss[j], cls);
    }
  }

  /** No message of the class is sent; a refused one is not. */
  ghost predicate Unaddressed(a: Action, cls: AssetClass) {
    a.Publish? && a.m.assetClass == cls ==> a.outcome == P.Refused
  }

  lemma SpentStep(c: Config, s: System, a: Action, s': System, cls: AssetClass)
    requires Step(c, s, a, s') && Spent(c, s, cls) && Unaddressed(a, cls)
    ensures Spent(c, s', cls)
    ensures ToldOf(s', cls) == if SafeClass(c, cls) && TripsAt(c, s, a) then Some(SafeState) else ToldOf(s, cls)
  {
    ToldStep(c, s, a, s', cls);
    if a.Deliver? {
      SpentDelivery(c, s, a, s', cls);
    } else {
      hide P.PublishStep, P.FlushStep, W.DEFAULT_SAFE_SETPOINTS, W.TripsNow, InTime;
      if a.Check? {
        LaterIsOlder(c, s, a.now);
      }
      assert a.Publish? ==> forall n | n in s'.wire && n.assetClass == cls :: n in s.wire;
    }
  }

  lemma SpentDelivery(c: Config, s: System, a: Action, s': System, cls: AssetClass)
    requires a.Deliver? && Step(c, s, a, s') && Spent(c, s, cls)
    ensures Spent(c, s', cls) && !HeardAt(c, s, a, cls)
  {
    D.AcceptedExactly(c.dispatch, s.lastSeq, a.payload, a.limits, a.now);
    LaterIsOlder(c, s, a.now);
    var next := D.Dispatched(c.dispatch, s.lastSeq, a.payload, a.limits, a.now).0;
    assert s'.wire == s.wire && s'.clock == a.now && s'.lastSeq == next;
    hide Step, D.Dispatched, Conformant;
    assert D.LastSeqOf(next, cls) == D.LastSeqOf(s.lastSeq, cls);
  }

  lemma LaterIsOlder(c: Config, s: System, now: real)
    requires now >= s.clock
    ensures forall m :: TooOld(c, m, s.clock) ==> TooOld(c, m, now)
  {}

  /** From a spent state on, whatever the broker flushes, repeats or delivers late, of this class or of
      another, the class is told nothing but trips until a message of its own is sent: it is in its safe
      state exactly when a trip happened since, and otherwise where it was. */
  lemma {:induction false} OnlyTripsMove(c: Config, ss: seq<System>, acts: seq<Action>, k: nat, j: nat,
                                         cls: AssetClass)
    requires Behavior(c, ss, acts) && k <= j < |ss| && Spent(c, ss[k], cls)
    requires forall i | k <= i < j :: Unaddressed(acts[i], cls)
    ensures Spent(c, ss[j], cls)
    ensures ToldOf(ss[j], cls)
         == if SafeClass(c, cls) && TripsBetween(c, ss, acts, k, j) then Some(SafeState) else ToldOf(ss[k], cls)
    decreases j
  {
    hide Step, Init, Spent, ToldOf, SafeClass, TripsAt, Unaddressed;
    if k < j {
      OnlyTripsMove(c, ss, acts, k, j - 1, cls);
      assert Step(c, ss[j - 1], acts[j - 1], ss[j - 1 + 1]);
      SpentStep(c, ss[j - 1], acts[j - 1], ss[j], cls);
      assert TripsBetween(c, ss, acts, k, j)
        <==> TripsBetween(c, ss, acts, k, j - 1) || TripsAt(c, ss[j - 1], acts[j - 1]);
    }
  }
}

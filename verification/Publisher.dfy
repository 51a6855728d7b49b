/** The controller's setpoint publisher: numbered messages, latest-wins parking while the broker is away. */
module Publisher {
  import opened Common
  import opened Setpoints

  datatype Outcome = Refused | Sent | Parked

  /** handed and latest are history: what the broker took, and the last message built per topic. */
  datatype PubState = PubState(
    seqNo: nat, pending: map<Topic, Message>, handed: set<Message>, latest: map<Topic, Message>)

  function TopicOf(m: Message): Topic { Topic(m.site, m.assetClass) }

  /** The message of the next publish call. */
  function Build(dm: DataModel, site: string, seqNo: nat, assetClass: AssetClass, setpoints: Points, now: real)
    : Message
  {
    Message(dm.version, site, Some(now), seqNo + 1, assetClass, setpoints)
  }

  /** A flush: some parked messages, in any order, are handed over and leave the queue. */
  ghost predicate FlushStep(s: PubState, s': PubState) {
    && s'.seqNo == s.seqNo && s'.latest == s.latest
    && s'.pending.Keys <= s.pending.Keys
    && (forall t | t in s'.pending :: s'.pending[t] == s.pending[t])
    && s'.handed == s.handed + set t | t in s.pending && t !in s'.pending :: s.pending[t]
  }

  ghost predicate PublishStep(dm: DataModel, s: PubState, m: Message, r: Outcome, s': PubState) {
    var t, n := TopicOf(m), s.(seqNo := s.seqNo + 1);
    && (r == Refused <==> !Conformant(m, dm))
    && match r
       case Refused => s' == n
       case Parked => s' == n.(pending := s.pending[t := m], latest := s.latest[t := m])
       case Sent => FlushStep(n.(handed := s.handed + {m}, latest := s.latest[t := m]), s')
  }

  ghost predicate Known(s: PubState, m: Message) {
    m in s.handed || (TopicOf(m) in s.pending && s.pending[TopicOf(m)] == m)
  }

  /** No latest setpoint is lost: it was handed over or is the one parked. */
  ghost predicate LatestKept(s: PubState) {
    forall t | t in s.latest :: TopicOf(s.latest[t]) == t && Known(s, s.latest[t])
  }

  /** Parked messages sit under their own topic; nothing known is newer than the latest of its topic
      or above the counter. */
  ghost predicate Ordered(s: PubState) {
    && (forall t | t in s.pending :: TopicOf(s.pending[t]) == t)
    && (forall m | Known(s, m) ::
          m.seqNo <= s.seqNo && TopicOf(m) in s.latest && m.seqNo <= s.latest[TopicOf(m)].seqNo)
  }

  ghost predicate Unique(s: PubState) {
    forall m, m' | Known(s, m) && Known(s, m') && m.seqNo == m'.seqNo :: m == m'
  }

  ghost predicate Inv(s: PubState) { LatestKept(s) && Ordered(s) && Unique(s) }

  lemma FlushKeepsInv(s: PubState, s': PubState)
    requires Inv(s) && FlushStep(s, s')
    ensures Inv(s')
    ensures forall m :: Known(s', m) <==> Known(s, m)
  {
    forall m ensures Known(s', m) <==> Known(s, m) {
      FlushKnows(s, s', m);
    }
    hide Known;
  }

  lemma FlushKnows(s: PubState, s': PubState, m: Message)
    requires Ordered(s) && FlushStep(s, s')
    ensures Known(s', m) <==> Known(s, m)
  {
    if m in s'.handed && m !in s.handed {
      var t :| t in s.pending && t !in s'.pending && s.pending[t] == m;
      assert TopicOf(m) == t;
    }
    if TopicOf(m) in s.pending && s.pending[TopicOf(m)] == m && TopicOf(m) !in s'.pending {
      assert m in s'.handed;
    }
  }

  /** A conformant message was numbered and either handed over or parked. */
  ghost predicate Noted(s: PubState, m: Message, n: PubState) {
    && n.seqNo == s.seqNo + 1 && n.latest == s.latest[TopicOf(m) := m]
    && ((n.pending == s.pending && n.handed == s.handed + {m})
        || (n.pending == s.pending[TopicOf(m) := m] && n.handed == s.handed))
  }

  lemma NotedKnows(s: PubState, m: Message, n: PubState, k: Message)
    requires Noted(s, m, n)
    ensures Known(n, m)
    ensures Known(n, k) ==> Known(s, k) || k == m
    ensures TopicOf(k) != TopicOf(m) && Known(s, k) ==> Known(n, k)
  {}

  lemma NotedKeepsInv(s: PubState, m: Message, n: PubState)
    requires Inv(s) && m.seqNo == s.seqNo + 1 && Noted(s, m, n)
    ensures Inv(n) && Known(n, m)
    ensures forall k :: Known(n, k) ==> Known(s, k) || k == m
  {
    NotedKnows(s, m, n, m);
    forall k ensures Known(n, k) ==> Known(s, k) || k == m {
      NotedKnows(s, m, n, k);
    }
    assert forall t | t in n.pending :: TopicOf(n.pending[t]) == t;
    hide Known;
    NotedOrdered(s, m, n);
    NotedUnique(s, m, n);
    forall t | t in n.latest ensures TopicOf(n.latest[t]) == t && Known(n, n.latest[t]) {
      if t != TopicOf(m) {
        NotedKnows(s, m, n, s.latest[t]);
      }
    }
    hide Ordered, Unique;
  }

  lemma NotedOrdered(s: PubState, m: Message, n: PubState)
    requires Ordered(s) && m.seqNo == s.seqNo + 1 && n.seqNo == s.seqNo + 1 && n.latest == s.latest[TopicOf(m) := m]
    requires forall k :: Known(n, k) ==> Known(s, k) || k == m
    requires forall t | t in n.pending :: TopicOf(n.pending[t]) == t
    ensures Ordered(n)
  {
    hide Known;
  }

  lemma NotedUnique(s: PubState, m: Message, n: PubState)
    requires Ordered(s) && Unique(s) && m.seqNo == s.seqNo + 1
    requires forall k :: Known(n, k) ==> Known(s, k) || k == m
    ensures Unique(n)
  {
    hide Known;
  }

  /** Whatever the broker's answers: one number per message, at most one parked message per topic,
      nothing parked or handed above the counter, no latest message lost. */
  lemma PublishKeepsInv(dm: DataModel, s: PubState, m: Message, r: Outcome, s': PubState)
    requires Inv(s) && m.seqNo == s.seqNo + 1 && PublishStep(dm, s, m, r, s')
    ensures Inv(s')
    ensures r != Refused ==> TopicOf(m) in s'.latest && s'.latest[TopicOf(m)] == m && Known(s', m)
    ensures forall k :: Known(s', k) ==> Known(s, k) || (k == m && r != Refused)
  {
    hide Conformant;
    match r {
      case Refused =>
        assert forall k :: Known(s', k) <==> Known(s, k);
        hide Known;
      case Parked =>
        hide Known;
        NotedKeepsInv(s, m, s');
      case Sent =>
        hide Known, Inv, FlushStep;
        var n := s.(seqNo := s.seqNo + 1, handed := s.handed + {m}, latest := s.latest[TopicOf(m) := m]);
        NotedKeepsInv(s, m, n);
        FlushKeepsInv(n, s');
        assert s'.latest == n.latest by { FlushKeepsLatest(n, s'); }
    }
  }

  lemma PublishNotes(dm: DataModel, s: PubState, m: Message, r: Outcome, s': PubState)
    requires PublishStep(dm, s, m, r, s')
    ensures s'.seqNo == s.seqNo + 1 && s'.latest == if r == Refused then s.latest else s.latest[TopicOf(m) := m]
  {}

  lemma FlushKeepsLatest(s: PubState, s': PubState)
    requires FlushStep(s, s')
    ensures s'.latest == s.latest
  {}

  class MqttSetpointPublisher {
    const dm: DataModel
    const site: string
    var seqNo: nat
    var pending: map<Topic, Message>
    var handed: set<Message>  // messages the broker took
    ghost var latest: map<Topic, Message>

    constructor (dm: DataModel, site: string)
      ensures this.dm == dm && this.site == site
      ensures State() == PubState(0, map[], {}, map[]) && Inv(State())
    {
      this.dm, this.site := dm, site;
      seqNo, pending, handed, latest := 0, map[], {}, map[];
    }

    ghost function State(): PubState reads this { PubState(seqNo, pending, handed, latest) }

    method PublishSetpoints(assetClass: AssetClass, setpoints: Points, now: real) returns (r: Outcome)
      requires Inv(State())
      modifies this
      ensures r != Refused ==>
        && Topic(site, assetClass) in latest
        && latest[Topic(site, assetClass)]
           == Message(dm.version, site, Some(now), old(seqNo) + 1, assetClass, setpoints)
      ensures PublishStep(dm, old(State()), Build(dm, site, old(seqNo), assetClass, setpoints, now), r, State())
      ensures Inv(State())
    {
      hide Inv, Conformant, FlushStep, Known;
      var m := Build(dm, site, seqNo, assetClass, setpoints, now);
      ghost var before := State();
      seqNo := seqNo + 1;
      if !Conformant(m, dm) {
        r := Refused;
      } else {
        latest := latest[TopicOf(m) := m];
        var ok := Try(m);
        if ok {
          ghost var noted := State();
          var sent := FlushPending();
          assert FlushStep(noted, State());
          r := Sent;
        } else {
          pending := pending[TopicOf(m) := m];
          r := Parked;
        }
      }
      PublishKeepsInv(dm, before, m, r, State());
    }

    /** Re-sends the parked messages; a failure leaves its message parked and the scan goes on. */
    method FlushPending() returns (sent: nat)
      modifies this`pending, this`handed
      ensures FlushStep(old(State()), State())
      ensures sent == |old(pending)| - |pending|
    {
      sent := 0;
      var todo := pending.Keys;
      while todo != {}
        invariant todo <= pending.Keys <= old(pending).Keys
        invariant FlushStep(old(State()), State())
        invariant sent == |old(pending)| - |pending|
        decreases todo
      {
        var topic :| topic in todo;
        todo := todo - {topic};
        var ok := Try(pending[topic]);
        if ok {
          ghost var before := pending;
          pending := pending - {topic};
          Shrinks(before, topic);
          sent := sent + 1;
        }
      }
    }

    /** The broker's answer is arbitrary. */
    method Try(m: Message) returns (ok: bool)
      modifies this`handed
      ensures handed == if ok then old(handed) + {m} else old(handed)
    {
      ok := *;
      if ok {
        handed := handed + {m};
      }
    }
  }

  lemma Shrinks(m: map<Topic, Message>, k: Topic)
    requires k in m
    ensures |m| == |m - {k}| + 1
  {
    assert m.Keys == (m - {k}).Keys + {k};
    assert |m| == |m.Keys| && |m - {k}| == |(m - {k}).Keys|;
  }
}

/** The loop's publishing on change over the setpoint protocol. */
module LoopDelivery {
  import opened Common
  import opened Setpoints
  import opened SetpointProtocol
  import opened SetpointDelivery
  import CL = ControlLoop

  /** What the behaviour's publish calls were asked to send, in order. */
  ghost function Sends(acts: seq<Action>): seq<CL.Published> {
    if acts == [] then []
    else
      var a := acts[|acts| - 1];
      Sends(acts[..|acts| - 1]) + if a.Publish? then [CL.Published(a.m.assetClass, a.m.setpoints)] else []
  }

  lemma SendsOne(acts: seq<Action>, a: Action)
    ensures Sends(acts + [a])
         == Sends(acts) + if a.Publish? then [CL.Published(a.m.assetClass, a.m.setpoints)] else []
  {
    assert (acts + [a])[..|acts|] == acts;
  }

  lemma {:induction false} SendsGrow(acts: seq<Action>, i: nat, j: nat)
    requires i <= j <= |acts|
    ensures Sends(acts[..i]) <= Sends(acts[..j])
    decreases j
  {
    if i < j {
      SendsGrow(acts, i, j - 1);
      assert acts[..j][..j - 1] == acts[..j - 1];
    }
  }

  /** The publish calls are those of a loop through cycles ys + zs, in which the factor of the class stays
      what it was after ys. */
  ghost predicate DrivenUnchanged(loop: CL.LoopConfig, ys: seq<CL.Cycle>, zs: seq<CL.Cycle>, acts: seq<Action>,
                                  cls: AssetClass)
  {
    && CL.ValidLoop(loop) && ys != [] && (cls == Pv || cls == FlexibleLoad)
    && Sends(acts) <= CL.Outbox(loop, ys + zs)
    && CL.FactorStays(loop, ys, zs, cls)
  }

  lemma LoopLeavesUnaddressed(loop: CL.LoopConfig, ys: seq<CL.Cycle>, zs: seq<CL.Cycle>, acts: seq<Action>,
                              cls: AssetClass, k: nat, i: nat)
    requires DrivenUnchanged(loop, ys, zs, acts, cls)
    requires k <= i < |acts| && |CL.Outbox(loop, ys)| <= |Sends(acts[..k])|
    ensures Unaddressed(acts[i], cls)
  {
    hide CL.FactorStays, CL.Outbox, CL.ValidLoop, CL.NothingFor, CL.Factors, CL.FactorOf, Sends;
    CL.NotSentAgain(loop, ys, zs, cls);
    SentSince(acts, k, i);
    if acts[i].Publish? {
      SentIsOther(Sends(acts[..i]), CL.Published(acts[i].m.assetClass, acts[i].m.setpoints), Sends(acts),
                  CL.Outbox(loop, ys + zs), |CL.Outbox(loop, ys)|, cls);
    }
  }

  lemma SentSince(acts: seq<Action>, k: nat, i: nat)
    requires k <= i < |acts|
    ensures |Sends(acts[..k])| <= |Sends(acts[..i])|
    ensures var a := acts[i];
      a.Publish? ==> Sends(acts[..i]) + [CL.Published(a.m.assetClass, a.m.setpoints)] <= Sends(acts)
  {
    hide Sends;
    SendsGrow(acts, k, i);
    SendsGrow(acts, i + 1, |acts|);
    assert acts[..|acts|] == acts && acts[..i + 1] == acts[..i] + [acts[i]];
    SendsOne(acts[..i], acts[i]);
  }

  lemma SentIsOther(before: seq<CL.Published>, x: CL.Published, sent: seq<CL.Published>, out: seq<CL.Published>,
                    from: nat, cls: AssetClass)
    requires from <= |before| && before + [x] <= sent <= out && CL.NothingFor(out, from, cls)
    ensures x.assetClass != cls
  {
    assert sent[|before|] == out[|before|] && (before + [x])[|before|] == x;
  }

  /** Publishing on change relies on one delivery: once everything sent to the class is spent, then for as
      long as the factor stays in force the class keeps what it was told, or is left in its safe state by
      a trip. */
  lemma UnchangedFactorStaysUntold(c: Config, ss: seq<System>, acts: seq<Action>, k: nat, loop: CL.LoopConfig,
                                   ys: seq<CL.Cycle>, zs: seq<CL.Cycle>, cls: AssetClass)
    requires Behavior(c, ss, acts) && k < |ss| && Spent(c, ss[k], cls)
    requires DrivenUnchanged(loop, ys, zs, acts, cls) && |CL.Outbox(loop, ys)| <= |Sends(acts[..k])|
    ensures var j := |acts|;
      && Spent(c, ss[j], cls)
      && ToldOf(ss[j], cls)
         == if SafeClass(c, cls) && TripsBetween(c, ss, acts, k, j) then Some(SafeState) else ToldOf(ss[k], cls)
  {
    hide Step, DrivenUnchanged, Spent, ToldOf, SafeClass, Unaddressed;
    forall i | k <= i < |acts| ensures Unaddressed(acts[i], cls) {
      LoopLeavesUnaddressed(loop, ys, zs, acts, cls, k, i);
    }
    OnlyTripsMove(c, ss, acts, k, |acts|, cls);
  }

  /** A longer behaviour with the same beginning. */
  ghost predicate Continues(c: Config, ss: seq<System>, acts: seq<Action>, ss': seq<System>, acts': seq<Action>) {
    Behavior(c, ss', acts') && |ss| == |acts| + 1 && ss <= ss' && acts <= acts'
  }

  lemma LostForGood(c: Config, ss: seq<System>, acts: seq<Action>, ss': seq<System>, acts': seq<Action>,
                    loop: CL.LoopConfig, ys: seq<CL.Cycle>, zs: seq<CL.Cycle>, cls: AssetClass)
    requires Continues(c, ss, acts, ss', acts') && Spent(c, ss[|acts|], cls)
    requires DrivenUnchanged(loop, ys, zs, acts', cls) && |CL.Outbox(loop, ys)| <= |Sends(acts)|
    ensures ToldOf(ss'[|acts'|], cls)
         == if SafeClass(c, cls) && TripsBetween(c, ss', acts', |acts|, |acts'|) then Some(SafeState)
            else ToldOf(ss[|acts|], cls)
  {
    assert acts'[..|acts|] == acts;
    assert ss'[|acts|] == ss[|acts|];
    hide Step, Init, DrivenUnchanged, Spent, ToldOf, SafeClass, TripsBetween, CL.Outbox, Sends;
    UnchangedFactorStaysUntold(c, ss', acts', |acts|, loop, ys, zs, cls);
  }
}

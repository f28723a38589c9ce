/**
 When the running system can never deliver again, exactly.

 That takes more than the drain alone: a descriptor outside the FIFO counts only if its ring can still submit it.
 A ring that has stopped after a failed submit never does, and neither does one that waits for the buffer first in
 line while that buffer's completion is among those the mask hides.
 */
module StreamDeadlock {
  import Sequences
  import opened StreamPath
  import R = ZeroCopyRing
  import C = CompletionDrain

  /**
   Nothing left to pop, a backlog the mask reads as 0, no transfer under way, and no ring of rx that could submit.
   With rx all rings, this is the deadlock of the system.
   */
  ghost predicate Dead(s: System, rx: set<nat>) {
    C.Dry(s.drain) && forall i :: 0 <= i < |s.rings| && i in rx ==> R.Blocked(s.rings[i])
  }

  /** A run that delivers, submitting from rings of rx only. */
  ghost predicate Delivers(s: System, rx: set<nat>, run: seq<Step>) {
    Legal(s, run) && SubmitsWithin(run, rx) && |Exec(s, run).drain.delivered| > |s.drain.delivered|
  }

  ghost predicate CanDeliver(s: System, rx: set<nat>) {
    exists run :: Delivers(s, rx, run)
  }

  // ---------------------------------------------------------------- dead for ever

  lemma {:induction false} DeadStep(s: System, rx: set<nat>, step: Step)
    requires Inv(s) && Dead(s, rx) && Enabled(s, step) && (step.SubmitTo? ==> step.ring in rx)
    ensures var t := Apply(s, step);
            Dead(t, rx) && t.drain.fifo == s.drain.fifo && t.drain.delivered == s.drain.delivered
  {
    match step
    case OnRing(r, st) =>
      if r in rx {
        R.BlockedKept(s.rings[r], st);
      }
    case SubmitTo(r) =>
      R.BlockedCannotSubmit(s.rings[r]);
    case OnDrain(st) =>
      C.DryStep(s.drain, st);
    case Deliver =>
      C.DryStep(s.drain, C.Pop);
  }

  lemma {:induction false} DeadForever(s: System, rx: set<nat>, run: seq<Step>)
    requires Inv(s) && Dead(s, rx) && Legal(s, run) && SubmitsWithin(run, rx)
    ensures var t := Exec(s, run);
            Dead(t, rx) && t.drain.fifo == s.drain.fifo && t.drain.delivered == s.drain.delivered
  {
    if run != [] {
      var front, last := run[..|run| - 1], run[|run| - 1];
      DeadForever(s, rx, front);
      Invariant(s, front);
      assert last.SubmitTo? ==> last.ring in rx;
      DeadStep(Exec(s, front), rx, last);
    }
  }

  // ---------------------------------------------------------------- otherwise one more delivery

  lemma {:induction false} DeliverNow(s: System) returns (run: seq<Step>)
    requires Inv(s) && s.drain.pc.Popping? && s.drain.pc.n > 0
    ensures Delivers(s, {}, run)
  {
    PoppedHasTransfer(s);
    run := [];
    RunSnoc(s, run, Deliver);
    run := run + [Deliver];
  }

  lemma {:induction false} CountAndDeliver(s: System) returns (run: seq<Step>)
    requires Inv(s) && C.Masked(|s.drain.fifo|, s.drain.modulus) > 0
    ensures Delivers(s, {}, run)
  {
    if s.drain.pc.Popping? && s.drain.pc.n > 0 {
      run := DeliverNow(s);
    } else {
      var steps := C.CountUp(s.drain);
      run := LiftDrain(s, steps);
      Invariant(s, run);
      var last := DeliverNow(Exec(s, run));
      Continue(s, {}, run, last);
      run := run + last;
    }
  }

  /** A pass in progress, a backlog the mask does not hide, or a transfer under way: no submit is needed. */
  lemma {:induction false} WetDelivers(s: System) returns (run: seq<Step>)
    requires Inv(s) && !C.Dry(s.drain) && s.drain.modulus > 1
    ensures Delivers(s, {}, run)
  {
    if s.drain.pc.Popping? && s.drain.pc.n > 0 {
      run := DeliverNow(s);
    } else if C.Masked(|s.drain.fifo|, s.drain.modulus) > 0 {
      run := CountAndDeliver(s);
    } else {
      run := CompleteAndDeliver(s);
    }
  }

  lemma {:induction false} CompleteAndDeliver(s: System) returns (run: seq<Step>)
    requires Inv(s) && C.Masked(|s.drain.fifo|, s.drain.modulus) == 0 && s.drain.modulus > 1
    requires s.drain.outstanding != {}
    ensures Delivers(s, {}, run)
  {
    hide Inv;
    var d :| d in s.drain.outstanding;
    var first: seq<Step> := [];
    RunSnoc(s, first, OnDrain(C.Complete(d)));
    first := first + [OnDrain(C.Complete(d))];
    Invariant(s, first);
    C.OneMore(|s.drain.fifo|, s.drain.modulus);
    var more := CountAndDeliver(Exec(s, first));
    Continue(s, {}, first, more);
    run := first + more;
  }

  /** A delivering run after one that does not deliver. */
  lemma {:induction false} Continue(s: System, rx: set<nat>, run: seq<Step>, more: seq<Step>)
    requires Legal(s, run) && SubmitsWithin(run, rx) && Exec(s, run).drain.delivered == s.drain.delivered
    requires Delivers(Exec(s, run), {}, more)
    ensures Delivers(s, rx, run + more)
  {
    RunConcat(s, run, more);
    WithinConcat(run, more, rx);
  }

  lemma {:induction false} WithinConcat(run: seq<Step>, more: seq<Step>, rx: set<nat>)
    requires SubmitsWithin(run, rx) && SubmitsWithin(more, {})
    ensures SubmitsWithin(run + more, rx)
  {
    assert forall k :: 0 <= k < |more| ==> !more[k].SubmitTo?;
    forall k | 0 <= k < |run + more| ensures (run + more)[k].SubmitTo? ==> (run + more)[k].ring in rx {
      assert (run + more)[k] == if k < |run| then run[k] else more[k - |run|];
    }
  }

  /** A ring that is not blocked gets a buffer to the card. */
  lemma {:induction false} RingSubmits(rings: seq<Ring>, modulus: nat, before: seq<Step>, r: nat)
    returns (run: seq<Step>)
    requires Wellformed(rings) && Legal(Start(rings, modulus), before)
    requires var s := Exec(Start(rings, modulus), before); r < |s.rings| && !R.Blocked(s.rings[r])
    ensures var s := Exec(Start(rings, modulus), before);
            && Legal(s, run) && SubmitsWithin(run, {r})
            && Exec(s, run).drain.outstanding != {} && Exec(s, run).drain.delivered == s.drain.delivered
  {
    hide Inv;
    hide R.Inv;
    hide R.Blocked;
    hide R.Enabled;
    hide Enabled;
    hide Apply;
    hide Configured;
    var s := Exec(Start(rings, modulus), before);
    RingInv(rings, modulus, before, r);
    var steps := R.CanSubmit(s.rings[r]);
    run := Lift(s, r, steps);
    RunConcat(Start(rings, modulus), before, run);
    Reached(rings, modulus, before + run);
    SubmitHead(rings, modulus, Exec(s, run), r);
    RunSnoc(s, run, SubmitTo(r));
    run := run + [SubmitTo(r)];
  }

  lemma {:induction false} RingInv(rings: seq<Ring>, modulus: nat, before: seq<Step>, r: nat)
    requires Wellformed(rings) && Legal(Start(rings, modulus), before)
    requires r < |Exec(Start(rings, modulus), before).rings|
    ensures R.Inv(Exec(Start(rings, modulus), before).rings[r])
  {
    Reached(rings, modulus, before);
  }

  lemma {:induction false} SubmitHead(rings: seq<Ring>, modulus: nat, s: System, r: nat)
    requires Inv(s) && Configured(rings, modulus, s)
    requires r < |s.rings| && R.Enabled(s.rings[r], R.Accept)
    ensures Enabled(s, SubmitTo(r))
    ensures var t := Apply(s, SubmitTo(r)); t.drain.outstanding != {} && t.drain.delivered == s.drain.delivered
  {
    HeadCanBeSubmitted(rings, modulus, s, r);
    assert Desc(r, s.rings[r].released[0]) in Apply(s, SubmitTo(r)).drain.outstanding;
  }

  /** If need be after a submit of an unblocked ring, the drain has something to work on. */
  lemma {:induction false} Moisten(rings: seq<Ring>, modulus: nat, before: seq<Step>, rx: set<nat>)
    returns (run: seq<Step>)
    requires Wellformed(rings) && Legal(Start(rings, modulus), before)
    requires !Dead(Exec(Start(rings, modulus), before), rx)
    ensures var s := Exec(Start(rings, modulus), before);
            && Legal(s, run) && SubmitsWithin(run, rx)
            && !C.Dry(Exec(s, run).drain) && Exec(s, run).drain.delivered == s.drain.delivered
  {
    var s := Exec(Start(rings, modulus), before);
    if C.Dry(s.drain) {
      var r :| 0 <= r < |s.rings| && r in rx && !R.Blocked(s.rings[r]);
      run := RingSubmits(rings, modulus, before, r);
    } else {
      run := [];
    }
  }

  lemma {:induction false} NotDeadDelivers(rings: seq<Ring>, modulus: nat, before: seq<Step>, rx: set<nat>)
    returns (run: seq<Step>)
    requires Wellformed(rings) && modulus > 1 && Legal(Start(rings, modulus), before)
    requires !Dead(Exec(Start(rings, modulus), before), rx)
    ensures Delivers(Exec(Start(rings, modulus), before), rx, run)
  {
    hide Inv;
    hide Dead;
    hide Delivers;
    hide C.Dry;
    var s := Exec(Start(rings, modulus), before);
    var first := Moisten(rings, modulus, before, rx);
    RunConcat(Start(rings, modulus), before, first);
    Reached(rings, modulus, before + first);
    var more := WetDelivers(Exec(s, first));
    Continue(s, rx, first, more);
    run := first + more;
  }

  /**
   In every reachable state: some run that submits from rings of rx only delivers again if and only if the state
   is not dead for rx.
   */
  lemma {:induction false} DeadExactly(rings: seq<Ring>, modulus: nat, before: seq<Step>, rx: set<nat>)
    requires Wellformed(rings) && modulus > 1 && Legal(Start(rings, modulus), before)
    ensures CanDeliver(Exec(Start(rings, modulus), before), rx) <==> !Dead(Exec(Start(rings, modulus), before), rx)
  {
    var s := Exec(Start(rings, modulus), before);
    Reached(rings, modulus, before);
    if Dead(s, rx) {
      forall run | Legal(s, run) && SubmitsWithin(run, rx) ensures !Delivers(s, rx, run) {
        DeadForever(s, rx, run);
      }
    } else {
      var run := NotDeadDelivers(rings, modulus, before, rx);
      assert Delivers(s, rx, run);
    }
  }

  // ---------------------------------------------------------------- stalls and full backlogs are dead

  /** A stall of some rings is dead for them: nothing they can do brings a delivery. */
  lemma {:induction false} StalledIsDead(s: System, rx: set<nat>)
    requires Inv(s) && Stalled(s, rx)
    ensures Dead(s, rx)
  {
    forall i | 0 <= i < |s.rings| && i in rx ensures R.Blocked(s.rings[i]) {
      R.AllInFlightIsBlocked(s.rings[i]);
    }
  }

  /** With all descriptors in a FIFO read as 0, the system is dead for all its rings. */
  lemma {:induction false} FullBacklogIsDead(rings: seq<Ring>, modulus: nat, s: System, rx: set<nat>)
    requires Inv(s) && Configured(rings, modulus, s) && C.Stuck(s.drain)
    ensures Dead(s, rx)
  {
    C.BacklogFits(s.drain);
    StuckMeansAllInFlight(rings, modulus, s);
    forall i | 0 <= i < |s.rings| && i in rx ensures R.Blocked(s.rings[i]) {
      R.AllInFlightIsBlocked(s.rings[i]);
    }
  }

  // ---------------------------------------------------------------- which backlogs can be dead

  /** Ring i is stopped, or still as Filled left it. */
  ghost predicate StoppedUpTo(rings: seq<Ring>, s: System, c: seq<nat>, k: nat) {
    && Counts(rings, c) && |s.rings| == |rings|
    && forall i :: 0 <= i < |rings| ==>
         if i < k && c[i] < |rings[i].order| then s.rings[i].status.Error? else PartFilled(s.rings[i], rings[i], c[i])
  }

  /** A ring with a buffer to spare stops on a rejected submit. */
  lemma {:induction false} StopRing(s: System, r: nat, ring: Ring, k: nat) returns (run: seq<Step>)
    requires Sequences.Distinct(ring.order) && r < |s.rings| && k < |ring.order| && PartFilled(s.rings[r], ring, k)
    ensures Legal(s, run) && Exec(s, run).drain == s.drain
    ensures |Exec(s, run).rings| == |s.rings| && Exec(s, run).rings[r].status.Error?
    ensures forall i :: 0 <= i < |s.rings| && i != r ==> Exec(s, run).rings[i] == s.rings[i]
  {
    run := Ready(s, r, ring, k);
    var m := Exec(s, run);
    var steps := R.RejectedRelease(m.rings[r], ring.order[k]);
    var more := Lift(m, r, steps);
    RunConcat(s, run, more);
    run := run + more;
  }

  lemma {:induction false} StopAll(rings: seq<Ring>, s: System, c: seq<nat>, k: nat) returns (run: seq<Step>)
    requires Wellformed(rings) && k <= |rings| && StoppedUpTo(rings, s, c, k)
    ensures Legal(s, run) && Exec(s, run).drain == s.drain && StoppedUpTo(rings, Exec(s, run), c, |rings|)
    decreases |rings| - k
  {
    if k == |rings| {
      run := [];
    } else {
      run := [];
      if c[k] < |rings[k].order| {
        run := StopRing(s, k, rings[k], c[k]);
      }
      var more := StopAll(rings, Exec(s, run), c, k + 1);
      RunConcat(s, run, more);
      run := run + more;
    }
  }

  lemma {:induction false} StoppedIsDead(rings: seq<Ring>, modulus: nat, s: System, t: System, c: seq<nat>,
                                         rx: set<nat>)
    requires Filled(rings, modulus, s, c) && C.Masked(Total(c), modulus) == 0
    requires Inv(t) && Configured(rings, modulus, t) && t.drain == s.drain && StoppedUpTo(rings, t, c, |rings|)
    ensures Dead(t, rx)
  {
    forall i | 0 <= i < |t.rings| && i in rx ensures R.Blocked(t.rings[i]) {
      if c[i] == |rings[i].order| {
        forall b | b in t.rings[i].pool ensures b in t.rings[i].inFlight {
          assert rings[i].order[..c[i]] == rings[i].order;
          assert InFirst(rings, c, Desc(i, b));
          assert Desc(i, b) in t.drain.fifo;
        }
        R.AllInFlightIsBlocked(t.rings[i]);
      }
    }
  }

  ghost predicate ReachesDead(rings: seq<Ring>, modulus: nat, rx: set<nat>, backlog: nat) {
    exists run :: Legal(Start(rings, modulus), run) && Dead(Exec(Start(rings, modulus), run), rx)
                  && |Exec(Start(rings, modulus), run).drain.fifo| == backlog
  }

  /**
   The system can be dead on a given backlog if and only if the mask reads it as 0 and there are that many
   frames; the rings left over may have stopped after a failed submit.
   */
  lemma {:induction false} DeadReachable(rings: seq<Ring>, modulus: nat, rx: set<nat>, backlog: nat)
    requires Wellformed(rings)
    ensures ReachesDead(rings, modulus, rx, backlog)
       <==> backlog <= Frames(rings) && C.Masked(backlog, modulus) == 0
  {
    if ReachesDead(rings, modulus, rx, backlog) {
      var run :| Legal(Start(rings, modulus), run) && Dead(Exec(Start(rings, modulus), run), rx)
                 && |Exec(Start(rings, modulus), run).drain.fifo| == backlog;
      Reached(rings, modulus, run);
      BacklogFits(rings, modulus, Exec(Start(rings, modulus), run));
    }
    if backlog <= Frames(rings) && C.Masked(backlog, modulus) == 0 {
      NoFrames(rings);
      var c := Choose(rings, {}, backlog);
      var run := FillTo(rings, modulus, c);
      var s := Exec(Start(rings, modulus), run);
      var more := StopAll(rings, s, c, 0);
      RunConcat(Start(rings, modulus), run, more);
      Reached(rings, modulus, run + more);
      StoppedIsDead(rings, modulus, s, Exec(s, more), c, rx);
      assert Legal(Start(rings, modulus), run + more);
    }
  }

  lemma {:induction false} NoFrames(rings: seq<Ring>)
    ensures Frames(Only(rings, {})) == 0
  {
    if rings != [] {
      assert Only(rings, {})[..|rings| - 1] == Only(rings[..|rings| - 1], {});
      NoFrames(rings[..|rings| - 1]);
    }
  }

  /** Completions can be hidden for ever if and only if there are frames, and as many as the mask counts to. */
  lemma {:induction false} DeadlockPossible(rings: seq<Ring>, modulus: nat, rx: set<nat>)
    requires Wellformed(rings)
    ensures (exists backlog :: backlog > 0 && ReachesDead(rings, modulus, rx, backlog))
       <==> Frames(rings) > 0 && modulus <= Frames(rings)
  {
    if backlog :| backlog > 0 && ReachesDead(rings, modulus, rx, backlog) {
      DeadReachable(rings, modulus, rx, backlog);
      C.MaskedBelow(backlog, modulus);
    }
    if Frames(rings) > 0 && modulus <= Frames(rings) {
      var backlog := if modulus == 0 then 1 else modulus;
      DeadReachable(rings, modulus, rx, backlog);
      assert backlog > 0 && ReachesDead(rings, modulus, rx, backlog);
    }
  }

  // ---------------------------------------------------------------- and without a failed submit

  ghost predicate NoneFailed(s: System) {
    forall i :: 0 <= i < |s.rings| ==> s.rings[i].status.Running?
  }

  /** The numbers below n. */
  function AllRings(n: nat): (r: set<nat>)
    ensures forall i: nat :: i in r <==> i < n
  {
    if n == 0 then {} else AllRings(n - 1) + {n - 1}
  }

  ghost predicate ReachesDeadUnfailed(rings: seq<Ring>, modulus: nat, backlog: nat) {
    exists run :: Legal(Start(rings, modulus), run) && NoneFailed(Exec(Start(rings, modulus), run))
                  && Dead(Exec(Start(rings, modulus), run), AllRings(|rings|))
                  && |Exec(Start(rings, modulus), run).drain.fifo| == backlog
  }

  /** How many rings have frames. */
  function NonEmpty(rings: seq<Ring>): nat {
    if rings == [] then 0
    else NonEmpty(rings[..|rings| - 1]) + (if rings[|rings| - 1].order == [] then 0 else 1)
  }

  /** The descriptor first in line of each ring that has a line. */
  function Fronts(qs: seq<R.State>): set<Desc> {
    if qs == [] then {} else Fronts(qs[..|qs| - 1]) + FrontOf(|qs| - 1, qs[|qs| - 1])
  }

  function FrontOf(ring: nat, q: R.State): set<Desc> {
    if R.Line(q) == [] then {} else {Desc(ring, R.Line(q)[0])}
  }

  lemma {:induction false} FrontMember(qs: seq<R.State>, d: Desc)
    ensures d in Fronts(qs) <==> d.ring < |qs| && d in FrontOf(d.ring, qs[d.ring])
  {
    hide R.Line;
    if qs != [] {
      var last := |qs| - 1;
      FrontMember(qs[..last], d);
      assert d in FrontOf(last, qs[last]) ==> d.ring == last;
    }
  }

  lemma {:induction false} FrontCount(rings: seq<Ring>, qs: seq<R.State>)
    requires |qs| == |rings|
    requires forall i :: 0 <= i < |rings| ==> (R.Line(qs[i]) == [] <==> rings[i].order == [])
    ensures |Fronts(qs)| == NonEmpty(rings)
  {
    if rings != [] {
      var last := |rings| - 1;
      FrontCount(rings[..last], qs[..last]);
      forall d | d in Fronts(qs[..last]) ensures d.ring < last {
        FrontMember(qs[..last], d);
      }
    }
  }

  /** A blocked ring that has not failed has its whole pool in line, the first of it in flight. */
  lemma {:induction false} BlockedLine(q: R.State)
    requires R.Inv(q) && R.Blocked(q) && q.status.Running?
    ensures |R.Line(q)| == |q.pool| && (R.Line(q) != [] ==> R.Line(q)[0] in q.inFlight)
  {
    R.QueueFits(q);
    R.SplitQueue(q);
  }

  lemma {:induction false} DeadHidesFronts(rings: seq<Ring>, modulus: nat, s: System)
    requires Wellformed(rings) && Inv(s) && Configured(rings, modulus, s)
    requires NoneFailed(s) && Dead(s, AllRings(|rings|))
    ensures NonEmpty(rings) <= |s.drain.fifo|
  {
    forall i | 0 <= i < |rings|
      ensures R.Line(s.rings[i]) == [] <==> rings[i].order == []
      ensures R.Line(s.rings[i]) != [] ==> R.Line(s.rings[i])[0] in s.rings[i].inFlight
    {
      BlockedLine(s.rings[i]);
      Sequences.DistinctCard(rings[i].order);
    }
    FrontCount(rings, s.rings);
    FrontsInFlight(s);
  }

  lemma {:induction false} FrontsInFlight(s: System)
    requires Linked(s) && s.drain.outstanding == {}
    requires forall i :: 0 <= i < |s.rings| && R.Line(s.rings[i]) != [] ==>
               R.Line(s.rings[i])[0] in s.rings[i].inFlight
    ensures |Fronts(s.rings)| <= |s.drain.fifo|
  {
    forall d | d in Fronts(s.rings) ensures d in s.drain.fifo {
      FrontMember(s.rings, d);
    }
    C.CoverCard(Fronts(s.rings), s.drain.fifo);
  }

  /** Every ring at rest with its whole pool in line; do_cb asleep before an empty FIFO. */
  ghost predicate AtRest(s: System) {
    && s.drain.pc.AtWait? && s.drain.fifo == []
    && forall i :: 0 <= i < |s.rings| ==> RingAtRest(s.rings[i])
  }

  ghost predicate RingAtRest(q: R.State) {
    q.section.Free? && q.status.Running? && q.released == [] && q.held == {}
  }

  /** One transfer completes and is delivered, before the others. */
  lemma {:induction false} DeliverOneOf(s: System, d: Desc) returns (run: seq<Step>)
    requires Inv(s) && s.drain.modulus > 1 && AtRest(s) && d in s.drain.outstanding
    ensures Legal(s, run) && AtRest(Exec(s, run)) && Fronts(Exec(s, run).rings) == Fronts(s.rings)
    ensures var t := Exec(s, run);
            && t.drain.outstanding == s.drain.outstanding - {d} && t.drain.modulus == s.drain.modulus
            && |t.rings| == |s.rings|
  {
    hide Inv;
    run := ToDelivery(s, d);
    Invariant(s, run);
    var more := FinishPass(Exec(s, run), d);
    RunConcat(s, run, more);
    run := run + more;
  }

  lemma {:induction false} FinishPass(s: System, d: Desc) returns (run: seq<Step>)
    requires Inv(s) && s.drain.fifo == [d] && s.drain.pc == C.Popping(1)
    requires forall i :: 0 <= i < |s.rings| ==> RingAtRest(s.rings[i])
    ensures Legal(s, run) && AtRest(Exec(s, run)) && Fronts(Exec(s, run).rings) == Fronts(s.rings)
    ensures var t := Exec(s, run);
            && t.drain.outstanding == s.drain.outstanding && t.drain.modulus == s.drain.modulus
            && |t.rings| == |s.rings|
  {
    hide Inv;
    hide Fronts;
    hide AtRest;
    hide Enabled;
    hide Apply;
    PassFinished(s, d);
    run := [];
    RunSnoc(s, run, Deliver);
    run := run + [Deliver];
    RunSnoc(s, run, OnDrain(C.PassEnd));
    run := run + [OnDrain(C.PassEnd)];
  }

  lemma {:induction false} PassFinished(s: System, d: Desc)
    requires Inv(s) && s.drain.fifo == [d] && s.drain.pc == C.Popping(1)
    requires forall i :: 0 <= i < |s.rings| ==> RingAtRest(s.rings[i])
    ensures Enabled(s, Deliver) && Enabled(Apply(s, Deliver), OnDrain(C.PassEnd))
    ensures var t := Apply(Apply(s, Deliver), OnDrain(C.PassEnd));
            && AtRest(t) && Fronts(t.rings) == Fronts(s.rings) && |t.rings| == |s.rings|
            && t.drain.outstanding == s.drain.outstanding && t.drain.modulus == s.drain.modulus
  {
    hide Inv;
    hide Fronts;
    hide RingAtRest;
    hide R.Apply;
    hide R.Enabled;
    DeliverLast(s, d);
    var m := Apply(s, Deliver);
    RestAfterCallback(s.rings, m.rings, d);
    assert C.Enabled(m.drain, C.PassEnd);
    assert Apply(m, OnDrain(C.PassEnd)).rings == m.rings;
  }

  lemma {:induction false} DeliverLast(s: System, d: Desc)
    requires Inv(s) && s.drain.fifo == [d] && s.drain.pc == C.Popping(1)
    ensures Enabled(s, Deliver) && d.ring < |s.rings| && R.Enabled(s.rings[d.ring], R.Callback(d.buf))
    ensures var t := Apply(s, Deliver);
            && t.rings == s.rings[d.ring := R.Apply(s.rings[d.ring], R.Callback(d.buf))]
            && t.drain.fifo == [] && t.drain.pc == C.Popping(0)
            && t.drain.outstanding == s.drain.outstanding && t.drain.modulus == s.drain.modulus
  {
    PoppedHasTransfer(s);
  }

  lemma {:induction false} RestAfterCallback(qs: seq<R.State>, ps: seq<R.State>, d: Desc)
    requires d.ring < |qs| && R.Enabled(qs[d.ring], R.Callback(d.buf))
    requires ps == qs[d.ring := R.Apply(qs[d.ring], R.Callback(d.buf))]
    requires forall i :: 0 <= i < |qs| ==> RingAtRest(qs[i])
    ensures |ps| == |qs| && Fronts(ps) == Fronts(qs) && forall i :: 0 <= i < |ps| ==> RingAtRest(ps[i])
  {
    SameFronts(qs, ps);
  }

  lemma {:induction false} ToDelivery(s: System, d: Desc) returns (run: seq<Step>)
    requires s.drain.modulus > 1 && s.drain.pc.AtWait? && s.drain.fifo == [] && d in s.drain.outstanding
    ensures Legal(s, run) && Exec(s, run).rings == s.rings
    ensures var t := Exec(s, run).drain;
            && t.outstanding == s.drain.outstanding - {d} && t.modulus == s.drain.modulus
            && t.fifo == [d] && t.pc == C.Popping(1)
  {
    var steps: seq<C.Step<Desc>> := [];
    C.RunSnoc(s.drain, steps, C.Complete(d));
    steps := steps + [C.Complete(d)];
    C.RunSnoc(s.drain, steps, C.Timeout);
    steps := steps + [C.Timeout];
    C.RunSnoc(s.drain, steps, C.Clear);
    steps := steps + [C.Clear];
    C.RunSnoc(s.drain, steps, C.ReadCount);
    C.MaskedBelow(1, s.drain.modulus);
    steps := steps + [C.ReadCount];
    run := LiftDrain(s, steps);
  }

  lemma {:induction false} SameFronts(qs: seq<R.State>, ps: seq<R.State>)
    requires |qs| == |ps| && forall i :: 0 <= i < |qs| ==> R.Line(qs[i]) == R.Line(ps[i])
    ensures Fronts(qs) == Fronts(ps)
  {
    if qs != [] {
      SameFronts(qs[..|qs| - 1], ps[..|ps| - 1]);
    }
  }

  lemma {:induction false} DeliverSet(s: System, part: set<Desc>) returns (run: seq<Step>)
    requires Inv(s) && s.drain.modulus > 1 && AtRest(s) && part <= s.drain.outstanding
    ensures Legal(s, run) && AtRest(Exec(s, run)) && Fronts(Exec(s, run).rings) == Fronts(s.rings)
    ensures var t := Exec(s, run);
            && t.drain.outstanding == s.drain.outstanding - part && t.drain.modulus == s.drain.modulus
            && |t.rings| == |s.rings|
    decreases part
  {
    hide Inv;
    hide AtRest;
    if part == {} {
      run := [];
    } else {
      var d :| d in part;
      run := DeliverOneOf(s, d);
      var m := Exec(s, run);
      Invariant(s, run);
      assert m.drain.outstanding - (part - {d}) == s.drain.outstanding - part;
      var more := DeliverSet(m, part - {d});
      RunConcat(s, run, more);
      run := run + more;
    }
  }

  /** All that is still under way completes, and hides the fronts. */
  lemma {:induction false} HideRest(s: System) returns (run: seq<Step>)
    requires Inv(s) && AtRest(s) && Fronts(s.rings) <= s.drain.outstanding
    requires C.Masked(|s.drain.outstanding|, s.drain.modulus) == 0
    ensures Legal(s, run)
    ensures var t := Exec(s, run);
            && NoneFailed(t) && |t.drain.fifo| == |s.drain.outstanding|
            && Dead(t, AllRings(|s.rings|))
  {
    hide Inv;
    hide Fronts;
    hide R.Blocked;
    hide Linked;
    var steps := C.CompleteSet(s.drain, s.drain.outstanding);
    run := LiftDrain(s, steps);
    forall i | 0 <= i < |s.rings| ensures R.Blocked(s.rings[i]) {
      RestIsBlocked(s, i);
    }
  }

  lemma {:induction false} RestIsBlocked(s: System, i: nat)
    requires Inv(s) && AtRest(s) && Fronts(s.rings) <= s.drain.outstanding && i < |s.rings|
    ensures R.Blocked(s.rings[i])
  {
    var q := s.rings[i];
    if R.Line(q) != [] {
      FrontMember(s.rings, Desc(i, R.Line(q)[0]));
    }
  }

  lemma {:induction false} SubsetOfSize<T>(s: set<T>, n: nat) returns (part: set<T>)
    requires n <= |s|
    ensures part <= s && |part| == n
    decreases n
  {
    if n == 0 {
      part := {};
    } else {
      var x := Sequences.SomeOf(s);
      var rest := SubsetOfSize(s - {x}, n - 1);
      part := rest + {x};
    }
  }

  /** All buffers of all rings given to the card. */
  lemma {:induction false} GiveAll(rings: seq<Ring>, modulus: nat) returns (run: seq<Step>)
    requires Wellformed(rings)
    ensures Legal(Start(rings, modulus), run)
    ensures var s := Exec(Start(rings, modulus), run);
            && Inv(s) && s.drain.modulus == modulus
            && AtRest(s) && |s.rings| == |rings| && |s.drain.outstanding| == Frames(rings)
            && Fronts(s.rings) <= s.drain.outstanding && |Fronts(s.rings)| == NonEmpty(rings)
  {
    OnlyAll(rings);
    hide Only;
    var c := Choose(rings, AllRings(|rings|), Frames(rings));
    run := GiveTo(rings, modulus, c);
    Reached(rings, modulus, run);
    GivenIsAtRest(rings, modulus, Exec(Start(rings, modulus), run), c);
    GivenFronts(rings, modulus, Exec(Start(rings, modulus), run), c);
  }

  lemma {:induction false} OnlyAll(rings: seq<Ring>)
    ensures Only(rings, AllRings(|rings|)) == rings
  {
  }

  lemma {:induction false} GivenIsAtRest(rings: seq<Ring>, modulus: nat, s: System, c: seq<nat>)
    requires Given(rings, modulus, s, c) && forall i :: 0 <= i < |rings| ==> c[i] == |rings[i].order|
    ensures AtRest(s) && |Fronts(s.rings)| == NonEmpty(rings)
  {
    forall i | 0 <= i < |rings|
      ensures RingAtRest(s.rings[i]) && (R.Line(s.rings[i]) == [] <==> rings[i].order == [])
    {
      WholeIsAtRest(s.rings[i], rings[i]);
    }
    FrontCount(rings, s.rings);
  }

  lemma {:induction false} GivenFronts(rings: seq<Ring>, modulus: nat, s: System, c: seq<nat>)
    requires Inv(s) && Given(rings, modulus, s, c) && forall i :: 0 <= i < |rings| ==> c[i] == |rings[i].order|
    ensures Fronts(s.rings) <= s.drain.outstanding
  {
    hide R.Inv;
    hide PartFilled;
    forall d | d in Fronts(s.rings) ensures d in s.drain.outstanding {
      FrontMember(s.rings, d);
      LineInPool(s.rings[d.ring]);
      assert rings[d.ring].order[..c[d.ring]] == rings[d.ring].order;
      assert InFirst(rings, c, d);
    }
  }

  lemma {:induction false} WholeIsAtRest(q: R.State, ring: Ring)
    requires PartFilled(q, ring, |ring.order|)
    ensures RingAtRest(q) && (R.Line(q) == [] <==> ring.order == [])
  {
  }

  lemma {:induction false} LineInPool(q: R.State)
    requires R.Inv(q) && R.Line(q) != []
    ensures R.Line(q)[0] in q.pool
  {
    R.SplitQueue(q);
    R.QueuedIsNotHeld(q, R.Line(q)[0]);
    assert R.Line(q)[0] in R.Queue(q);
  }

  /**
   No submit need fail: the card may complete transfers in any order, so a pass can deliver later buffers of a
   ring before its first. Such a deadlock hides the first in line of every ring, and that is the only bound.
   */
  lemma {:induction false} DeadWithoutFailure(rings: seq<Ring>, modulus: nat, backlog: nat)
    requires Wellformed(rings) && modulus > 1
    ensures ReachesDeadUnfailed(rings, modulus, backlog)
       <==> NonEmpty(rings) <= backlog <= Frames(rings) && C.Masked(backlog, modulus) == 0
  {
    if ReachesDeadUnfailed(rings, modulus, backlog) {
      var run :| Legal(Start(rings, modulus), run) && NoneFailed(Exec(Start(rings, modulus), run))
                 && Dead(Exec(Start(rings, modulus), run), AllRings(|rings|))
                 && |Exec(Start(rings, modulus), run).drain.fifo| == backlog;
      Reached(rings, modulus, run);
      BacklogFits(rings, modulus, Exec(Start(rings, modulus), run));
      DeadHidesFronts(rings, modulus, Exec(Start(rings, modulus), run));
    }
    if NonEmpty(rings) <= backlog <= Frames(rings) && C.Masked(backlog, modulus) == 0 {
      var run := HideExactly(rings, modulus, backlog);
    }
  }

  lemma {:induction false} HideExactly(rings: seq<Ring>, modulus: nat, backlog: nat) returns (run: seq<Step>)
    requires Wellformed(rings) && modulus > 1
    requires NonEmpty(rings) <= backlog <= Frames(rings) && C.Masked(backlog, modulus) == 0
    ensures Legal(Start(rings, modulus), run) && NoneFailed(Exec(Start(rings, modulus), run))
    ensures Dead(Exec(Start(rings, modulus), run), AllRings(|rings|))
    ensures |Exec(Start(rings, modulus), run).drain.fifo| == backlog
  {
    hide Inv;
    hide AtRest;
    hide Dead;
    hide NoneFailed;
    hide Fronts;
    var given := GiveAll(rings, modulus);
    var s := Exec(Start(rings, modulus), given);
    var late := HideAllBut(s, Frames(rings) - backlog);
    RunConcat(Start(rings, modulus), given, late);
    run := given + late;
  }

  lemma {:induction false} LaterOnes(all: set<Desc>, fronts: set<Desc>, n: nat) returns (part: set<Desc>)
    requires fronts <= all && |fronts| + n <= |all|
    ensures part <= all && fronts <= all - part && |all - part| == |all| - n
  {
    part := SubsetOfSize(all - fronts, n);
  }

  /** Delivers n buffers that are not first in line, then hides the rest. */
  lemma {:induction false} HideAllBut(s: System, n: nat) returns (run: seq<Step>)
    requires Inv(s) && s.drain.modulus > 1 && AtRest(s) && Fronts(s.rings) <= s.drain.outstanding
    requires |Fronts(s.rings)| + n <= |s.drain.outstanding|
    requires C.Masked(|s.drain.outstanding| - n, s.drain.modulus) == 0
    ensures Legal(s, run) && NoneFailed(Exec(s, run)) && Dead(Exec(s, run), AllRings(|s.rings|))
    ensures |Exec(s, run).drain.fifo| == |s.drain.outstanding| - n
  {
    hide Inv;
    hide AtRest;
    hide Dead;
    hide Fronts;
    var part := LaterOnes(s.drain.outstanding, Fronts(s.rings), n);
    run := DeliverSet(s, part);
    Invariant(s, run);
    var late := HideRest(Exec(s, run));
    RunConcat(s, run, late);
    run := run + late;
  }

  // ---------------------------------------------------------------- a mask that is wide enough

  /** With fewer frames than the mask counts to, whatever is in the FIFO can be delivered, without any submit. */
  lemma {:induction false} WideMaskNeverDies(rings: seq<Ring>, modulus: nat, run: seq<Step>)
    requires Wellformed(rings) && Frames(rings) < modulus && Legal(Start(rings, modulus), run)
    requires Exec(Start(rings, modulus), run).drain.fifo != []
    ensures CanDeliver(Exec(Start(rings, modulus), run), {})
  {
    Reached(rings, modulus, run);
    BacklogBounded(rings, modulus, run);
    DeadExactly(rings, modulus, run, {});
  }

  // ---------------------------------------------------------------- the device

  /** Under the vendor mask the device can die on 64 hidden completions, or on 128. */
  lemma {:induction false} VendorDeadlock(rings: seq<Ring>, rx: set<nat>, backlog: nat)
    requires ForcedFrames(rings)
    ensures ReachesDead(rings, C.VENDOR_MODULUS, rx, backlog) <==> backlog == 0 || backlog == 64 || backlog == 128
  {
    ForcedTotal(rings);
    DeadReachable(rings, C.VENDOR_MODULUS, rx, backlog);
    if backlog < 64 {
      C.MaskedBelow(backlog, C.VENDOR_MODULUS);
    } else if backlog <= 128 {
      MultiplesOf64(backlog);
    }
  }

  /** On either backlog, no submit need have failed. */
  lemma {:induction false} VendorDeadlockUnfailed(rings: seq<Ring>, backlog: nat)
    requires ForcedFrames(rings)
    ensures ReachesDeadUnfailed(rings, C.VENDOR_MODULUS, backlog) <==> backlog == 64 || backlog == 128
  {
    ForcedTotal(rings);
    FourNonEmpty(rings);
    DeadWithoutFailure(rings, C.VENDOR_MODULUS, backlog);
    if backlog < 64 {
      C.MaskedBelow(backlog, C.VENDOR_MODULUS);
    } else if backlog <= 128 {
      MultiplesOf64(backlog);
    }
  }

  lemma {:induction false} FourNonEmpty(rings: seq<Ring>)
    requires ForcedFrames(rings)
    ensures NonEmpty(rings) == 4
  {
    var three := rings[..3];
    var two := three[..2];
    var one := two[..1];
    assert one[..0] == [];
    assert NonEmpty(one) == 1;
    assert two[1] == rings[1] && NonEmpty(two) == NonEmpty(one) + 1;
    assert three[2] == rings[2] && NonEmpty(three) == NonEmpty(two) + 1;
  }

  /**
   The device, and its receive rings alone: under the vendor mask completions can be hidden for ever; under the
   patched one they cannot, and in every reachable state with completions in the FIFO one can be delivered.
   */
  lemma {:induction false} PatchRemovesDeadlock(rings: seq<Ring>, rx: set<nat>, run: seq<Step>)
    requires ForcedFrames(rings) || ReceiveRings(rings)
    requires Legal(Start(rings, C.PATCHED_MODULUS), run)
    ensures exists backlog :: backlog > 0 && ReachesDead(rings, C.VENDOR_MODULUS, rx, backlog)
    ensures !exists backlog :: backlog > 0 && ReachesDead(rings, C.PATCHED_MODULUS, rx, backlog)
    ensures Exec(Start(rings, C.PATCHED_MODULUS), run).drain.fifo != []
        ==> CanDeliver(Exec(Start(rings, C.PATCHED_MODULUS), run), {})
  {
    if ForcedFrames(rings) {
      ForcedTotal(rings);
    } else {
      ReceiveTotal(rings);
    }
    DeadlockPossible(rings, C.VENDOR_MODULUS, rx);
    DeadlockPossible(rings, C.PATCHED_MODULUS, rx);
    if Exec(Start(rings, C.PATCHED_MODULUS), run).drain.fifo != [] {
      WideMaskNeverDies(rings, C.PATCHED_MODULUS, run);
    }
  }
}

/**
 The sample path as one system: several zero-copy rings share one completion FIFO and one do_cb thread.
 A ring's accepted submit hands its descriptor to the FPGA; popping a descriptor runs its ring's callback.
 */
module StreamPath {
  import opened Sequences
  import R = ZeroCopyRing
  import C = CompletionDrain

  datatype Desc = Desc(ring: nat, buf: R.Buf)

  datatype System = System(rings: seq<R.State>, drain: C.State<Desc>)

  datatype Step =
    | OnRing(ring: nat, step: R.Step)   // any ring step but an accepted submit or a callback
    | SubmitTo(ring: nat)               // the library takes the head of that ring's _released
    | OnDrain(dstep: C.Step<Desc>)      // any drain step but a submit or a pop
    | Deliver                           // do_cb pops a descriptor and runs its callback

  predicate Enabled(s: System, step: Step) {
    match step
    case OnRing(r, st) => r < |s.rings| && !st.Accept? && !st.Callback? && R.Enabled(s.rings[r], st)
    case SubmitTo(r) =>
      && r < |s.rings| && R.Enabled(s.rings[r], R.Accept)
      && C.Enabled(s.drain, C.Submit(Desc(r, s.rings[r].released[0])))
    case OnDrain(st) => !st.Submit? && !st.Pop? && C.Enabled(s.drain, st)
    case Deliver =>
      && C.Enabled(s.drain, C.Pop)
      && s.drain.fifo[0].ring < |s.rings|
      && R.Enabled(s.rings[s.drain.fifo[0].ring], R.Callback(s.drain.fifo[0].buf))
  }

  function Apply(s: System, step: Step): System
    requires Enabled(s, step)
  {
    match step
    case OnRing(r, st) => s.(rings := s.rings[r := R.Apply(s.rings[r], st)])
    case SubmitTo(r) =>
      System(s.rings[r := R.Apply(s.rings[r], R.Accept)],
             C.Apply(s.drain, C.Submit(Desc(r, s.rings[r].released[0]))))
    case OnDrain(st) => s.(drain := C.Apply(s.drain, st))
    case Deliver =>
      var d := s.drain.fifo[0];
      System(s.rings[d.ring := R.Apply(s.rings[d.ring], R.Callback(d.buf))], C.Apply(s.drain, C.Pop))
  }

  ghost predicate Legal(s: System, run: seq<Step>)
    decreases |run|, 0
  {
    run == [] || (Legal(s, run[..|run| - 1]) && Enabled(Exec(s, run[..|run| - 1]), run[|run| - 1]))
  }

  ghost function Exec(s: System, run: seq<Step>): System
    requires Legal(s, run)
    decreases |run|, 1
  {
    if run == [] then s else Apply(Exec(s, run[..|run| - 1]), run[|run| - 1])
  }

  /** A ring's frames: which way it goes and its pool in construction order. */
  datatype Ring = Ring(isRecv: bool, order: seq<R.Buf>)

  /** Every descriptor of the given rings. */
  function Descriptors(rings: seq<Ring>): set<Desc> {
    if rings == [] then {}
    else Descriptors(rings[..|rings| - 1]) + OfRing(|rings| - 1, rings[|rings| - 1].order)
  }

  function OfRing(ring: nat, order: seq<R.Buf>): set<Desc> {
    if order == [] then {} else OfRing(ring, order[..|order| - 1]) + {Desc(ring, order[|order| - 1])}
  }

  function Frames(rings: seq<Ring>): nat {
    if rings == [] then 0 else Frames(rings[..|rings| - 1]) + |rings[|rings| - 1].order|
  }

  ghost predicate Wellformed(rings: seq<Ring>) {
    forall i :: 0 <= i < |rings| ==> Distinct(rings[i].order)
  }

  function Start(rings: seq<Ring>, modulus: nat): System {
    System(seq(|rings|, i requires 0 <= i < |rings| => R.Start(rings[i].isRecv, rings[i].order)),
           C.Start(Descriptors(rings), modulus))
  }

  // ---------------------------------------------------------------- how many descriptors there are

  lemma {:induction false} DescriptorMember(rings: seq<Ring>, d: Desc)
    ensures d in Descriptors(rings) <==> d.ring < |rings| && d.buf in rings[d.ring].order
  {
    if rings != [] {
      DescriptorMember(rings[..|rings| - 1], d);
      OneRing(|rings| - 1, rings[|rings| - 1].order);
    }
  }

  lemma {:induction false} OneRing(ring: nat, order: seq<R.Buf>)
    ensures forall d :: d in OfRing(ring, order) <==> d.ring == ring && d.buf in order
  {
    if order != [] {
      OneRing(ring, order[..|order| - 1]);
      assert order == order[..|order| - 1] + [order[|order| - 1]];
    }
  }

  lemma {:induction false} OneRingCard(ring: nat, order: seq<R.Buf>)
    requires Distinct(order)
    ensures |OfRing(ring, order)| == |order|
  {
    if order != [] {
      var front, last := order[..|order| - 1], order[|order| - 1];
      assert order == front + [last];
      DistinctFront(front, last);
      OneRingCard(ring, front);
      OneRing(ring, front);
    }
  }

  lemma {:induction false} DescriptorCard(rings: seq<Ring>)
    requires Wellformed(rings)
    ensures |Descriptors(rings)| == Frames(rings)
  {
    if rings != [] {
      var front, last := rings[..|rings| - 1], rings[|rings| - 1];
      DescriptorCard(front);
      OneRingCard(|rings| - 1, last.order);
      OneRing(|rings| - 1, last.order);
      forall d | d in Descriptors(front) ensures d !in OfRing(|rings| - 1, last.order) {
        DescriptorMember(front, d);
      }
    }
  }

  // ---------------------------------------------------------------- the linking invariant

  /** What the rings count as in flight is exactly what the FPGA and the FIFO hold. */
  ghost predicate Linked(s: System) {
    forall d: Desc :: d in s.drain.outstanding || d in s.drain.fifo
      <==> d.ring < |s.rings| && d.buf in s.rings[d.ring].inFlight
  }

  ghost predicate Inv(s: System) {
    && (forall i :: 0 <= i < |s.rings| ==> R.Inv(s.rings[i]))
    && C.Conserved(s.drain) && C.Backed(s.drain)
    && Linked(s)
  }

  lemma {:induction false} StartInv(rings: seq<Ring>, modulus: nat)
    requires Wellformed(rings)
    ensures Inv(Start(rings, modulus))
  {
    forall i | 0 <= i < |rings| ensures R.Inv(R.Start(rings[i].isRecv, rings[i].order)) {
      R.StartInv(rings[i].isRecv, rings[i].order);
    }
    C.StartOk(Descriptors(rings), modulus);
  }

  lemma {:induction false} RingKept(s: System, step: Step, i: nat)
    requires Enabled(s, step) && i < |s.rings| && R.Inv(s.rings[i])
    ensures |Apply(s, step).rings| == |s.rings|
    ensures R.Inv(Apply(s, step).rings[i])
  {
    match step
    case OnRing(r, st) => if i == r { R.InvKept(s.rings[r], st); }
    case SubmitTo(r) => if i == r { R.InvKept(s.rings[r], R.Accept); }
    case OnDrain(st) =>
    case Deliver =>
      var d := s.drain.fifo[0];
      if i == d.ring { R.InvKept(s.rings[i], R.Callback(d.buf)); }
  }

  lemma {:induction false} RingCountKept(s: System, step: Step)
    requires Enabled(s, step)
    ensures |Apply(s, step).rings| == |s.rings|
  {
  }

  lemma {:induction false} DrainKept(s: System, step: Step)
    requires C.Conserved(s.drain) && C.Backed(s.drain) && Enabled(s, step)
    ensures C.Conserved(Apply(s, step).drain) && C.Backed(Apply(s, step).drain)
  {
    match step
    case OnRing(r, st) =>
    case SubmitTo(r) =>
      C.ConservedKept(s.drain, C.Submit(Desc(r, s.rings[r].released[0])));
      C.BackedKept(s.drain, C.Submit(Desc(r, s.rings[r].released[0])));
    case OnDrain(st) =>
      C.ConservedKept(s.drain, st);
      C.BackedKept(s.drain, st);
    case Deliver =>
      C.ConservedKept(s.drain, C.Pop);
      C.BackedKept(s.drain, C.Pop);
  }

  lemma {:induction false} OtherRingStep(s: R.State, step: R.Step)
    requires R.Enabled(s, step) && !step.Accept? && !step.Callback?
    ensures R.Apply(s, step).inFlight == s.inFlight
  {
  }

  lemma {:induction false} OtherDrainStep(s: C.State<Desc>, step: C.Step<Desc>, d: Desc)
    requires C.Enabled(s, step) && !step.Submit? && !step.Pop?
    ensures d in C.Apply(s, step).outstanding || d in C.Apply(s, step).fifo <==> d in s.outstanding || d in s.fifo
  {
  }

  /** A popped descriptor is nowhere else in the drain. */
  lemma {:induction false} PoppedIsGone(s: C.State<Desc>)
    requires C.Conserved(s) && s.fifo != []
    ensures s.fifo[0] !in s.fifo[1..] && s.fifo[0] !in s.outstanding
  {
    var d := s.fifo[0];
    assert s.fifo == [d] + s.fifo[1..];
    assert multiset(s.fifo)[d] == 1 + multiset(s.fifo[1..])[d];
    assert (multiset(s.outstanding) + multiset(s.fifo))[d] <= multiset(s.all)[d] <= 1;
  }

  lemma {:induction false} LinkKept(s: System, step: Step)
    requires Inv(s) && Enabled(s, step)
    ensures Linked(Apply(s, step))
  {
    var t := Apply(s, step);
    match step
    case OnRing(r, st) => OtherRingStep(s.rings[r], st);
    case SubmitTo(r) =>
      LinkKeptBySubmit(s, r);
    case OnDrain(st) =>
      forall d: Desc
        ensures d in t.drain.outstanding || d in t.drain.fifo <==> d in s.drain.outstanding || d in s.drain.fifo
      {
        OtherDrainStep(s.drain, st, d);
      }
    case Deliver =>
      PoppedIsGone(s.drain);
      LinkKeptByDeliver(s);
  }

  lemma {:induction false} LinkKeptBySubmit(s: System, r: nat)
    requires Linked(s) && Enabled(s, SubmitTo(r))
    ensures Linked(Apply(s, SubmitTo(r)))
  {
  }

  lemma {:induction false} LinkKeptByDeliver(s: System)
    requires Linked(s) && Enabled(s, Deliver)
    requires s.drain.fifo[0] !in s.drain.fifo[1..] && s.drain.fifo[0] !in s.drain.outstanding
    ensures Linked(Apply(s, Deliver))
  {
    var t := Apply(s, Deliver);
    assert forall d :: d in s.drain.fifo <==> d == s.drain.fifo[0] || d in t.drain.fifo;
  }

  lemma {:induction false} InvKept(s: System, step: Step)
    requires Inv(s) && Enabled(s, step)
    ensures Inv(Apply(s, step))
  {
    forall i | 0 <= i < |s.rings|
      ensures |Apply(s, step).rings| == |s.rings| && R.Inv(Apply(s, step).rings[i])
    {
      RingKept(s, step, i);
    }
    RingCountKept(s, step);
    DrainKept(s, step);
    LinkKept(s, step);
  }

  lemma {:induction false} Invariant(s: System, run: seq<Step>)
    requires Inv(s) && Legal(s, run)
    ensures Inv(Exec(s, run))
  {
    if run != [] {
      Invariant(s, run[..|run| - 1]);
      InvKept(Exec(s, run[..|run| - 1]), run[|run| - 1]);
    }
  }

  /** The set of descriptors and every ring's pool are fixed at construction. */
  ghost predicate Configured(rings: seq<Ring>, modulus: nat, s: System) {
    && s.drain.all == Descriptors(rings) && s.drain.modulus == modulus && |s.rings| == |rings|
    && (forall i :: 0 <= i < |rings| ==> s.rings[i].pool == Elems(rings[i].order))
  }

  lemma {:induction false} ConfigurationKept(rings: seq<Ring>, modulus: nat, s: System, step: Step)
    requires Configured(rings, modulus, s) && Enabled(s, step)
    ensures Configured(rings, modulus, Apply(s, step))
  {
    match step
    case OnRing(r, st) => R.PoolKept(s.rings[r], st);
    case SubmitTo(r) =>
    case OnDrain(st) =>
    case Deliver =>
  }

  /** Everything reachable keeps the invariant and the configuration. */
  lemma {:induction false} Reached(rings: seq<Ring>, modulus: nat, run: seq<Step>)
    requires Wellformed(rings) && Legal(Start(rings, modulus), run)
    ensures Inv(Exec(Start(rings, modulus), run))
    ensures Configured(rings, modulus, Exec(Start(rings, modulus), run))
  {
    if run == [] {
      StartInv(rings, modulus);
    } else {
      var front, last := run[..|run| - 1], run[|run| - 1];
      Reached(rings, modulus, front);
      InvKept(Exec(Start(rings, modulus), front), last);
      ConfigurationKept(rings, modulus, Exec(Start(rings, modulus), front), last);
    }
  }

  // ---------------------------------------------------------------- what the composition gives

  lemma {:induction false} HeadCanBeSubmitted(rings: seq<Ring>, modulus: nat, s: System, r: nat)
    requires Inv(s) && Configured(rings, modulus, s)
    requires r < |s.rings| && R.Enabled(s.rings[r], R.Accept)
    ensures Enabled(s, SubmitTo(r))
  {
    var b := s.rings[r].released[0];
    HeadNotSubmitted(s.rings[r]);
    DescriptorMember(rings, Desc(r, b));
  }

  lemma {:induction false} HeadNotSubmitted(s: R.State)
    requires R.Inv(s) && R.Enabled(s, R.Accept)
    ensures s.released[0] !in s.inFlight && s.released[0] in s.pool
  {
    R.HeadIsFresh(s);
    R.WhereIs(s, s.released[0]);
  }

  lemma {:induction false} PoppedHasTransfer(s: System)
    requires Inv(s) && C.Enabled(s.drain, C.Pop)
    ensures Enabled(s, Deliver)
  {
  }

  /** The library accepts whatever a ring submits, and no callback is ever without a transfer waiting for it. */
  lemma {:induction false} NeverRefusedNeverSpurious(rings: seq<Ring>, modulus: nat, run: seq<Step>)
    requires Wellformed(rings) && Legal(Start(rings, modulus), run)
    ensures var s := Exec(Start(rings, modulus), run);
            && (forall r :: 0 <= r < |s.rings| && R.Enabled(s.rings[r], R.Accept) ==> Enabled(s, SubmitTo(r)))
            && (C.Enabled(s.drain, C.Pop) ==> Enabled(s, Deliver))
  {
    Reached(rings, modulus, run);
    var s := Exec(Start(rings, modulus), run);
    forall r | 0 <= r < |s.rings| && R.Enabled(s.rings[r], R.Accept) ensures Enabled(s, SubmitTo(r)) {
      HeadCanBeSubmitted(rings, modulus, s, r);
    }
    if C.Enabled(s.drain, C.Pop) {
      PoppedHasTransfer(s);
    }
  }

  lemma {:induction false} BacklogFits(rings: seq<Ring>, modulus: nat, s: System)
    requires Wellformed(rings) && C.Conserved(s.drain) && s.drain.all == Descriptors(rings)
    ensures |s.drain.outstanding| + |s.drain.fifo| <= Frames(rings)
  {
    DescriptorCard(rings);
    C.BacklogFits(s.drain);
  }

  /** The backlog never exceeds the frames of all rings, so a mask wider than that sees it whole. */
  lemma {:induction false} BacklogBounded(rings: seq<Ring>, modulus: nat, run: seq<Step>)
    requires Wellformed(rings) && Legal(Start(rings, modulus), run)
    ensures var s := Exec(Start(rings, modulus), run);
            && |s.drain.outstanding| + |s.drain.fifo| <= Frames(rings)
            && (Frames(rings) < modulus ==> C.Masked(|s.drain.fifo|, modulus) == |s.drain.fifo|)
  {
    Reached(rings, modulus, run);
    BacklogFits(rings, modulus, Exec(Start(rings, modulus), run));
    C.MaskedBelow(|Exec(Start(rings, modulus), run).drain.fifo|, modulus);
  }

  // ---------------------------------------------------------------- the drain inside the system

  /** What a system step does to the drain: one drain step, or none. */
  function Projected(s: System, step: Step): seq<C.Step<Desc>>
    requires Enabled(s, step)
  {
    match step
    case OnRing(_, _) => []
    case SubmitTo(r) => [C.Submit(Desc(r, s.rings[r].released[0]))]
    case OnDrain(st) => [st]
    case Deliver => [C.Pop]
  }

  ghost function Projection(s: System, run: seq<Step>): seq<C.Step<Desc>>
    requires Legal(s, run)
  {
    if run == [] then []
    else Projection(s, run[..|run| - 1]) + Projected(Exec(s, run[..|run| - 1]), run[|run| - 1])
  }

  /** Every run of the system is, seen from the drain, a run of the drain. */
  lemma {:induction false} DrainOfSystem(s: System, run: seq<Step>)
    requires Legal(s, run)
    ensures C.Legal(s.drain, Projection(s, run))
    ensures C.Exec(s.drain, Projection(s, run)) == Exec(s, run).drain
  {
    if run != [] {
      var front, last := run[..|run| - 1], run[|run| - 1];
      DrainOfSystem(s, front);
      var m := Exec(s, front);
      if last.OnRing? {
        assert Projection(s, front) + [] == Projection(s, front);
      } else {
        C.RunSnoc(s.drain, Projection(s, front), Projected(m, last)[0]);
      }
    }
  }

  ghost predicate Without(run: seq<Step>, step: C.Step<Desc>) {
    forall i :: 0 <= i < |run| ==> run[i] != OnDrain(step)
  }

  lemma {:induction false} ProjectionWithout(s: System, run: seq<Step>, step: C.Step<Desc>)
    requires Legal(s, run) && Without(run, step) && !step.Submit? && !step.Pop?
    ensures forall i :: 0 <= i < |Projection(s, run)| ==> Projection(s, run)[i] != step
  {
    if run != [] {
      ProjectionWithout(s, run[..|run| - 1], step);
      assert run[|run| - 1] != OnDrain(step);
    }
  }

  /** Where the drain of a running system can be: a reachable state of the drain alone. */
  lemma {:induction false} DrainReached(rings: seq<Ring>, modulus: nat, run: seq<Step>)
    requires Wellformed(rings) && Legal(Start(rings, modulus), run)
    ensures var p := Projection(Start(rings, modulus), run);
            && C.Legal(C.Start(Descriptors(rings), modulus), p)
            && C.Exec(C.Start(Descriptors(rings), modulus), p) == Exec(Start(rings, modulus), run).drain
  {
    DrainOfSystem(Start(rings, modulus), run);
  }

  /**
   With more room in the mask than there are frames, each do_cb pass of the whole system delivers everything
   that was in the FIFO at its count read, whatever callers, card and library do meanwhile.
   */
  lemma {:induction false} EveryPassDrains(rings: seq<Ring>, modulus: nat, run: seq<Step>, mid: seq<Step>)
    requires Wellformed(rings) && Frames(rings) < modulus
    requires Legal(Start(rings, modulus), run)
    requires Enabled(Exec(Start(rings, modulus), run), OnDrain(C.ReadCount))
    requires Legal(Apply(Exec(Start(rings, modulus), run), OnDrain(C.ReadCount)), mid)
    requires Without(mid, C.PassEnd)
    requires Enabled(Exec(Apply(Exec(Start(rings, modulus), run), OnDrain(C.ReadCount)), mid), OnDrain(C.PassEnd))
    ensures var s := Exec(Start(rings, modulus), run);
            var t := Exec(Apply(s, OnDrain(C.ReadCount)), mid);
            t.drain.delivered == s.drain.delivered + s.drain.fifo
  {
    Reached(rings, modulus, run);
    var s := Exec(Start(rings, modulus), run);
    PassInside(rings, modulus, s, mid);
  }

  lemma {:induction false} PassInside(rings: seq<Ring>, modulus: nat, s: System, mid: seq<Step>)
    requires Wellformed(rings) && C.Conserved(s.drain) && C.Backed(s.drain)
    requires s.drain.all == Descriptors(rings) && s.drain.modulus == modulus && Frames(rings) < modulus
    requires Enabled(s, OnDrain(C.ReadCount)) && Legal(Apply(s, OnDrain(C.ReadCount)), mid)
    requires Without(mid, C.PassEnd) && Enabled(Exec(Apply(s, OnDrain(C.ReadCount)), mid), OnDrain(C.PassEnd))
    ensures Exec(Apply(s, OnDrain(C.ReadCount)), mid).drain.delivered == s.drain.delivered + s.drain.fifo
  {
    var c := Apply(s, OnDrain(C.ReadCount));
    DrainOfSystem(c, mid);
    ProjectionWithout(c, mid, C.PassEnd);
    BacklogFits(rings, modulus, s);
    C.PassDrains(s.drain, Projection(c, mid));
  }

  /** And do_cb never sleeps on a completion unless a wake-up is on its way or an MSI was lost. */
  lemma {:induction false} NothingStranded(rings: seq<Ring>, modulus: nat, run: seq<Step>)
    requires Wellformed(rings) && Frames(rings) < modulus
    requires Legal(Start(rings, modulus), run) && Without(run, C.Lose)
    ensures var d := Exec(Start(rings, modulus), run).drain;
            d.pc.AtWait? && d.fifo != [] ==> d.rd >= 1 || d.owed >= 1
  {
    DrainReached(rings, modulus, run);
    ProjectionWithout(Start(rings, modulus), run, C.Lose);
    DescriptorCard(rings);
    C.NothingStranded(Descriptors(rings), modulus, Projection(Start(rings, modulus), run));
  }

  ghost predicate NoCount(run: seq<Step>) {
    forall i :: 0 <= i < |run| ==> run[i] != OnDrain(C.ReadCount)
  }

  /**
   Even if MSIs are lost: the pass that follows a wait, ended by an interrupt or by the timeout, delivers
   everything that was in the FIFO when the wait began.
   */
  lemma {:induction false} NextPassDelivers(rings: seq<Ring>, modulus: nat, run: seq<Step>,
                                            pre: seq<Step>, mid: seq<Step>)
    requires Wellformed(rings) && Frames(rings) < modulus
    requires Legal(Start(rings, modulus), run) && Exec(Start(rings, modulus), run).drain.pc.AtWait?
    requires Legal(Exec(Start(rings, modulus), run), pre) && NoCount(pre)
    requires var c := Exec(Exec(Start(rings, modulus), run), pre);
             && Enabled(c, OnDrain(C.ReadCount)) && Legal(Apply(c, OnDrain(C.ReadCount)), mid)
             && Without(mid, C.PassEnd)
             && Enabled(Exec(Apply(c, OnDrain(C.ReadCount)), mid), OnDrain(C.PassEnd))
    ensures var s := Exec(Start(rings, modulus), run);
            var t := Exec(Apply(Exec(s, pre), OnDrain(C.ReadCount)), mid);
            s.drain.delivered + s.drain.fifo <= t.drain.delivered
  {
    Reached(rings, modulus, run);
    DescriptorCard(rings);
    NextPassInside(Exec(Start(rings, modulus), run), pre, mid);
  }

  lemma {:induction false} NextPassInside(s: System, pre: seq<Step>, mid: seq<Step>)
    requires Inv(s) && |s.drain.all| < s.drain.modulus && s.drain.pc.AtWait? && Legal(s, pre) && NoCount(pre)
    requires Enabled(Exec(s, pre), OnDrain(C.ReadCount))
    requires Legal(Apply(Exec(s, pre), OnDrain(C.ReadCount)), mid) && Without(mid, C.PassEnd)
    requires Enabled(Exec(Apply(Exec(s, pre), OnDrain(C.ReadCount)), mid), OnDrain(C.PassEnd))
    ensures s.drain.delivered + s.drain.fifo
         <= Exec(Apply(Exec(s, pre), OnDrain(C.ReadCount)), mid).drain.delivered
  {
    var c := Apply(Exec(s, pre), OnDrain(C.ReadCount));
    DrainOfSystem(s, pre);
    ProjectionWithout(s, pre, C.ReadCount);
    DrainOfSystem(c, mid);
    ProjectionWithout(c, mid, C.PassEnd);
    C.NextPassDelivers(s.drain, Projection(s, pre), Projection(c, mid));
  }

  // ---------------------------------------------------------------- the forced configuration

  /** Data receive, data send, control receive, control send, as the device constructor sets them. */
  ghost predicate ForcedFrames(rings: seq<Ring>) {
    && |rings| == 4 && Wellformed(rings)
    && |rings[0].order| == 48 && |rings[1].order| == 48 && |rings[2].order| == 16 && |rings[3].order| == 16
  }

  /** The most descriptors the library itself can have in flight. */
  const LIBRARY_LIMIT := 192

  lemma {:induction false} ForcedTotal(rings: seq<Ring>)
    requires ForcedFrames(rings)
    ensures Frames(rings) == 128
  {
    var three := rings[..3];
    var two := three[..2];
    var one := two[..1];
    assert one[..0] == [];
    assert Frames(one) == 48;
    assert two[1] == rings[1] && Frames(two) == Frames(one) + 48;
    assert three[2] == rings[2] && Frames(three) == Frames(two) + 16;
  }

  /** With the patched mask every count read of the forced configuration is exact, and so below the library's limit. */
  lemma {:induction false} PatchedMaskIsExact(rings: seq<Ring>, run: seq<Step>)
    requires ForcedFrames(rings) && Legal(Start(rings, C.PATCHED_MODULUS), run)
    ensures var d := Exec(Start(rings, C.PATCHED_MODULUS), run).drain;
            && |d.outstanding| + |d.fifo| <= 128 < LIBRARY_LIMIT < C.PATCHED_MODULUS
            && C.Masked(|d.fifo|, C.PATCHED_MODULUS) == |d.fifo|
  {
    ForcedTotal(rings);
    BacklogBounded(rings, C.PATCHED_MODULUS, run);
  }

  // ---------------------------------------------------------------- what a full backlog does to callers

  ghost predicate AllInFlight(s: System) {
    forall i :: 0 <= i < |s.rings| ==> s.rings[i].pool <= s.rings[i].inFlight
  }

  lemma {:induction false} StuckMeansAllInFlight(rings: seq<Ring>, modulus: nat, s: System)
    requires Inv(s) && Configured(rings, modulus, s) && C.Stuck(s.drain)
    ensures AllInFlight(s)
  {
    forall i, b | 0 <= i < |s.rings| && b in s.rings[i].pool ensures b in s.rings[i].inFlight {
      DescriptorMember(rings, Desc(i, b));
      if Desc(i, b) !in s.drain.fifo {
        C.OutsideMeansFewer(s.drain, Desc(i, b));
      }
    }
  }

  /** A ring whose whole pool is in flight can neither submit nor hand out. */
  lemma {:induction false} IdleRing(s: R.State)
    requires R.Inv(s) && s.pool <= s.inFlight
    ensures !R.Enabled(s, R.Accept) && !R.Enabled(s, R.PopFront)
  {
    if R.Enabled(s, R.Accept) {
      HeadNotSubmitted(s);
    }
    if R.Enabled(s, R.PopFront) {
      R.PopIsClean(s);
      R.WhereIs(s, s.get.b);
    }
  }

  lemma {:induction false} HandedKept(s: R.State, step: R.Step)
    requires R.Enabled(s, step) && !step.PopFront?
    ensures R.Apply(s, step).handed == s.handed
  {
  }

  lemma {:induction false} StarvedStep(s: System, step: Step)
    requires Inv(s) && C.Stuck(s.drain) && AllInFlight(s) && Enabled(s, step)
    ensures var t := Apply(s, step);
            && C.Stuck(t.drain) && AllInFlight(t) && t.drain.delivered == s.drain.delivered
            && |t.rings| == |s.rings|
            && forall i :: 0 <= i < |s.rings| ==> t.rings[i].handed == s.rings[i].handed
  {
    match step
    case OnRing(r, st) =>
      IdleRing(s.rings[r]);
      OtherRingStep(s.rings[r], st);
      R.PoolKept(s.rings[r], st);
      HandedKept(s.rings[r], st);
    case SubmitTo(r) =>
      IdleRing(s.rings[r]);
    case OnDrain(st) =>
      C.StuckStep(s.drain, st);
    case Deliver =>
  }

  lemma {:induction false} Starved(s: System, run: seq<Step>)
    requires Inv(s) && C.Stuck(s.drain) && AllInFlight(s) && Legal(s, run)
    ensures var t := Exec(s, run);
            && C.Stuck(t.drain) && AllInFlight(t) && t.drain.delivered == s.drain.delivered
            && |t.rings| == |s.rings|
            && forall i :: 0 <= i < |s.rings| ==> t.rings[i].handed == s.rings[i].handed
  {
    if run != [] {
      var front := run[..|run| - 1];
      Starved(s, front);
      Invariant(s, front);
      StarvedStep(Exec(s, front), run[|run| - 1]);
    }
  }

  /**
   Once all descriptors are in a FIFO read as 0, no later step of any run delivers a completion or hands a buffer
   to any caller.
   */
  lemma {:induction false} FullBacklogStarves(rings: seq<Ring>, modulus: nat, run: seq<Step>, after: seq<Step>)
    requires Wellformed(rings) && Legal(Start(rings, modulus), run)
    requires C.Stuck(Exec(Start(rings, modulus), run).drain)
    requires Legal(Exec(Start(rings, modulus), run), after)
    ensures var s := Exec(Start(rings, modulus), run);
            var t := Exec(s, after);
            && t.drain.delivered == s.drain.delivered && |t.rings| == |s.rings|
            && forall i :: 0 <= i < |s.rings| ==> t.rings[i].handed == s.rings[i].handed
  {
    Reached(rings, modulus, run);
    var s := Exec(Start(rings, modulus), run);
    StuckMeansAllInFlight(rings, modulus, s);
    Starved(s, after);
  }

  // ---------------------------------------------------------------- the stall of some of the rings

  /** The rings of rx as they are, the others without frames. */
  function Only(rings: seq<Ring>, rx: set<nat>): (r: seq<Ring>)
    ensures |r| == |rings|
    ensures forall i :: 0 <= i < |rings| ==> r[i] == if i in rx then rings[i] else Ring(rings[i].isRecv, [])
  {
    seq(|rings|, i requires 0 <= i < |rings| => if i in rx then rings[i] else Ring(rings[i].isRecv, []))
  }

  /**
   A backlog the mask reads as 0, nothing left to pop, no transfer under way, and every buffer of the rings in
   rx in that backlog. The other rings may have buffers elsewhere.
   */
  ghost predicate Stalled(s: System, rx: set<nat>) {
    && C.Dry(s.drain)
    && forall i :: 0 <= i < |s.rings| && i in rx ==> s.rings[i].pool <= s.rings[i].inFlight
  }

  /** Only rings of rx give the library anything. */
  ghost predicate SubmitsWithin(run: seq<Step>, rx: set<nat>) {
    forall k :: 0 <= k < |run| && run[k].SubmitTo? ==> run[k].ring in rx
  }

  lemma {:induction false} StallStep(s: System, rx: set<nat>, step: Step)
    requires Inv(s) && Stalled(s, rx) && Enabled(s, step) && (step.SubmitTo? ==> step.ring in rx)
    ensures var t := Apply(s, step);
            && Stalled(t, rx) && t.drain.fifo == s.drain.fifo && t.drain.delivered == s.drain.delivered
            && |t.rings| == |s.rings|
            && forall i :: 0 <= i < |s.rings| && i in rx ==> t.rings[i].handed == s.rings[i].handed
  {
    match step
    case OnRing(r, st) =>
      StalledRingStep(s.rings[r], r in rx, st);
    case SubmitTo(r) =>
      IdleRing(s.rings[r]);
    case OnDrain(st) =>
      C.DryStep(s.drain, st);
    case Deliver =>
      C.DryStep(s.drain, C.Pop);
  }

  lemma {:induction false} StalledRingStep(s: R.State, stalled: bool, step: R.Step)
    requires R.Inv(s) && (stalled ==> s.pool <= s.inFlight)
    requires R.Enabled(s, step) && !step.Accept? && !step.Callback?
    ensures stalled ==> R.Apply(s, step).pool <= R.Apply(s, step).inFlight && R.Apply(s, step).handed == s.handed
  {
    OtherRingStep(s, step);
    R.PoolKept(s, step);
    if stalled {
      IdleRing(s);
      HandedKept(s, step);
    }
  }

  /**
   From a stall on, no run delivers a completion, or hands out a buffer of a stalled ring, unless some other
   ring gives the library a buffer.
   */
  lemma {:induction false} StallLasts(s: System, rx: set<nat>, run: seq<Step>)
    requires Inv(s) && Stalled(s, rx) && Legal(s, run) && SubmitsWithin(run, rx)
    ensures var t := Exec(s, run);
            && Stalled(t, rx) && t.drain.fifo == s.drain.fifo && t.drain.delivered == s.drain.delivered
            && |t.rings| == |s.rings|
            && forall i :: 0 <= i < |s.rings| && i in rx ==> t.rings[i].handed == s.rings[i].handed
  {
    if run != [] {
      var front, last := run[..|run| - 1], run[|run| - 1];
      StallLasts(s, rx, front);
      Invariant(s, front);
      assert last.SubmitTo? ==> last.ring in rx;
      StallStep(Exec(s, front), rx, last);
    }
  }

  /** A stall's backlog is at least the frames of its own rings, and at most all frames. */
  lemma {:induction false} StallHolds(rings: seq<Ring>, modulus: nat, s: System, rx: set<nat>)
    requires Wellformed(rings) && Inv(s) && Configured(rings, modulus, s) && Stalled(s, rx)
    ensures Frames(Only(rings, rx)) <= |s.drain.fifo| <= Frames(rings)
  {
    BacklogFits(rings, modulus, s);
    OnlyWellformed(rings, rx);
    DescriptorCard(Only(rings, rx));
    StallInFifo(rings, modulus, s, rx);
    C.CoverCard(Descriptors(Only(rings, rx)), s.drain.fifo);
  }

  lemma {:induction false} StallInFifo(rings: seq<Ring>, modulus: nat, s: System, rx: set<nat>)
    requires Inv(s) && Configured(rings, modulus, s) && Stalled(s, rx)
    ensures forall d :: d in Descriptors(Only(rings, rx)) ==> d in s.drain.fifo
  {
    forall d | d in Descriptors(Only(rings, rx)) ensures d in s.drain.fifo {
      DescriptorMember(Only(rings, rx), d);
      assert d.buf in s.rings[d.ring].pool;
    }
  }

  lemma {:induction false} OnlyWellformed(rings: seq<Ring>, rx: set<nat>)
    requires Wellformed(rings)
    ensures Wellformed(Only(rings, rx))
  {
    var none: seq<R.Buf> := [];
    assert Distinct(none);
  }

  // ---------------------------------------------------------------- runs put together

  lemma {:induction false} RunSnoc(s: System, run: seq<Step>, step: Step)
    requires Legal(s, run) && Enabled(Exec(s, run), step)
    ensures Legal(s, run + [step])
    ensures Exec(s, run + [step]) == Apply(Exec(s, run), step)
  {
    assert (run + [step])[..|run|] == run;
  }

  lemma {:induction false} RunConcat(s: System, run: seq<Step>, more: seq<Step>)
    requires Legal(s, run) && Legal(Exec(s, run), more)
    ensures Legal(s, run + more)
    ensures Exec(s, run + more) == Exec(Exec(s, run), more)
  {
    if more == [] {
      assert run + more == run;
    } else {
      var front, last := more[..|more| - 1], more[|more| - 1];
      RunConcat(s, run, front);
      assert (run + more)[..|run + more| - 1] == run + front;
      assert (run + more)[|run + more| - 1] == last;
    }
  }

  /** What a ring can do on its own it can do in the system. */
  lemma {:induction false} Lift(s: System, r: nat, steps: seq<R.Step>) returns (run: seq<Step>)
    requires r < |s.rings| && R.Legal(s.rings[r], steps)
    requires forall k :: 0 <= k < |steps| ==> !steps[k].Accept? && !steps[k].Callback?
    ensures Legal(s, run)
    ensures Exec(s, run) == s.(rings := s.rings[r := R.Exec(s.rings[r], steps)])
    ensures forall k :: 0 <= k < |run| ==> !run[k].SubmitTo?
  {
    if steps == [] {
      run := [];
    } else {
      var front, last := steps[..|steps| - 1], steps[|steps| - 1];
      run := Lift(s, r, front);
      assert !last.Accept? && !last.Callback?;
      RunSnoc(s, run, OnRing(r, last));
      run := run + [OnRing(r, last)];
    }
  }

  /** What the drain can do without submitting or popping it can do in the system. */
  lemma {:induction false} LiftDrain(s: System, steps: seq<C.Step<Desc>>) returns (run: seq<Step>)
    requires C.Legal(s.drain, steps) && forall k :: 0 <= k < |steps| ==> !steps[k].Submit? && !steps[k].Pop?
    ensures Legal(s, run) && Exec(s, run) == s.(drain := C.Exec(s.drain, steps))
    ensures forall k :: 0 <= k < |run| ==> !run[k].SubmitTo?
  {
    if steps == [] {
      run := [];
    } else {
      var front, last := steps[..|steps| - 1], steps[|steps| - 1];
      run := LiftDrain(s, front);
      assert !last.Submit? && !last.Pop?;
      RunSnoc(s, run, OnDrain(last));
      run := run + [OnDrain(last)];
    }
  }

  // ---------------------------------------------------------------- filling the FIFO on purpose

  /** One release, carried through to the end of its critical section. */
  lemma {:induction false} ReleaseOne(s: System, r: nat, b: R.Buf) returns (run: seq<Step>)
    requires r < |s.rings|
    requires var q := s.rings[r];
             q.section.Free? && q.status.Running? && q.released == [] && b in q.held && |q.enqueued| < q.n
    requires C.Enabled(s.drain, C.Submit(Desc(r, b)))
    ensures Legal(s, run)
    ensures var t := Exec(s, run);
            var q := s.rings[r];
            && t.drain == s.drain.(outstanding := s.drain.outstanding + {Desc(r, b)})
            && t.rings == s.rings[r := q.(enqueued := q.enqueued + [b], held := q.held - {b},
                                          inFlight := q.inFlight + {b})]
  {
    var begin := R.BeginRelease(s.rings[r], b);
    run := Lift(s, r, begin);
    RunSnoc(s, run, SubmitTo(r));
    run := run + [SubmitTo(r)];
    var m := Exec(s, run);
    var end := R.EndRelease(m.rings[r], b);
    var more := Lift(m, r, end);
    RunConcat(s, run, more);
    run := run + more;
  }

  /** A vector of counts, one for each ring, none above the ring's frames. */
  ghost predicate Counts(rings: seq<Ring>, c: seq<nat>) {
    |c| == |rings| && forall i :: 0 <= i < |rings| ==> c[i] <= |rings[i].order|
  }

  function Total(c: seq<nat>): nat {
    if c == [] then 0 else Total(c[..|c| - 1]) + c[|c| - 1]
  }

  lemma {:induction false} TotalUpdate(c: seq<nat>, i: nat, n: nat)
    requires i < |c|
    ensures Total(c[i := n]) + c[i] == Total(c) + n
  {
    var last := |c| - 1;
    if i < last {
      TotalUpdate(c[..last], i, n);
      assert c[i := n][..last] == c[..last][i := n];
    } else {
      assert c[i := n][..last] == c[..last];
    }
  }

  /** A ring at rest whose first k buffers are in flight and the others as construction left them. */
  ghost predicate PartFilled(q: R.State, ring: Ring, k: nat)
    requires k <= |ring.order|
  {
    && q.n == |ring.order| && q.section.Free? && q.status.Running? && q.released == []
    && if ring.isRecv then |q.enqueued| == k && q.held == Elems(ring.order[k..])
       else q.get.Idle? && q.enqueued == ring.order[k..] + ring.order[..k] && q.held == {}
            && Elems(ring.order[k..]) <= q.completed
  }

  /** Each ring's first c[i] descriptors are with the card and no others; do_cb is asleep. */
  ghost predicate Given(rings: seq<Ring>, modulus: nat, s: System, c: seq<nat>) {
    && Counts(rings, c) && Configured(rings, modulus, s)
    && s.drain.pc.AtWait? && s.drain.fifo == [] && |s.drain.outstanding| == Total(c)
    && (forall d: Desc :: d in s.drain.outstanding <==> InFirst(rings, c, d))
    && (forall i :: 0 <= i < |rings| ==> PartFilled(s.rings[i], rings[i], c[i]))
  }

  /** The same descriptors are all in the FIFO. */
  ghost predicate Filled(rings: seq<Ring>, modulus: nat, s: System, c: seq<nat>) {
    && Counts(rings, c) && Configured(rings, modulus, s)
    && s.drain.pc.AtWait? && s.drain.outstanding == {} && |s.drain.fifo| == Total(c)
    && (forall d: Desc :: d in s.drain.fifo <==> InFirst(rings, c, d))
    && (forall i :: 0 <= i < |rings| ==> PartFilled(s.rings[i], rings[i], c[i]))
  }

  ghost predicate InFirst(rings: seq<Ring>, c: seq<nat>, d: Desc)
    requires Counts(rings, c)
  {
    d.ring < |rings| && d.buf in rings[d.ring].order[..c[d.ring]]
  }

  /** Readies the next buffer of ring r for release: a receive ring's caller has it, a transmit ring's takes it. */
  lemma {:induction false} Ready(s: System, r: nat, ring: Ring, k: nat) returns (run: seq<Step>)
    requires Distinct(ring.order) && r < |s.rings| && k < |ring.order| && PartFilled(s.rings[r], ring, k)
    ensures Legal(s, run) && Exec(s, run).drain == s.drain && |Exec(s, run).rings| == |s.rings|
    ensures var q, p := Exec(s, run).rings[r], s.rings[r];
            && Exec(s, run).rings == s.rings[r := q]
            && q.n == p.n && q.pool == p.pool && q.section.Free? && q.status.Running? && q.released == []
            && ring.order[k] in q.held && |q.enqueued| < q.n
            && (if ring.isRecv then q == p
                else q.get.Idle? && q.enqueued == ring.order[k + 1..] + ring.order[..k] && q.held == {ring.order[k]}
                     && Elems(ring.order[k + 1..]) <= q.completed)
  {
    OneLess(ring.order, k);
    if ring.isRecv {
      run := [];
    } else {
      assert s.rings[r].enqueued[1..] == ring.order[k + 1..] + ring.order[..k];
      var steps := R.UndisturbedGet(s.rings[r], ring.order[k]);
      run := Lift(s, r, steps);
    }
  }

  lemma {:induction false} GiveNext(rings: seq<Ring>, modulus: nat, s: System, c: seq<nat>, r: nat)
    returns (run: seq<Step>)
    requires Wellformed(rings) && Given(rings, modulus, s, c) && r < |rings| && c[r] < |rings[r].order|
    ensures Legal(s, run) && Given(rings, modulus, Exec(s, run), c[r := c[r] + 1])
  {
    var b := rings[r].order[c[r]];
    OneLess(rings[r].order, c[r]);
    DescriptorMember(rings, Desc(r, b));
    assert !InFirst(rings, c, Desc(r, b));
    hide InFirst;
    hide PartFilled;
    run := Ready(s, r, rings[r], c[r]);
    var m := Exec(s, run);
    var more := ReleaseOne(m, r, b);
    RunConcat(s, run, more);
    run := run + more;
    NextPartFilled(m.rings[r], Exec(s, run).rings[r], rings[r], c[r]);
    GivenNext(rings, modulus, s, Exec(s, run), c, r);
  }

  /** The ring after its next buffer has gone through. */
  lemma {:induction false} NextPartFilled(m: R.State, q: R.State, ring: Ring, k: nat)
    requires Distinct(ring.order) && k < |ring.order|
    requires m.n == |ring.order| && m.section.Free? && m.status.Running? && m.released == []
    requires if ring.isRecv then |m.enqueued| == k && m.held == Elems(ring.order[k..])
             else m.get.Idle? && m.enqueued == ring.order[k + 1..] + ring.order[..k] && m.held == {ring.order[k]}
                  && Elems(ring.order[k + 1..]) <= m.completed
    requires q == m.(enqueued := m.enqueued + [ring.order[k]], held := m.held - {ring.order[k]},
                     inFlight := m.inFlight + {ring.order[k]})
    ensures PartFilled(q, ring, k + 1)
  {
    OneLess(ring.order, k);
    assert ring.order[..k + 1] == ring.order[..k] + [ring.order[k]];
  }

  lemma {:induction false} GivenNext(rings: seq<Ring>, modulus: nat, s: System, t: System, c: seq<nat>, r: nat)
    requires Given(rings, modulus, s, c) && r < |rings| && c[r] < |rings[r].order|
    requires var d := Desc(r, rings[r].order[c[r]]);
             d !in s.drain.outstanding && t.drain == s.drain.(outstanding := s.drain.outstanding + {d})
    requires |t.rings| == |s.rings| && t.rings == s.rings[r := t.rings[r]] && t.rings[r].pool == s.rings[r].pool
    requires PartFilled(t.rings[r], rings[r], c[r] + 1)
    ensures Given(rings, modulus, t, c[r := c[r] + 1])
  {
    hide PartFilled;
    hide InFirst;
    var c' := c[r := c[r] + 1];
    TotalUpdate(c, r, c[r] + 1);
    forall d ensures d in t.drain.outstanding <==> InFirst(rings, c', d) {
      InFirstNext(rings, c, r, d);
    }
    forall i | 0 <= i < |rings| ensures PartFilled(t.rings[i], rings[i], c'[i]) {
      assert i != r ==> t.rings[i] == s.rings[i] && c'[i] == c[i];
    }
  }

  lemma {:induction false} InFirstNext(rings: seq<Ring>, c: seq<nat>, r: nat, d: Desc)
    requires Counts(rings, c) && r < |rings| && c[r] < |rings[r].order|
    ensures InFirst(rings, c[r := c[r] + 1], d) <==> InFirst(rings, c, d) || d == Desc(r, rings[r].order[c[r]])
  {
    var order, k := rings[r].order, c[r];
    assert order[..k + 1] == order[..k] + [order[k]];
  }

  /** Every vector of counts can be reached, with the transfers still under way. */
  lemma {:induction false} GiveTo(rings: seq<Ring>, modulus: nat, c: seq<nat>) returns (run: seq<Step>)
    requires Wellformed(rings) && Counts(rings, c)
    ensures Legal(Start(rings, modulus), run) && Given(rings, modulus, Exec(Start(rings, modulus), run), c)
    decreases Total(c)
  {
    if r :| 0 <= r < |c| && c[r] > 0 {
      var less := c[r := c[r] - 1];
      TotalUpdate(c, r, c[r] - 1);
      assert less[r := less[r] + 1] == c;
      var front := GiveTo(rings, modulus, less);
      var more := GiveNext(rings, modulus, Exec(Start(rings, modulus), front), less, r);
      RunConcat(Start(rings, modulus), front, more);
      run := front + more;
    } else {
      run := [];
      StartGiven(rings, modulus, c);
    }
  }

  lemma {:induction false} StartGiven(rings: seq<Ring>, modulus: nat, c: seq<nat>)
    requires Wellformed(rings) && Counts(rings, c) && forall i :: 0 <= i < |c| ==> c[i] == 0
    ensures Given(rings, modulus, Start(rings, modulus), c)
  {
    ZeroTotal(c);
    forall i | 0 <= i < |rings| ensures PartFilled(Start(rings, modulus).rings[i], rings[i], c[i]) {
      assert rings[i].order[0..] == rings[i].order && rings[i].order[0..] + rings[i].order[..0] == rings[i].order;
    }
  }

  /** And with all of them completed. */
  lemma {:induction false} FillTo(rings: seq<Ring>, modulus: nat, c: seq<nat>) returns (run: seq<Step>)
    requires Wellformed(rings) && Counts(rings, c)
    ensures Legal(Start(rings, modulus), run) && Filled(rings, modulus, Exec(Start(rings, modulus), run), c)
  {
    run := GiveTo(rings, modulus, c);
    var s := Exec(Start(rings, modulus), run);
    var steps := C.CompleteSet(s.drain, s.drain.outstanding);
    var more := LiftDrain(s, steps);
    RunConcat(Start(rings, modulus), run, more);
    run := run + more;
  }

  lemma {:induction false} ZeroTotal(c: seq<nat>)
    requires forall i :: 0 <= i < |c| ==> c[i] == 0
    ensures Total(c) == 0
  {
    if c != [] {
      ZeroTotal(c[..|c| - 1]);
    }
  }

  /** Counts that take the rings of rx whole and come to a given total. */
  lemma {:induction false} Choose(rings: seq<Ring>, rx: set<nat>, total: nat) returns (c: seq<nat>)
    requires Frames(Only(rings, rx)) <= total <= Frames(rings)
    ensures Counts(rings, c) && Total(c) == total
    ensures forall i :: 0 <= i < |rings| && i in rx ==> c[i] == |rings[i].order|
  {
    if rings == [] {
      c := [];
    } else {
      var k := ChooseLast(rings, rx, total);
      var rest := Choose(rings[..|rings| - 1], rx, total - k);
      OneMoreCount(rings, rx, rest, k);
      c := rest + [k];
    }
  }

  lemma {:induction false} OneMoreCount(rings: seq<Ring>, rx: set<nat>, rest: seq<nat>, k: nat)
    requires rings != [] && Counts(rings[..|rings| - 1], rest) && k <= |rings[|rings| - 1].order|
    requires forall i :: 0 <= i < |rings| - 1 && i in rx ==> rest[i] == |rings[..|rings| - 1][i].order|
    requires |rings| - 1 in rx ==> k == |rings[|rings| - 1].order|
    ensures Counts(rings, rest + [k]) && Total(rest + [k]) == Total(rest) + k
    ensures forall i :: 0 <= i < |rings| && i in rx ==> (rest + [k])[i] == |rings[i].order|
  {
    var front, c := rings[..|rings| - 1], rest + [k];
    assert c[..|rest|] == rest;
    forall i | 0 <= i < |rings|
      ensures c[i] <= |rings[i].order| && (i in rx ==> c[i] == |rings[i].order|)
    {
      if i < |rest| {
        assert front[i] == rings[i] && c[i] == rest[i];
      }
    }
  }

  lemma {:induction false} ChooseLast(rings: seq<Ring>, rx: set<nat>, total: nat) returns (k: nat)
    requires rings != [] && Frames(Only(rings, rx)) <= total <= Frames(rings)
    ensures var front := rings[..|rings| - 1]; Frames(Only(front, rx)) <= total - k <= Frames(front)
    ensures k <= |rings[|rings| - 1].order| && (|rings| - 1 in rx ==> k == |rings[|rings| - 1].order|)
  {
    var last := |rings| - 1;
    var front, n := rings[..last], |rings[last].order|;
    assert Only(rings, rx)[..last] == Only(front, rx);
    OnlyFewer(front, rx);
    var least := Frames(Only(front, rx));
    k := if last in rx || total - least >= n then n else total - least;
  }

  lemma {:induction false} OnlyFewer(rings: seq<Ring>, rx: set<nat>)
    ensures Frames(Only(rings, rx)) <= Frames(rings)
  {
    if rings != [] {
      var last := |rings| - 1;
      assert Only(rings, rx)[..last] == Only(rings[..last], rx);
      OnlyFewer(rings[..last], rx);
    }
  }

  // ---------------------------------------------------------------- which configurations stall

  ghost predicate ReachesStall(rings: seq<Ring>, modulus: nat, rx: set<nat>, backlog: nat) {
    exists run :: Legal(Start(rings, modulus), run) && Stalled(Exec(Start(rings, modulus), run), rx)
                  && |Exec(Start(rings, modulus), run).drain.fifo| == backlog
  }

  lemma {:induction false} FilledStalls(rings: seq<Ring>, modulus: nat, s: System, c: seq<nat>, rx: set<nat>)
    requires Inv(s) && Filled(rings, modulus, s, c) && C.Masked(Total(c), modulus) == 0
    requires forall i :: 0 <= i < |rings| && i in rx ==> c[i] == |rings[i].order|
    ensures Stalled(s, rx)
  {
    forall i, b | 0 <= i < |rings| && i in rx && b in s.rings[i].pool ensures b in s.rings[i].inFlight {
      assert rings[i].order[..c[i]] == rings[i].order;
      assert InFirst(rings, c, Desc(i, b));
      assert Desc(i, b) in s.drain.fifo;
    }
  }

  /**
   The rings of rx can stall on a given backlog if and only if the mask reads it as 0 and it lies between their
   own frames and the frames of all rings.
   */
  lemma {:induction false} StallReachable(rings: seq<Ring>, modulus: nat, rx: set<nat>, backlog: nat)
    requires Wellformed(rings)
    ensures ReachesStall(rings, modulus, rx, backlog)
       <==> Frames(Only(rings, rx)) <= backlog <= Frames(rings) && C.Masked(backlog, modulus) == 0
  {
    if ReachesStall(rings, modulus, rx, backlog) {
      var run :| Legal(Start(rings, modulus), run) && Stalled(Exec(Start(rings, modulus), run), rx)
                 && |Exec(Start(rings, modulus), run).drain.fifo| == backlog;
      Reached(rings, modulus, run);
      StallHolds(rings, modulus, Exec(Start(rings, modulus), run), rx);
    }
    if Frames(Only(rings, rx)) <= backlog <= Frames(rings) && C.Masked(backlog, modulus) == 0 {
      var c := Choose(rings, rx, backlog);
      var run := FillTo(rings, modulus, c);
      Reached(rings, modulus, run);
      FilledStalls(rings, modulus, Exec(Start(rings, modulus), run), c, rx);
    }
  }

  ghost predicate ReachesFullBacklog(rings: seq<Ring>, modulus: nat) {
    exists run :: Legal(Start(rings, modulus), run) && C.Stuck(Exec(Start(rings, modulus), run).drain)
  }

  /** All descriptors can end up in a FIFO read as 0 if and only if the mask reads their number as 0. */
  lemma {:induction false} FullBacklogReachable(rings: seq<Ring>, modulus: nat)
    requires Wellformed(rings)
    ensures ReachesFullBacklog(rings, modulus) <==> C.Masked(Frames(rings), modulus) == 0
  {
    DescriptorCard(rings);
    if ReachesFullBacklog(rings, modulus) {
      var run :| Legal(Start(rings, modulus), run) && C.Stuck(Exec(Start(rings, modulus), run).drain);
      Reached(rings, modulus, run);
    }
    if C.Masked(Frames(rings), modulus) == 0 {
      OnlyFewer(rings, {});
      var c := Choose(rings, {}, Frames(rings));
      var run := FillTo(rings, modulus, c);
      assert C.Stuck(Exec(Start(rings, modulus), run).drain);
    }
  }

  // ---------------------------------------------------------------- the device

  const RECEIVE: set<nat> := {0, 2} // data and control receive

  lemma {:induction false} ReceiveFrames(rings: seq<Ring>)
    requires ForcedFrames(rings)
    ensures Frames(Only(rings, RECEIVE)) == 64
  {
    var own := Only(rings, RECEIVE);
    var three := own[..3];
    var two := three[..2];
    var one := two[..1];
    assert one[..0] == [];
    assert Frames(one) == 48 && Frames(two) == 48 && Frames(three) == 64;
  }

  /**
   The device's receive rings can stall under the vendor mask, on a backlog of 64 or of 128 and on no other.
   */
  lemma {:induction false} VendorStall(rings: seq<Ring>, backlog: nat)
    requires ForcedFrames(rings)
    ensures ReachesStall(rings, C.VENDOR_MODULUS, RECEIVE, backlog) <==> backlog == 64 || backlog == 128
  {
    ForcedTotal(rings);
    ReceiveFrames(rings);
    StallReachable(rings, C.VENDOR_MODULUS, RECEIVE, backlog);
    if 64 <= backlog <= 128 {
      MultiplesOf64(backlog);
    }
  }

  lemma {:induction false} MultiplesOf64(count: nat)
    requires 64 <= count <= 128
    ensures C.Masked(count, C.VENDOR_MODULUS) == 0 <==> count == 64 || count == 128
  {
  }

  /**
   While the device's receive rings are stalled and the application sends nothing, no run delivers a sample
   buffer or a control reply; if the backlog is 64, the FIFO holds the receive rings' descriptors and no others,
   and not all descriptors are queued.
   */
  lemma {:induction false} VendorStallStarves(rings: seq<Ring>, run: seq<Step>, after: seq<Step>)
    requires ForcedFrames(rings) && Legal(Start(rings, C.VENDOR_MODULUS), run)
    requires Stalled(Exec(Start(rings, C.VENDOR_MODULUS), run), RECEIVE)
    requires Legal(Exec(Start(rings, C.VENDOR_MODULUS), run), after) && SubmitsWithin(after, RECEIVE)
    ensures var s := Exec(Start(rings, C.VENDOR_MODULUS), run);
            var t := Exec(s, after);
            && t.drain.delivered == s.drain.delivered && t.drain.fifo == s.drain.fifo && |t.rings| == |s.rings| == 4
            && t.rings[0].handed == s.rings[0].handed && t.rings[2].handed == s.rings[2].handed
            && (|s.drain.fifo| == 64 ==>
                  && !C.Stuck(s.drain)
                  && forall d :: d in s.drain.fifo <==> d in Descriptors(Only(rings, RECEIVE)))
  {
    var s := Exec(Start(rings, C.VENDOR_MODULUS), run);
    Reached(rings, C.VENDOR_MODULUS, run);
    StallLasts(s, RECEIVE, after);
    ForcedTotal(rings);
    DescriptorCard(rings);
    if |s.drain.fifo| == 64 {
      ReceiveFrames(rings);
      StallIsAll(rings, C.VENDOR_MODULUS, s, RECEIVE);
    }
  }

  /** A stall on no more than the frames of its own rings holds exactly their descriptors. */
  lemma {:induction false} StallIsAll(rings: seq<Ring>, modulus: nat, s: System, rx: set<nat>)
    requires Wellformed(rings) && Inv(s) && Configured(rings, modulus, s) && Stalled(s, rx)
    requires |s.drain.fifo| == Frames(Only(rings, rx))
    ensures forall d :: d in s.drain.fifo <==> d in Descriptors(Only(rings, rx))
  {
    var own := Only(rings, rx);
    OnlyWellformed(rings, rx);
    DescriptorCard(own);
    StallInFifo(rings, modulus, s, rx);
    C.CoverAll(Descriptors(own), s.drain.fifo);
  }

  /** With the patched mask no rings of the device that have frames can stall, on any backlog. */
  lemma {:induction false} PatchRemovesStall(rings: seq<Ring>, rx: set<nat>, backlog: nat)
    requires ForcedFrames(rings) && Frames(Only(rings, rx)) > 0
    ensures !ReachesStall(rings, C.PATCHED_MODULUS, rx, backlog)
  {
    ForcedTotal(rings);
    StallReachable(rings, C.PATCHED_MODULUS, rx, backlog);
    C.MaskedBelow(backlog, C.PATCHED_MODULUS);
  }

  /** The data and control receive rings on their own. */
  ghost predicate ReceiveRings(rings: seq<Ring>) {
    && |rings| == 2 && Wellformed(rings) && rings[0].isRecv && rings[1].isRecv
    && |rings[0].order| == 48 && |rings[1].order| == 16
  }

  /** For the two receive rings under the vendor mask, all descriptors queued and read as 0 means 64 of them. */
  lemma {:induction false} OnlyFullBacklogSticks(rings: seq<Ring>, run: seq<Step>)
    requires ReceiveRings(rings) && Legal(Start(rings, C.VENDOR_MODULUS), run)
    ensures var d := Exec(Start(rings, C.VENDOR_MODULUS), run).drain;
            C.Stuck(d) <==> |d.fifo| == 64 && !(d.pc.Popping? && d.pc.n > 0)
  {
    Reached(rings, C.VENDOR_MODULUS, run);
    DescriptorCard(rings);
    ReceiveTotal(rings);
  }

  lemma {:induction false} ReceiveTotal(rings: seq<Ring>)
    requires ReceiveRings(rings)
    ensures Frames(rings) == 64
  {
    var one := rings[..1];
    assert one[..0] == [];
    assert Frames(one) == 48;
  }

  // ---------------------------------------------------------------- each ring inside the system

  /** What a system step does to ring r: one ring step, or none. */
  function RingProjected(s: System, step: Step, r: nat): seq<R.Step>
    requires Enabled(s, step)
  {
    match step
    case OnRing(i, st) => if i == r then [st] else []
    case SubmitTo(i) => if i == r then [R.Accept] else []
    case OnDrain(_) => []
    case Deliver => if s.drain.fifo[0].ring == r then [R.Callback(s.drain.fifo[0].buf)] else []
  }

  ghost function RingProjection(s: System, run: seq<Step>, r: nat): seq<R.Step>
    requires Legal(s, run)
  {
    if run == [] then []
    else RingProjection(s, run[..|run| - 1], r) + RingProjected(Exec(s, run[..|run| - 1]), run[|run| - 1], r)
  }

  /** Every run of the system is, seen from one ring, a run of that ring; so all its theorems hold in the system. */
  lemma {:induction false} RingOfSystem(s: System, run: seq<Step>, r: nat)
    requires Legal(s, run) && r < |s.rings|
    ensures |Exec(s, run).rings| == |s.rings|
    ensures R.Legal(s.rings[r], RingProjection(s, run, r))
    ensures R.Exec(s.rings[r], RingProjection(s, run, r)) == Exec(s, run).rings[r]
  {
    if run != [] {
      var front, last := run[..|run| - 1], run[|run| - 1];
      RingOfSystem(s, front, r);
      var m := Exec(s, front);
      var own := RingProjected(m, last, r);
      if own == [] {
        assert RingProjection(s, front, r) + [] == RingProjection(s, front, r);
      } else {
        R.RunSnoc(s.rings[r], RingProjection(s, front, r), own[0]);
      }
    }
  }

  /** In the running system too, each ring hands its buffers out in pool order followed by release order. */
  lemma {:induction false} SystemHandOutOrder(rings: seq<Ring>, modulus: nat, run: seq<Step>, r: nat)
    requires Wellformed(rings) && r < |rings| && Legal(Start(rings, modulus), run)
    ensures var s := Exec(Start(rings, modulus), run);
            && |s.rings| == |rings|
            && s.rings[r].handed + R.Queue(s.rings[r])
               == R.StartOrder(rings[r].isRecv, rings[r].order)
                + R.Releases(RingProjection(Start(rings, modulus), run, r))
            && R.Exclusive(s.rings[r])
  {
    var run' := RingProjection(Start(rings, modulus), run, r);
    RingOfSystem(Start(rings, modulus), run, r);
    R.HandOutOrder(rings[r].isRecv, rings[r].order, run');
    R.BufferOwnership(rings[r].isRecv, rings[r].order, run');
  }
}

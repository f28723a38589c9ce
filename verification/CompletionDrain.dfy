/**
 Completion wake-up and drain: the FPGA's completion FIFO, the MSI handler, the waiting branch of az_read and
 the do_cb loop of libpcie (wait, read register 0x1c, mask the count, pop that many), as one state machine.

 The mask keeps the count modulo `modulus`: 64 for the vendor's 0x3f, 512 for the patched 0x1ff.
 Descriptors are drawn from a fixed set; one that is neither outstanding nor in the FIFO is with its owner.
 */
module CompletionDrain {
  import opened Sequences

  const VENDOR_MODULUS := 64
  const PATCHED_MODULUS := 512

  /** Where the do_cb thread stands. */
  datatype Pc =
    | AtWait          // in az_read, testing or sleeping on rd_cond
    | AtClear         // woken or timed out, about to store 0 to rd_cond
    | AtCount         // az_read returned 1, about to read register 0x1c
    | Popping(n: nat) // masked count still to pop

  datatype State<D(==)> = State(
    all: set<D>,         // every descriptor there is
    modulus: nat,
    outstanding: set<D>, // with the FPGA, transfer not finished
    fifo: seq<D>,        // finished, not yet popped
    owed: nat,           // MSIs raised or still to be raised, not yet handled
    rd: nat,             // rd_cond
    pc: Pc,
    delivered: seq<D>    // every descriptor do_cb has popped, in order
  )

  datatype Step<D(==)> =
    | Submit(d: D)
    | Complete(d: D)   // FIFO first, then the MSI
    | Irq(merged: nat) // the handler runs once for this many pending MSIs
    | Lose             // an MSI never arrives
    | Wake
    | Timeout
    | Clear
    | ReadCount
    | Pop
    | PassEnd

  /** Register 0x1c after the mask. */
  function Masked(count: nat, modulus: nat): nat {
    if modulus == 0 then 0 else count % modulus
  }

  predicate Enabled<D(==)>(s: State<D>, step: Step<D>) {
    match step
    case Submit(d) => d in s.all && d !in s.outstanding && d !in s.fifo
    case Complete(d) => d in s.outstanding
    case Irq(merged) => 1 <= merged <= s.owed
    case Lose => s.owed >= 1
    case Wake => s.pc.AtWait? && s.rd >= 1
    case Timeout => s.pc.AtWait?
    case Clear => s.pc.AtClear?
    case ReadCount => s.pc.AtCount?
    case Pop => s.pc.Popping? && s.pc.n > 0 && s.fifo != []
    case PassEnd => s.pc.Popping? && s.pc.n == 0
  }

  function Apply<D>(s: State<D>, step: Step<D>): State<D>
    requires Enabled(s, step)
  {
    match step
    case Submit(d) => s.(outstanding := s.outstanding + {d})
    case Complete(d) => s.(outstanding := s.outstanding - {d}, fifo := s.fifo + [d], owed := s.owed + 1)
    case Irq(merged) => s.(owed := s.owed - merged, rd := s.rd + 1)
    case Lose => s.(owed := s.owed - 1)
    case Wake => s.(pc := AtClear)
    case Timeout => s.(pc := AtClear)
    case Clear => s.(rd := 0, pc := AtCount)
    case ReadCount => s.(pc := Popping(Masked(|s.fifo|, s.modulus)))
    case Pop => s.(fifo := s.fifo[1..], delivered := s.delivered + [s.fifo[0]], pc := Popping(s.pc.n - 1))
    case PassEnd => s.(pc := AtWait)
  }

  function Start<D>(all: set<D>, modulus: nat): State<D> {
    State(all, modulus, {}, [], 0, 0, AtWait, [])
  }

  ghost predicate Legal<D>(s: State<D>, run: seq<Step<D>>)
    decreases |run|, 0
  {
    run == [] || (Legal(s, run[..|run| - 1]) && Enabled(Exec(s, run[..|run| - 1]), run[|run| - 1]))
  }

  ghost function Exec<D>(s: State<D>, run: seq<Step<D>>): State<D>
    requires Legal(s, run)
    decreases |run|, 1
  {
    if run == [] then s else Apply(Exec(s, run[..|run| - 1]), run[|run| - 1])
  }

  lemma {:induction false} RunSnoc<D>(s: State<D>, run: seq<Step<D>>, step: Step<D>)
    requires Legal(s, run) && Enabled(Exec(s, run), step)
    ensures Legal(s, run + [step])
    ensures Exec(s, run + [step]) == Apply(Exec(s, run), step)
  {
    assert (run + [step])[..|run|] == run;
  }

  lemma {:induction false} RunConcat<D>(s: State<D>, run: seq<Step<D>>, more: seq<Step<D>>)
    requires Legal(s, run) && Legal(Exec(s, run), more)
    ensures Legal(s, run + more)
    ensures Exec(s, run + more) == Exec(Exec(s, run), more)
  {
    if more == [] {
      assert run + more == run;
    } else {
      var front, last := more[..|more| - 1], more[|more| - 1];
      RunConcat(s, run, front);
      assert (run + more)[..|run + more| - 1] == run + front;
      assert (run + more)[|run + more| - 1] == last;
    }
  }

  // ---------------------------------------------------------------- conservation

  /** A descriptor is at most once with the FPGA or in the FIFO. */
  ghost predicate Conserved<D>(s: State<D>) {
    multiset(s.outstanding) + multiset(s.fifo) <= multiset(s.all)
  }

  /** The count being popped is really there. */
  ghost predicate Backed<D>(s: State<D>) {
    s.pc.Popping? ==> s.pc.n <= |s.fifo|
  }

  lemma {:induction false} ConservedKept<D>(s: State<D>, step: Step<D>)
    requires Conserved(s) && Enabled(s, step)
    ensures Conserved(Apply(s, step)) && Apply(s, step).all == s.all && Apply(s, step).modulus == s.modulus
  {
    var t := Apply(s, step);
    match step
    case Submit(d) =>
      assert multiset(t.outstanding) == multiset(s.outstanding) + multiset{d};
    case Complete(d) =>
      assert multiset(s.outstanding) == multiset(t.outstanding) + multiset{d};
    case Pop =>
      assert s.fifo == [s.fifo[0]] + t.fifo;
    case _ =>
  }

  lemma {:induction false} MaskedBelow(count: nat, modulus: nat)
    ensures Masked(count, modulus) <= count
    ensures count < modulus ==> Masked(count, modulus) == count
  {
  }

  lemma {:induction false} BackedKept<D>(s: State<D>, step: Step<D>)
    requires Backed(s) && Enabled(s, step)
    ensures Backed(Apply(s, step))
  {
    MaskedBelow(|s.fifo|, s.modulus);
  }

  lemma {:induction false} Invariant<D>(s: State<D>, run: seq<Step<D>>)
    requires Conserved(s) && Backed(s) && Legal(s, run)
    ensures Conserved(Exec(s, run)) && Backed(Exec(s, run))
    ensures Exec(s, run).all == s.all && Exec(s, run).modulus == s.modulus
  {
    if run != [] {
      var front := run[..|run| - 1];
      Invariant(s, front);
      ConservedKept(Exec(s, front), run[|run| - 1]);
      BackedKept(Exec(s, front), run[|run| - 1]);
    }
  }

  lemma {:induction false} StartOk<D>(all: set<D>, modulus: nat)
    ensures Conserved(Start(all, modulus)) && Backed(Start(all, modulus))
  {
  }

  lemma {:induction false} BacklogFits<D>(s: State<D>)
    requires Conserved(s)
    ensures |s.outstanding| + |s.fifo| <= |s.all|
  {
    var rest := multiset(s.all) - (multiset(s.outstanding) + multiset(s.fifo));
    assert multiset(s.all) == multiset(s.outstanding) + multiset(s.fifo) + rest;
    assert |multiset(s.all)| == |multiset(s.outstanding)| + |multiset(s.fifo)| + |rest|;
  }

  // ---------------------------------------------------------------- one pass

  predicate MidPass<D(==)>(run: seq<Step<D>>) {
    forall i :: 0 <= i < |run| ==> !run[i].PassEnd?
  }

  /** While a pass pops, what it set out to deliver is what it has delivered plus the next n of the FIFO. */
  lemma {:induction false} PassProgress<D>(s: State<D>, mid: seq<Step<D>>)
    requires Backed(s) && s.pc.AtCount? && Legal(Apply(s, ReadCount), mid) && MidPass(mid)
    ensures var t := Exec(Apply(s, ReadCount), mid);
            && t.pc.Popping? && t.pc.n <= |t.fifo|
            && t.delivered + t.fifo[..t.pc.n] == s.delivered + s.fifo[..Masked(|s.fifo|, s.modulus)]
  {
    MaskedBelow(|s.fifo|, s.modulus);
    if mid != [] {
      var front, last := mid[..|mid| - 1], mid[|mid| - 1];
      PassProgress(s, front);
      PassProgressStep(Exec(Apply(s, ReadCount), front), last);
      assert !last.PassEnd?;
    }
  }

  lemma {:induction false} PassProgressStep<D>(m: State<D>, step: Step<D>)
    requires m.pc.Popping? && m.pc.n <= |m.fifo| && Enabled(m, step) && !step.PassEnd?
    ensures var t := Apply(m, step);
            && t.pc.Popping? && t.pc.n <= |t.fifo|
            && t.delivered + t.fifo[..t.pc.n] == m.delivered + m.fifo[..m.pc.n]
  {
    var t := Apply(m, step);
    if step.Pop? {
      assert m.fifo[..m.pc.n] == [m.fifo[0]] + t.fifo[..t.pc.n];
    } else if step.Complete? {
      assert t.fifo[..t.pc.n] == m.fifo[..m.pc.n];
    }
  }

  /**
   A finished pass delivers, in FIFO order, exactly the first `backlog & mask` completions present when it read
   the count, whatever else happened meanwhile (new completions, lost MSIs, interrupts).
   */
  lemma {:induction false} PassDelivers<D>(s: State<D>, mid: seq<Step<D>>)
    requires Backed(s) && s.pc.AtCount? && Legal(Apply(s, ReadCount), mid) && MidPass(mid)
    requires Enabled(Exec(Apply(s, ReadCount), mid), PassEnd)
    ensures Exec(Apply(s, ReadCount), mid).delivered == s.delivered + s.fifo[..Masked(|s.fifo|, s.modulus)]
  {
    PassProgress(s, mid);
    var t := Exec(Apply(s, ReadCount), mid);
    assert t.fifo[..0] == [];
  }

  /** With a mask wider than the backlog, a pass drains everything that was present at its count read. */
  lemma {:induction false} PassDrains<D>(s: State<D>, mid: seq<Step<D>>)
    requires Backed(s) && s.pc.AtCount? && Legal(Apply(s, ReadCount), mid) && MidPass(mid)
    requires Enabled(Exec(Apply(s, ReadCount), mid), PassEnd)
    requires |s.fifo| < s.modulus
    ensures Exec(Apply(s, ReadCount), mid).delivered == s.delivered + s.fifo
  {
    PassDelivers(s, mid);
    MaskedBelow(|s.fifo|, s.modulus);
    assert s.fifo[..|s.fifo|] == s.fifo;
  }

  function Completions<D>(run: seq<Step<D>>): nat {
    if run == [] then 0
    else Completions(run[..|run| - 1]) + (if run[|run| - 1].Complete? then 1 else 0)
  }

  /** Every descriptor that enters the FIFO leaves it by being delivered. */
  lemma {:induction false} FifoBalance<D>(s: State<D>, run: seq<Step<D>>)
    requires Legal(s, run)
    ensures var t := Exec(s, run);
            |t.fifo| + |t.delivered| == |s.fifo| + |s.delivered| + Completions(run)
  {
    if run != [] {
      FifoBalance(s, run[..|run| - 1]);
    }
  }

  /** A pass turns a backlog b into the largest multiple of the modulus below it, plus what arrived meanwhile. */
  lemma {:induction false} PassLeaves<D>(s: State<D>, mid: seq<Step<D>>)
    requires Backed(s) && s.pc.AtCount? && Legal(Apply(s, ReadCount), mid) && MidPass(mid) && s.modulus > 0
    requires Enabled(Exec(Apply(s, ReadCount), mid), PassEnd)
    ensures |Exec(Apply(s, ReadCount), mid).fifo| == s.modulus * (|s.fifo| / s.modulus) + Completions(mid)
  {
    var c, n := Apply(s, ReadCount), Masked(|s.fifo|, s.modulus);
    PassDelivers(s, mid);
    FifoBalance(c, mid);
    Quotient(|s.fifo|, s.modulus);
    assert |s.fifo[..n]| == n;
  }

  lemma {:induction false} Quotient(count: nat, modulus: nat)
    requires modulus > 0
    ensures Masked(count, modulus) <= count
    ensures count - Masked(count, modulus) == modulus * (count / modulus)
  {
  }

  // ---------------------------------------------------------------- no completion is stranded

  /** Unless an MSI is lost, whatever no pass has counted yet has a wake-up on the way. */
  ghost predicate Awake<D>(s: State<D>) {
    && (s.pc.AtWait? && s.fifo != [] ==> s.rd >= 1 || s.owed >= 1)
    && (s.pc.Popping? && |s.fifo| > s.pc.n ==> s.rd >= 1 || s.owed >= 1)
  }

  lemma {:induction false} AwakeKept<D>(s: State<D>, step: Step<D>)
    requires Awake(s) && Backed(s) && Enabled(s, step) && !step.Lose?
    requires |s.fifo| < s.modulus
    ensures Awake(Apply(s, step))
  {
    MaskedBelow(|s.fifo|, s.modulus);
  }

  ghost predicate NoLoss<D>(run: seq<Step<D>>) {
    forall i :: 0 <= i < |run| ==> !run[i].Lose?
  }

  lemma {:induction false} StaysAwake<D>(all: set<D>, modulus: nat, run: seq<Step<D>>)
    requires |all| < modulus && Legal(Start(all, modulus), run) && NoLoss(run)
    ensures Awake(Exec(Start(all, modulus), run))
  {
    if run != [] {
      var front, last := run[..|run| - 1], run[|run| - 1];
      StaysAwake(all, modulus, front);
      StartOk(all, modulus);
      Invariant(Start(all, modulus), front);
      BacklogFits(Exec(Start(all, modulus), front));
      assert !last.Lose?;
      AwakeKept(Exec(Start(all, modulus), front), last);
    }
  }

  /**
   Storing 0 to rd_cond erases interrupts that raced with it, yet while every MSI arrives do_cb never sleeps on
   a completion without either a non-zero rd_cond or an MSI still to be handled.
   */
  lemma {:induction false} NothingStranded<D>(all: set<D>, modulus: nat, run: seq<Step<D>>)
    requires |all| < modulus && Legal(Start(all, modulus), run) && NoLoss(run)
    ensures var s := Exec(Start(all, modulus), run);
            s.pc.AtWait? && s.fifo != [] ==> s.rd >= 1 || s.owed >= 1
  {
    StaysAwake(all, modulus, run);
  }

  predicate NoCount(run: seq<Step>) {
    forall i :: 0 <= i < |run| ==> !run[i].ReadCount?
  }

  /** Until the next count read, the FIFO only grows at its back and nothing is delivered. */
  lemma {:induction false} WaitingKeepsFifo<D>(s: State<D>, pre: seq<Step<D>>)
    requires !s.pc.Popping? && Legal(s, pre) && NoCount(pre)
    ensures var t := Exec(s, pre); !t.pc.Popping? && s.fifo <= t.fifo && t.delivered == s.delivered
  {
    if pre != [] {
      var front, last := pre[..|pre| - 1], pre[|pre| - 1];
      WaitingKeepsFifo(s, front);
      assert !last.ReadCount?;
    }
  }

  /**
   Even if MSIs are lost: the pass that follows a wait, however the wait ended (interrupt or timeout), delivers
   everything that was in the FIFO when the wait began.
   */
  lemma {:induction false} NextPassDelivers<D>(s: State<D>, pre: seq<Step<D>>, mid: seq<Step<D>>)
    requires Conserved(s) && Backed(s) && s.pc.AtWait? && |s.all| < s.modulus
    requires Legal(s, pre) && NoCount(pre) && Enabled(Exec(s, pre), ReadCount)
    requires Legal(Apply(Exec(s, pre), ReadCount), mid) && MidPass(mid)
    requires Enabled(Exec(Apply(Exec(s, pre), ReadCount), mid), PassEnd)
    ensures s.delivered + s.fifo <= Exec(Apply(Exec(s, pre), ReadCount), mid).delivered
  {
    var c := Exec(s, pre);
    WaitingKeepsFifo(s, pre);
    Invariant(s, pre);
    BacklogFits(c);
    PassDrains(c, mid);
    assert (c.delivered + c.fifo)[..|s.delivered + s.fifo|] == s.delivered + s.fifo;
  }

  /** And such a wait can always end: the timeout needs no interrupt. */
  lemma {:induction false} TimeoutEndsWait<D>(s: State<D>)
    requires s.pc.AtWait?
    ensures Legal(s, [Timeout, Clear]) && NoCount<D>([Timeout, Clear]) && Enabled(Exec(s, [Timeout, Clear]), ReadCount)
    ensures Exec(s, [Timeout, Clear]) == s.(rd := 0, pc := AtCount)
  {
    var run: seq<Step<D>> := [];
    RunSnoc(s, run, Timeout);
    RunSnoc(s, run + [Timeout], Clear);
    assert run + [Timeout] + [Clear] == [Timeout, Clear];
  }

  // ---------------------------------------------------------------- the deadlock, exactly

  /** Nothing left to pop in this pass, a backlog the mask reads as 0, and no descriptor anywhere else. */
  ghost predicate Stuck<D>(s: State<D>) {
    && !(s.pc.Popping? && s.pc.n > 0)
    && Masked(|s.fifo|, s.modulus) == 0
    && |s.fifo| == |s.all|
  }

  lemma {:induction false} StuckStep<D>(s: State<D>, step: Step<D>)
    requires Conserved(s) && Stuck(s) && Enabled(s, step)
    ensures Stuck(Apply(s, step)) && Apply(s, step).fifo == s.fifo && Apply(s, step).delivered == s.delivered
  {
    BacklogFits(s);
    if step.Submit? {
      OutsideMeansFewer(s, step.d);
    }
  }

  lemma {:induction false} OutsideMeansFewer<D>(s: State<D>, d: D)
    requires Conserved(s) && d in s.all && d !in s.fifo
    ensures |s.fifo| < |s.all|
  {
    assert multiset(s.fifo) + multiset{d} <= multiset(s.all);
    var rest := multiset(s.all) - (multiset(s.fifo) + multiset{d});
    assert multiset(s.all) == multiset(s.fifo) + multiset{d} + rest;
    assert |multiset(s.all)| == |multiset(s.fifo)| + 1 + |rest|;
  }

  /** Nothing left to pop, a backlog the mask reads as 0, and no transfer under way. */
  ghost predicate Dry<D>(s: State<D>) {
    && !(s.pc.Popping? && s.pc.n > 0)
    && Masked(|s.fifo|, s.modulus) == 0 && s.outstanding == {}
  }

  /** It takes a new transfer to end that. */
  lemma {:induction false} DryStep<D>(s: State<D>, step: Step<D>)
    requires Dry(s) && Enabled(s, step) && !step.Submit?
    ensures !step.Pop?
    ensures Dry(Apply(s, step)) && Apply(s, step).fifo == s.fifo && Apply(s, step).delivered == s.delivered
  {
  }

  /** From a stuck state no run delivers anything, ever. */
  lemma {:induction false} StuckForever<D>(s: State<D>, run: seq<Step<D>>)
    requires Conserved(s) && Backed(s) && Stuck(s) && Legal(s, run)
    ensures var t := Exec(s, run); Stuck(t) && t.fifo == s.fifo && t.delivered == s.delivered
  {
    if run != [] {
      var front := run[..|run| - 1];
      StuckForever(s, front);
      Invariant(s, front);
      StuckStep(Exec(s, front), run[|run| - 1]);
    }
  }

  ghost predicate Delivers<D>(s: State<D>, run: seq<Step<D>>) {
    Legal(s, run) && |Exec(s, run).delivered| > |s.delivered|
  }

  /** From the start of a pass whose masked count is not 0, one more delivery is possible. */
  lemma {:induction false} CountAndPop<D>(s: State<D>) returns (run: seq<Step<D>>)
    requires s.pc.AtWait? && Masked(|s.fifo|, s.modulus) > 0
    ensures Delivers(s, run)
  {
    MaskedBelow(|s.fifo|, s.modulus);
    TimeoutEndsWait(s);
    run := [Timeout, Clear];
    RunSnoc(s, run, ReadCount);
    RunSnoc(s, run + [ReadCount], Pop);
    run := run + [ReadCount] + [Pop];
  }

  /** Brings do_cb to its wait without changing FIFO or descriptors. */
  lemma {:induction false} ToWait<D>(s: State<D>) returns (run: seq<Step<D>>)
    requires Backed(s) && !(s.pc.Popping? && s.pc.n > 0)
    requires s.pc.AtClear? || s.pc.AtCount? ==> Masked(|s.fifo|, s.modulus) == 0
    ensures Legal(s, run) && Exec(s, run).pc.AtWait?
    ensures var t := Exec(s, run);
            && t.fifo == s.fifo && t.delivered == s.delivered && t.outstanding == s.outstanding
            && t.all == s.all && t.modulus == s.modulus
  {
    run := [];
    if s.pc.AtClear? {
      RunSnoc(s, run, Clear);
      run := run + [Clear];
    }
    if Exec(s, run).pc.AtCount? {
      RunSnoc(s, run, ReadCount);
      run := run + [ReadCount];
    }
    if Exec(s, run).pc.Popping? {
      RunSnoc(s, run, PassEnd);
      run := run + [PassEnd];
    }
  }

  /** A descriptor outside the FIFO can always be completed, which makes the masked count non-zero. */
  lemma {:induction false} BringIn<D>(s: State<D>, d: D) returns (run: seq<Step<D>>)
    requires d in s.all && d !in s.fifo
    ensures Legal(s, run)
    ensures var t := Exec(s, run);
            && t.fifo == s.fifo + [d] && t.delivered == s.delivered && t.outstanding == s.outstanding - {d}
            && t.pc == s.pc && t.all == s.all && t.modulus == s.modulus
  {
    run := [];
    if d !in s.outstanding {
      RunSnoc(s, run, Submit(d));
      run := run + [Submit(d)];
    }
    RunSnoc(s, run, Complete(d));
    run := run + [Complete(d)];
  }

  lemma {:induction false} SomeoneOutside<D>(s: State<D>) returns (d: D)
    requires |s.fifo| < |s.all|
    ensures d in s.all && d !in s.fifo
  {
    if forall x :: x in s.all ==> x in s.fifo {
      CoverCard(s.all, s.fifo);
      assert false;
    }
    d :| d in s.all && d !in s.fifo;
  }

  lemma {:induction false} OneMore(count: nat, modulus: nat)
    requires modulus > 1 && Masked(count, modulus) == 0
    ensures Masked(count + 1, modulus) > 0
  {
    NotMultiples(count / modulus, (count + 1) / modulus, modulus);
  }

  lemma {:induction false} NotMultiples(a: int, b: int, modulus: nat)
    requires modulus > 1
    ensures modulus * b != modulus * a + 1
  {
    assert modulus * b - modulus * a == modulus * (b - a);
  }

  lemma {:induction false} CoverCard<D>(all: set<D>, s: seq<D>)
    requires forall x :: x in all ==> x in s
    ensures |all| <= |s|
  {
    assert multiset(all) <= multiset(s);
    var rest := multiset(s) - multiset(all);
    assert multiset(s) == multiset(all) + rest;
    assert |multiset(s)| == |multiset(all)| + |rest|;
  }

  /** A sequence no longer than a set it covers holds nothing else. */
  lemma {:induction false} CoverAll<D>(all: set<D>, s: seq<D>)
    requires |s| <= |all| && forall x :: x in all ==> x in s
    ensures forall x :: x in s <==> x in all
  {
    assert multiset(all) <= multiset(s);
    var rest := multiset(s) - multiset(all);
    assert multiset(s) == multiset(all) + rest;
    assert |multiset(s)| == |multiset(all)| + |rest|;
    forall x | x in s ensures x in all {
      assert x in multiset(s);
    }
  }

  /** A finished count read (or the steps up to it) followed by one pop. */
  lemma {:induction false} CountNow<D>(s: State<D>) returns (run: seq<Step<D>>)
    requires s.pc.AtClear? || s.pc.AtCount?
    requires Masked(|s.fifo|, s.modulus) > 0
    ensures Delivers(s, run)
  {
    MaskedBelow(|s.fifo|, s.modulus);
    run := [];
    if s.pc.AtClear? {
      RunSnoc(s, run, Clear);
      run := run + [Clear];
    }
    RunSnoc(s, run, ReadCount);
    RunSnoc(s, run + [ReadCount], Pop);
    run := run + [ReadCount] + [Pop];
  }

  lemma {:induction false} NotStuckDelivers<D>(s: State<D>) returns (run: seq<Step<D>>)
    requires Conserved(s) && Backed(s) && !Stuck(s) && s.modulus > 1
    ensures Delivers(s, run)
  {
    if s.pc.Popping? && s.pc.n > 0 {
      run := [];
      RunSnoc(s, run, Pop);
      run := run + [Pop];
    } else if (s.pc.AtClear? || s.pc.AtCount?) && Masked(|s.fifo|, s.modulus) > 0 {
      run := CountNow(s);
    } else {
      BacklogFits(s);
      run := ToWait(s);
      var last := DeliverFromWait(Exec(s, run));
      RunConcat(s, run, last);
      run := run + last;
    }
  }

  /** If the masked count is 0, one more completion makes it 1. */
  lemma {:induction false} DeliverFromWait<D>(s: State<D>) returns (run: seq<Step<D>>)
    requires s.pc.AtWait? && s.modulus > 1 && (Masked(|s.fifo|, s.modulus) == 0 ==> |s.fifo| < |s.all|)
    ensures Delivers(s, run)
  {
    run := [];
    if Masked(|s.fifo|, s.modulus) == 0 {
      var d := SomeoneOutside(s);
      run := BringIn(s, d);
      OneMore(|s.fifo|, s.modulus);
    }
    var last := CountAndPop(Exec(s, run));
    RunConcat(s, run, last);
    run := run + last;
  }

  /** Brings a pass to its pops, if the masked count is not 0, without submitting or popping on the way. */
  lemma {:induction false} CountUp<D>(s: State<D>) returns (run: seq<Step<D>>)
    requires Masked(|s.fifo|, s.modulus) > 0 && !(s.pc.Popping? && s.pc.n > 0)
    ensures Legal(s, run) && forall k :: 0 <= k < |run| ==> !run[k].Submit? && !run[k].Pop?
    ensures var t := Exec(s, run);
            t.pc.Popping? && t.pc.n > 0 && t.fifo == s.fifo && t.delivered == s.delivered
  {
    run := [];
    if s.pc.Popping? {
      RunSnoc(s, run, PassEnd);
      run := run + [PassEnd];
    }
    if Exec(s, run).pc.AtWait? {
      RunSnoc(s, run, Timeout);
      run := run + [Timeout];
    }
    if Exec(s, run).pc.AtClear? {
      RunSnoc(s, run, Clear);
      run := run + [Clear];
    }
    RunSnoc(s, run, ReadCount);
    run := run + [ReadCount];
  }

  /** Completes some of the transfers under way. */
  lemma {:induction false} CompleteSet<D>(s: State<D>, part: set<D>) returns (run: seq<Step<D>>)
    requires part <= s.outstanding
    ensures Legal(s, run) && forall k :: 0 <= k < |run| ==> !run[k].Submit? && !run[k].Pop?
    ensures var t := Exec(s, run);
            && t.outstanding == s.outstanding - part && |t.fifo| == |s.fifo| + |part|
            && (forall d :: d in t.fifo <==> d in s.fifo || d in part)
            && t.all == s.all && t.modulus == s.modulus && t.pc == s.pc && t.delivered == s.delivered
    decreases part
  {
    if part == {} {
      run := [];
    } else {
      var d :| d in part;
      run := CompleteSet(s, part - {d});
      var m := Exec(s, run);
      assert m.outstanding - {d} == s.outstanding - part;
      RunSnoc(s, run, Complete(d));
      run := run + [Complete(d)];
    }
  }

  ghost predicate CanDeliver<D(!new)>(s: State<D>) {
    exists run :: Delivers(s, run)
  }

  /** The deadlock is exactly this: do_cb can be brought to deliver again if and only if it is not stuck. */
  lemma {:induction false} DeadlockExactly<D(!new)>(all: set<D>, modulus: nat, run: seq<Step<D>>)
    requires modulus > 1 && Legal(Start(all, modulus), run)
    ensures var s := Exec(Start(all, modulus), run);
            CanDeliver(s) <==> !Stuck(s)
  {
    var s := Exec(Start(all, modulus), run);
    StartOk(all, modulus);
    Invariant(Start(all, modulus), run);
    if Stuck(s) {
      forall more | Legal(s, more) ensures !Delivers(s, more) {
        StuckForever(s, more);
      }
    } else {
      var more := NotStuckDelivers(s);
      assert Delivers(s, more);
    }
  }

  // ---------------------------------------------------------------- which masks can deadlock

  /** Fills the FIFO with every descriptor while do_cb has not run. */
  lemma {:induction false} FillUp<D>(all: set<D>, modulus: nat, part: set<D>) returns (run: seq<Step<D>>)
    requires part <= all
    ensures Legal(Start(all, modulus), run)
    ensures var s := Exec(Start(all, modulus), run);
            && s.pc.AtWait? && s.outstanding == {} && s.delivered == []
            && |s.fifo| == |part| && Elems(s.fifo) == part && s.all == all && s.modulus == modulus
    decreases part
  {
    if part == {} {
      run := [];
    } else {
      var d :| d in part;
      var front := FillUp(all, modulus, part - {d});
      var s := Exec(Start(all, modulus), front);
      assert d !in Elems(s.fifo);
      var more := BringIn(s, d);
      RunConcat(Start(all, modulus), front, more);
      run := front + more;
      ElemsSnoc(s.fifo, d);
    }
  }

  lemma {:induction false} ElemsSnoc<D>(s: seq<D>, d: D)
    ensures Elems(s + [d]) == Elems(s) + {d}
  {
    assert forall x :: x in s + [d] <==> x in s || x == d;
  }

  ghost predicate ReachesDeadlock<D(!new)>(all: set<D>, modulus: nat) {
    exists run :: Legal(Start(all, modulus), run) && Stuck(Exec(Start(all, modulus), run))
  }

  /** A deadlock can be reached if and only if the mask reads the full set of descriptors as 0. */
  lemma {:induction false} DeadlockReachable<D(!new)>(all: set<D>, modulus: nat)
    ensures ReachesDeadlock(all, modulus) <==> Masked(|all|, modulus) == 0
  {
    if ReachesDeadlock(all, modulus) {
      var run :| Legal(Start(all, modulus), run) && Stuck(Exec(Start(all, modulus), run));
      StartOk(all, modulus);
      Invariant(Start(all, modulus), run);
    }
    if Masked(|all|, modulus) == 0 {
      var run := FillUp(all, modulus, all);
      assert Stuck(Exec(Start(all, modulus), run));
    }
  }

  /** The two masks as machine arithmetic on the 32-bit register value. */
  lemma {:induction false} MasksAreRemainders(count: bv32)
    ensures count & 0x3f == count % 64
    ensures count & 0x1ff == count % 512
  {
  }
}

/**
 The zero-copy buffer ring as a state machine over its smallest visible steps.

 Three kinds of thread act on it: callers that release buffers, the one caller inside get_buff
 (serialised by _get_buff_mutex), and the library thread that runs completion callbacks. A step is
 labelled, and a run is a sequence of labels, so a statement about all runs is one about every
 interleaving.
 */
module ZeroCopyRing {
  import opened Sequences

  /** A managed buffer: the name stands for a pointer into _mb_pool. */
  type Buf = int

  datatype Status = Running | Error

  datatype Who = Releaser | Getter

  /** What the holder of _queue_mutex does next; Free when nobody holds it. */
  datatype Section =
    | Free
    | Entry(who: Who)     // about to test _status in submit_what_we_can
    | LoopHead(who: Who)  // about to test the loop condition
    | Accepted(who: Who)  // submit() returned, buffer not yet in _enqueued
    | Pushed(who: Who)    // in _enqueued, not yet removed from _released

  /** Where the thread inside get_buff stands. */
  datatype GetPc =
    | Idle
    | Started          // past the unlocked _status test
    | Asleep           // in _buff_ready_cond.timed_wait, mutex dropped
    | Front(b: Buf)    // front read, mutex dropped, waiting for its completion
    | Consumed(b: Buf) // wait_for_completion returned true
    | Made(b: Buf)     // result.completed cleared, buffer made, mutex not yet retaken
    | TimedOut         // wait_for_completion returned false
    | Returning        // inside the final submit_what_we_can

  datatype State = State(
    pool: set<Buf>,      // the buffers of _mb_pool
    n: nat,              // capacity of both circular buffers
    enqueued: seq<Buf>,
    released: seq<Buf>,
    status: Status,
    completed: set<Buf>, // buffers whose result.completed is 1
    inFlight: set<Buf>,  // accepted by the library, callback still to come
    held: set<Buf>,      // with a caller
    section: Section,
    get: GetPc,
    handed: seq<Buf>     // every buffer get_buff has handed out, in order
  )

  datatype Step =
    | ReleaseBegin(b: Buf) // take _queue_mutex, _released.push_back
    | StatusTest
    | Accept               // submit() succeeds
    | Reject               // submit() throws
    | PushEnqueued
    | PopReleased
    | LoopExit
    | Callback(b: Buf)
    | GetStart             // its _status test may have been long ago, while it waited for _get_buff_mutex
    | GetRefused
    | GetLock
    | GetWake
    | WaitDone
    | WaitTimeout
    | ClearCompleted
    | PopFront
    | GiveUp

  /** push_back of a circular buffer of the given capacity: a full one drops its oldest element. */
  function PushBack<T>(q: seq<T>, capacity: nat, x: T): seq<T> {
    if |q| < capacity then q + [x]
    else if capacity == 0 || q == [] then q
    else q[1..] + [x]
  }

  /** Leaving the critical section; the getter's call is over once it leaves its last one. */
  function Leave(s: State): State
    requires !s.section.Free?
  {
    s.(section := Free, get := if s.section.who.Getter? then Idle else s.get)
  }

  predicate LoopCondition(s: State) {
    s.released != [] && |s.enqueued| != s.n
  }

  predicate Enabled(s: State, step: Step) {
    match step
    case ReleaseBegin(b) => s.section.Free? && b in s.held
    case StatusTest => s.section.Entry?
    case Accept => s.section.LoopHead? && LoopCondition(s)
    case Reject => s.section.LoopHead? && LoopCondition(s)
    case PushEnqueued => s.section.Accepted? && s.released != []
    case PopReleased => s.section.Pushed? && s.released != []
    case LoopExit => s.section.LoopHead? && !LoopCondition(s)
    case Callback(b) => b in s.inFlight
    case GetStart => s.get.Idle?
    case GetRefused => s.get.Idle? && s.status.Error?
    case GetLock => s.get.Started? && s.section.Free?
    case GetWake => s.get.Asleep? && s.section.Free?
    case WaitDone => s.get.Front? && s.get.b in s.completed
    case WaitTimeout => s.get.Front? && s.get.b !in s.completed
    case ClearCompleted => s.get.Consumed?
    case PopFront => s.get.Made? && s.section.Free? && s.enqueued != []
    case GiveUp => s.get.TimedOut? && s.section.Free?
  }

  function Apply(s: State, step: Step): State
    requires Enabled(s, step)
  {
    match step
    case ReleaseBegin(b) =>
      s.(held := s.held - {b}, released := PushBack(s.released, s.n, b), section := Entry(Releaser))
    case StatusTest =>
      if s.status.Error? then Leave(s) else s.(section := LoopHead(s.section.who))
    case Accept =>
      s.(inFlight := s.inFlight + {s.released[0]}, section := Accepted(s.section.who))
    case Reject =>
      Leave(s).(status := Error)
    case PushEnqueued =>
      s.(enqueued := PushBack(s.enqueued, s.n, s.released[0]), section := Pushed(s.section.who))
    case PopReleased =>
      s.(released := s.released[1..], section := LoopHead(s.section.who))
    case LoopExit => Leave(s)
    case Callback(b) =>
      s.(inFlight := s.inFlight - {b}, completed := s.completed + {b})
    case GetStart => s.(get := Started)
    case GetRefused => s
    case GetLock =>
      s.(get := if s.enqueued == [] then Asleep else Front(s.enqueued[0]))
    case GetWake =>
      s.(get := if s.enqueued == [] then Idle else Front(s.enqueued[0]))
    case WaitDone => s.(get := Consumed(s.get.b))
    case WaitTimeout => s.(get := TimedOut)
    case ClearCompleted =>
      s.(completed := s.completed - {s.get.b}, get := Made(s.get.b))
    case PopFront =>
      s.(enqueued := s.enqueued[1..], held := s.held + {s.get.b}, handed := s.handed + [s.get.b],
         section := Entry(Getter), get := Returning)
    case GiveUp => s.(section := Entry(Getter), get := Returning)
  }

  /** A receive ring before its construction loop releases the pool: every buffer is still held. */
  function RecvStart(order: seq<Buf>): State {
    State(Elems(order), |order|, [], [], Running, {}, {}, Elems(order), Free, Idle, [])
  }

  /** A transmit ring after construction: all queued and pre-completed, none ever submitted. */
  function SendStart(order: seq<Buf>): State {
    State(Elems(order), |order|, order, [], Running, Elems(order), {}, {}, Free, Idle, [])
  }

  function Start(isRecv: bool, order: seq<Buf>): State {
    if isRecv then RecvStart(order) else SendStart(order)
  }

  /** The buffers queued before the first release: the pool for a transmit ring, none for a receive ring. */
  function StartOrder(isRecv: bool, order: seq<Buf>): seq<Buf> {
    if isRecv then [] else order
  }

  // ---------------------------------------------------------------- runs

  ghost predicate Legal(s: State, run: seq<Step>)
    decreases |run|, 0
  {
    run == [] || (Legal(s, run[..|run| - 1]) && Enabled(Exec(s, run[..|run| - 1]), run[|run| - 1]))
  }

  ghost function Exec(s: State, run: seq<Step>): State
    requires Legal(s, run)
    decreases |run|, 1
  {
    if run == [] then s else Apply(Exec(s, run[..|run| - 1]), run[|run| - 1])
  }

  lemma {:induction false} RunSnoc(s: State, run: seq<Step>, step: Step)
    requires Legal(s, run) && Enabled(Exec(s, run), step)
    ensures Legal(s, run + [step])
    ensures Exec(s, run + [step]) == Apply(Exec(s, run), step)
  {
    assert (run + [step])[..|run|] == run;
  }

  /** Takes the completed front buffer of a running ring at rest: one get_buff call, undisturbed. */
  lemma {:induction false} UndisturbedGet(s: State, b: Buf) returns (run: seq<Step>)
    requires s.section.Free? && s.get.Idle? && s.status.Running? && s.released == []
    requires s.enqueued != [] && s.enqueued[0] == b && b in s.completed
    ensures Legal(s, run) && forall k :: 0 <= k < |run| ==> !run[k].Accept? && !run[k].Callback?
    ensures Exec(s, run) == s.(enqueued := s.enqueued[1..], completed := s.completed - {b}, held := s.held + {b},
                               handed := s.handed + [b])
  {
    run := [];
    for k := 0 to 7
      invariant |run| == k && Legal(s, run) && forall i :: 0 <= i < k ==> run[i] == GET_STEPS[i]
      invariant Exec(s, run) == DuringGet(s, b, k)
    {
      NextInGet(s, b, k);
      hide Apply;
      hide Enabled;
      RunSnoc(s, run, GET_STEPS[k]);
      run := run + [GET_STEPS[k]];
    }
    assert forall k :: 0 <= k < 7 ==> !GET_STEPS[k].Accept? && !GET_STEPS[k].Callback?;
  }

  const GET_STEPS := [GetStart, GetLock, WaitDone, ClearCompleted, PopFront, StatusTest, LoopExit]

  lemma {:induction false} NextInGet(s: State, b: Buf, k: nat)
    requires s.section.Free? && s.get.Idle? && s.status.Running? && s.released == [] && k < 7
    requires s.enqueued != [] && s.enqueued[0] == b && b in s.completed
    ensures Enabled(DuringGet(s, b, k), GET_STEPS[k])
    ensures Apply(DuringGet(s, b, k), GET_STEPS[k]) == DuringGet(s, b, k + 1)
  {
  }

  /** The state after the first k steps of that call. */
  function DuringGet(s: State, b: Buf, k: nat): State
    requires s.enqueued != []
  {
    if k == 0 then s
    else if k == 1 then s.(get := Started)
    else if k == 2 then s.(get := Front(b))
    else if k == 3 then s.(get := Consumed(b))
    else if k == 4 then s.(get := Made(b), completed := s.completed - {b})
    else
      s.(enqueued := s.enqueued[1..], completed := s.completed - {b}, held := s.held + {b}, handed := s.handed + [b],
         section := if k == 5 then Entry(Getter) else if k == 6 then LoopHead(Getter) else Free,
         get := if k < 7 then Returning else Idle)
  }

  /** A release up to its submit, with nothing else to submit. */
  lemma {:induction false} BeginRelease(s: State, b: Buf) returns (run: seq<Step>)
    requires s.section.Free? && s.status.Running? && s.released == [] && b in s.held && s.n > 0
    ensures Legal(s, run) && forall k :: 0 <= k < |run| ==> !run[k].Accept? && !run[k].Callback?
    ensures Exec(s, run) == s.(held := s.held - {b}, released := [b], section := LoopHead(Releaser))
  {
    run := [];
    RunSnoc(s, run, ReleaseBegin(b));
    run := run + [ReleaseBegin(b)];
    RunSnoc(s, run, StatusTest);
    run := run + [StatusTest];
  }

  /** And from there on. */
  lemma {:induction false} EndRelease(s: State, b: Buf) returns (run: seq<Step>)
    requires s.section == Accepted(Releaser) && s.released == [b] && |s.enqueued| < s.n
    ensures Legal(s, run) && forall k :: 0 <= k < |run| ==> !run[k].Accept? && !run[k].Callback?
    ensures Exec(s, run) == s.(enqueued := s.enqueued + [b], released := [], section := Free)
  {
    run := [];
    RunSnoc(s, run, PushEnqueued);
    run := run + [PushEnqueued];
    RunSnoc(s, run, PopReleased);
    run := run + [PopReleased];
    RunSnoc(s, run, LoopExit);
    run := run + [LoopExit];
  }

  /** The buffers a run releases, in order. */
  function Releases(run: seq<Step>): seq<Buf> {
    if run == [] then []
    else
      var rest := Releases(run[..|run| - 1]);
      if run[|run| - 1].ReleaseBegin? then rest + [run[|run| - 1].b] else rest
  }

  // ---------------------------------------------------------------- the invariant

  /** The waiting buffers in hand-out order, across both circular buffers. */
  function Queue(s: State): seq<Buf> {
    s.enqueued + (if s.section.Pushed? && s.released != [] then s.released[1..] else s.released)
  }

  /** The buffer get_buff has taken the completion of but not yet removed from _enqueued. */
  function Claimed(s: State): set<Buf> {
    if s.get.Made? then {s.get.b} else {}
  }

  /** The buffers the library has been given, or that count as such on a fresh transmit ring. */
  function Submitted(s: State): multiset<Buf> {
    multiset(s.enqueued)
    + (if s.section.Accepted? && s.released != [] then multiset{s.released[0]} else multiset{})
  }

  /** Every buffer is once in the queue or once with a caller, and nothing else is. */
  ghost predicate Partition(s: State) {
    && multiset(Queue(s)) + multiset(s.held) == multiset(s.pool)
    && |s.pool| == s.n
  }

  /** A submitted buffer is in flight, completed, or the one get_buff is taking out; no other buffer is any of these. */
  ghost predicate Completion(s: State) {
    multiset(s.inFlight) + multiset(s.completed) + multiset(Claimed(s)) == Submitted(s)
  }

  ghost predicate Control(s: State) {
    && (s.get.Front? || s.get.Consumed? || s.get.Made? ==> s.enqueued != [] && s.enqueued[0] == s.get.b)
    && (s.get.Consumed? ==> s.get.b in s.completed)
    && (s.get.Returning? <==> !s.section.Free? && s.section.who.Getter?)
    && (s.section.LoopHead? || s.section.Accepted? || s.section.Pushed? ==> s.status.Running?)
    && (s.section.Accepted? ==> s.released != [] && |s.enqueued| < s.n)
    && (s.section.Pushed? ==>
          s.released != [] && s.enqueued != [] && s.enqueued[|s.enqueued| - 1] == s.released[0])
    && (s.status.Running? && (s.section.Free? || s.section.who.Getter?) ==> s.released == [])
  }

  ghost predicate Inv(s: State) {
    Partition(s) && Completion(s) && Control(s)
  }

  lemma {:induction false} StartInv(isRecv: bool, order: seq<Buf>)
    requires Distinct(order)
    ensures Inv(Start(isRecv, order))
    ensures Queue(Start(isRecv, order)) == StartOrder(isRecv, order)
  {
    DistinctCard(order);
  }

  // ---------------------------------------------------------------- what each step does to the queue

  lemma {:induction false} QueueFits(s: State)
    requires Partition(s)
    ensures |Queue(s)| + |s.held| == s.n
    ensures |s.enqueued| <= s.n
    ensures !s.section.Pushed? && |s.enqueued| == s.n ==> s.released == []
  {
    assert |multiset(Queue(s)) + multiset(s.held)| == |Queue(s)| + |s.held|;
    assert |multiset(s.pool)| == |s.pool|;
  }

  lemma {:induction false} ReleaseQueue(s: State, b: Buf)
    requires Partition(s) && Enabled(s, ReleaseBegin(b))
    ensures |s.released| < s.n
    ensures Queue(Apply(s, ReleaseBegin(b))) == Queue(s) + [b]
  {
    QueueFits(s);
    assert |s.held| > 0;
  }

  lemma {:induction false} PushQueue(s: State)
    requires Control(s) && Enabled(s, PushEnqueued)
    ensures |s.enqueued| < s.n
    ensures Queue(Apply(s, PushEnqueued)) == Queue(s)
  {
    assert s.released == [s.released[0]] + s.released[1..];
  }

  lemma {:induction false} PopQueue(s: State)
    requires Control(s) && Enabled(s, PopFront)
    ensures Queue(s) != [] && Queue(s)[0] == s.get.b
    ensures Queue(Apply(s, PopFront)) == Queue(s)[1..]
  {
  }

  lemma {:induction false} OtherQueue(s: State, step: Step)
    requires Enabled(s, step) && !step.ReleaseBegin? && !step.PushEnqueued? && !step.PopFront?
    ensures Queue(Apply(s, step)) == Queue(s) && Apply(s, step).held == s.held
  {
  }

  lemma {:induction false} PoolKept(s: State, step: Step)
    requires Enabled(s, step)
    ensures Apply(s, step).n == s.n && Apply(s, step).pool == s.pool
  {
  }

  lemma {:induction false} QueuedIsNotHeld(s: State, b: Buf)
    requires Partition(s)
    ensures b in Queue(s) ==> b !in s.held
    ensures b in Queue(s) || b in s.held <==> b in s.pool
    ensures multiset(Queue(s))[b] <= 1
  {
    assert multiset(Queue(s))[b] + multiset(s.held)[b] == multiset(s.pool)[b];
  }

  /** The last of the queue changes places with the caller, or the first. */
  lemma {:induction false} OneMoves(s: State, t: State, b: Buf)
    requires Partition(s) && t.n == s.n && t.pool == s.pool
    requires || (b in s.held && Queue(t) == Queue(s) + [b] && t.held == s.held - {b})
             || (b !in s.held && Queue(s) == [b] + Queue(t) && t.held == s.held + {b})
    ensures Partition(t)
  {
    if b in s.held {
      assert multiset(s.held) == multiset(t.held) + multiset{b};
    } else {
      assert multiset(t.held) == multiset(s.held) + multiset{b};
    }
  }

  lemma {:induction false} PartitionKept(s: State, step: Step)
    requires Partition(s) && Control(s) && Enabled(s, step)
    ensures Partition(Apply(s, step))
  {
    PoolKept(s, step);
    if step.ReleaseBegin? {
      ReleaseQueue(s, step.b);
      hide Partition;
      OneMoves(s, Apply(s, step), step.b);
    } else if step.PopFront? {
      PopQueue(s);
      QueuedIsNotHeld(s, s.get.b);
      hide Partition;
      OneMoves(s, Apply(s, step), s.get.b);
    } else if step.PushEnqueued? {
      PushQueue(s);
    } else {
      OtherQueue(s, step);
    }
  }

  // ---------------------------------------------------------------- control

  lemma {:induction false} ControlKeptBySection(s: State, step: Step)
    requires Partition(s) && Control(s) && Enabled(s, step)
    requires step.StatusTest? || step.Accept? || step.Reject? || step.PopReleased? || step.LoopExit?
    ensures Control(Apply(s, step))
  {
    QueueFits(s);
  }

  lemma {:induction false} ControlKeptByPush(s: State)
    requires Control(s) && Enabled(s, PushEnqueued)
    ensures Control(Apply(s, PushEnqueued))
  {
    PushQueue(s);
  }

  lemma {:induction false} ControlKeptByOthers(s: State, step: Step)
    requires Control(s) && Enabled(s, step)
    requires !step.StatusTest? && !step.Accept? && !step.Reject? && !step.PopReleased? && !step.LoopExit?
    requires !step.PushEnqueued?
    ensures Control(Apply(s, step))
  {
  }

  lemma {:induction false} ControlKept(s: State, step: Step)
    requires Partition(s) && Control(s) && Enabled(s, step)
    ensures Control(Apply(s, step))
  {
    if step.PushEnqueued? {
      ControlKeptByPush(s);
    } else if step.StatusTest? || step.Accept? || step.Reject? || step.PopReleased? || step.LoopExit? {
      ControlKeptBySection(s, step);
    } else {
      ControlKeptByOthers(s, step);
    }
  }

  // ---------------------------------------------------------------- completion

  /** The head of _released is a new buffer for the library: it is nowhere in _enqueued. */
  lemma {:induction false} HeadIsFresh(s: State)
    requires Partition(s) && s.released != [] && !s.section.Pushed?
    ensures s.released[0] !in s.enqueued
  {
    QueuedIsNotHeld(s, s.released[0]);
    assert multiset(Queue(s)) == multiset(s.enqueued) + multiset(s.released);
    assert s.released[0] in multiset(s.released);
  }

  lemma {:induction false} CompletionKeptByAccept(s: State)
    requires Completion(s) && Enabled(s, Accept) && s.released[0] !in s.enqueued
    ensures Completion(Apply(s, Accept))
  {
    var b, t := s.released[0], Apply(s, Accept);
    assert Submitted(s)[b] == 0;
    assert multiset(s.inFlight)[b] == 0;
    assert multiset(t.inFlight) == multiset(s.inFlight) + multiset{b};
    assert Claimed(t) == Claimed(s) && Submitted(t) == Submitted(s) + multiset{b};
  }

  lemma {:induction false} CompletionKeptByPush(s: State)
    requires Completion(s) && Control(s) && Enabled(s, PushEnqueued)
    ensures Completion(Apply(s, PushEnqueued))
  {
    PushQueue(s);
    var t := Apply(s, PushEnqueued);
    assert t.enqueued == s.enqueued + [s.released[0]];
    assert Submitted(t) == Submitted(s) && Claimed(t) == Claimed(s);
  }

  lemma {:induction false} CompletionKeptByPop(s: State)
    requires Completion(s) && Control(s) && Enabled(s, PopFront)
    ensures Completion(Apply(s, PopFront))
  {
    var b, t := s.get.b, Apply(s, PopFront);
    assert s.enqueued == [b] + t.enqueued;
    assert Submitted(s) == multiset{b} + Submitted(t);
    assert multiset(Claimed(s)) == multiset{b} && Claimed(t) == {};
    Cancel(multiset(s.inFlight) + multiset(s.completed), b, Submitted(t));
  }

  lemma {:induction false} CompletionKeptByCallback(s: State, b: Buf)
    requires Partition(s) && Completion(s) && Control(s) && Enabled(s, Callback(b))
    ensures Completion(Apply(s, Callback(b)))
  {
    SubmittedOnce(s, b);
    assert multiset(s.inFlight) == multiset(s.inFlight - {b}) + multiset{b};
    assert multiset(s.completed + {b}) == multiset(s.completed) + multiset{b};
  }

  lemma {:induction false} CompletionKeptByClear(s: State)
    requires Completion(s) && Control(s) && Enabled(s, ClearCompleted)
    ensures Completion(Apply(s, ClearCompleted))
  {
    var b, t := s.get.b, Apply(s, ClearCompleted);
    assert multiset(s.completed) == multiset(s.completed - {b}) + multiset{b};
    assert Claimed(s) == {} && Claimed(t) == {b} && Submitted(t) == Submitted(s);
    assert multiset(Claimed(t)) == multiset{b};
  }

  lemma {:induction false} SameCompletion(s: State, t: State)
    requires Completion(s)
    requires t.inFlight == s.inFlight && t.completed == s.completed
    requires Claimed(t) == Claimed(s) && Submitted(t) == Submitted(s)
    ensures Completion(t)
  {
  }

  lemma {:induction false} CompletionKeptByRest(s: State, step: Step)
    requires Completion(s) && Control(s) && Enabled(s, step)
    requires !step.Accept? && !step.PushEnqueued? && !step.PopFront? && !step.Callback? && !step.ClearCompleted?
    ensures Completion(Apply(s, step))
  {
    hide Completion;
    RestOfStep(s, step);
    SameCompletion(s, Apply(s, step));
  }

  lemma {:induction false} RestOfStep(s: State, step: Step)
    requires Control(s) && Enabled(s, step)
    requires !step.Accept? && !step.PushEnqueued? && !step.PopFront? && !step.Callback? && !step.ClearCompleted?
    ensures var t := Apply(s, step);
            && t.inFlight == s.inFlight && t.completed == s.completed
            && Claimed(t) == Claimed(s) && Submitted(t) == Submitted(s)
  {
    if step.GetStart? || step.GetRefused? || step.GetLock? || step.GetWake? || step.WaitDone? || step.WaitTimeout? {
      hide Control;
    } else if step.PopReleased? || step.LoopExit? || step.Reject? {
      assert s.get.Made? <==> Apply(s, step).get.Made?;
    }
  }

  lemma {:induction false} SubmittedOnce(s: State, b: Buf)
    requires Partition(s) && Control(s)
    ensures Submitted(s)[b] <= 1
    ensures Submitted(s)[b] == 1 ==> b in Queue(s)
  {
    QueuedIsNotHeld(s, b);
    var rest := Queue(s)[|s.enqueued|..];
    assert Queue(s) == s.enqueued + rest;
    assert multiset(Queue(s)) == multiset(s.enqueued) + multiset(rest);
    if s.section.Accepted? {
      assert s.released == [s.released[0]] + s.released[1..];
    }
  }

  lemma {:induction false} InvKept(s: State, step: Step)
    requires Inv(s) && Enabled(s, step)
    ensures Inv(Apply(s, step))
  {
    PartitionKept(s, step);
    ControlKept(s, step);
    match step
    case Accept =>
      HeadIsFresh(s);
      CompletionKeptByAccept(s);
    case PushEnqueued => CompletionKeptByPush(s);
    case PopFront => CompletionKeptByPop(s);
    case Callback(b) => CompletionKeptByCallback(s, b);
    case ClearCompleted => CompletionKeptByClear(s);
    case _ => CompletionKeptByRest(s, step);
  }

  lemma {:induction false} Invariant(s: State, run: seq<Step>)
    requires Inv(s) && Legal(s, run)
    ensures Inv(Exec(s, run))
  {
    if run != [] {
      Invariant(s, run[..|run| - 1]);
      InvKept(Exec(s, run[..|run| - 1]), run[|run| - 1]);
    }
  }

  // ---------------------------------------------------------------- theorems over every run

  /** A buffer with a caller is in neither queue, not in flight, and carries no completion. */
  ghost predicate Exclusive(s: State) {
    forall b :: b in s.held ==> b !in s.inFlight && b !in s.completed && b !in s.enqueued && b !in s.released
  }

  /** In flight means queued (or about to be) with completed still 0. */
  ghost predicate InFlightIsQueued(s: State) {
    forall b :: b in s.inFlight ==> b !in s.completed && b in Submitted(s) && b in s.enqueued + s.released
  }

  lemma {:induction false} HeldIsExclusive(s: State)
    requires Inv(s)
    ensures Exclusive(s) && InFlightIsQueued(s) && s.inFlight <= s.pool
  {
    forall b: Buf
      ensures b in s.inFlight ==> b !in s.completed && b in Submitted(s) && b in s.enqueued + s.released
      ensures b in s.inFlight || b in s.completed || b in s.enqueued || b in s.released ==> b !in s.held && b in s.pool
    {
      WhereIs(s, b);
    }
  }

  lemma {:induction false} WhereIs(s: State, b: Buf)
    requires Inv(s)
    ensures b in s.inFlight ==> b !in s.completed && b in Submitted(s) && b in s.enqueued + s.released
    ensures b in s.inFlight || b in s.completed || b in s.enqueued || b in s.released ==> b !in s.held && b in s.pool
  {
    QueuedIsNotHeld(s, b);
    SubmittedOnce(s, b);
    assert multiset(s.inFlight)[b] + multiset(s.completed)[b] + multiset(Claimed(s))[b] == Submitted(s)[b];
    assert s.section.Pushed? ==> s.released == [s.released[0]] + s.released[1..];
  }

  lemma {:induction false} BufferOwnership(isRecv: bool, order: seq<Buf>, run: seq<Step>)
    requires Distinct(order) && Legal(Start(isRecv, order), run)
    ensures var s := Exec(Start(isRecv, order), run); Exclusive(s) && InFlightIsQueued(s) && Partition(s)
  {
    StartInv(isRecv, order);
    Invariant(Start(isRecv, order), run);
    HeldIsExclusive(Exec(Start(isRecv, order), run));
  }

  /** No push ever meets a full circular buffer, so none is silently dropped; this survives STATUS_ERROR too. */
  lemma {:induction false} NoPushWhenFull(isRecv: bool, order: seq<Buf>, run: seq<Step>, step: Step)
    requires Distinct(order) && Legal(Start(isRecv, order), run) && Enabled(Exec(Start(isRecv, order), run), step)
    ensures var s := Exec(Start(isRecv, order), run);
            && (step.ReleaseBegin? ==> |s.released| < s.n && Apply(s, step).released == s.released + [step.b])
            && (step.PushEnqueued? ==> |s.enqueued| < s.n && Apply(s, step).enqueued == s.enqueued + [s.released[0]])
  {
    StartInv(isRecv, order);
    Invariant(Start(isRecv, order), run);
    var s := Exec(Start(isRecv, order), run);
    if step.ReleaseBegin? {
      ReleaseQueue(s, step.b);
    } else if step.PushEnqueued? {
      PushQueue(s);
    }
  }

  /**
   While running, _released is empty whenever the mutex is free; the loop stops only because _released ran
   out, never on the _enqueued.full() guard; and the loop of a get_buff call has nothing to submit.
   */
  lemma {:induction false} NothingWaitsToBeSubmitted(isRecv: bool, order: seq<Buf>, run: seq<Step>)
    requires Distinct(order) && Legal(Start(isRecv, order), run) && Exec(Start(isRecv, order), run).status.Running?
    ensures var s := Exec(Start(isRecv, order), run);
            && (s.section.Free? ==> s.released == [])
            && (Enabled(s, LoopExit) ==> s.released == [])
            && (!s.section.Free? && s.section.who.Getter? ==> !Enabled(s, Accept) && !Enabled(s, Reject))
  {
    StartInv(isRecv, order);
    Invariant(Start(isRecv, order), run);
    var s := Exec(Start(isRecv, order), run);
    QueueFits(s);
    DrainedWhenIdle(s);
  }

  lemma {:induction false} DrainedWhenIdle(s: State)
    requires Control(s) && s.status.Running?
    requires !s.section.Pushed? && |s.enqueued| == s.n ==> s.released == []
    ensures s.section.Free? ==> s.released == []
    ensures Enabled(s, LoopExit) ==> s.released == []
    ensures !s.section.Free? && s.section.who.Getter? ==> !Enabled(s, Accept) && !Enabled(s, Reject)
  {
  }

  // ---------------------------------------------------------------- after a failed submit

  /** What can still change in a ring that has stopped: nothing enters _enqueued or the library again. */
  ghost predicate OnlyDrains(s: State, t: State) {
    && t.status.Error?
    && t.inFlight <= s.inFlight
    && s.released <= t.released
    && |t.enqueued| <= |s.enqueued| && t.enqueued == s.enqueued[|s.enqueued| - |t.enqueued|..]
  }

  lemma {:induction false} StoppedStep(s: State, step: Step)
    requires Inv(s) && s.status.Error? && Enabled(s, step)
    ensures OnlyDrains(s, Apply(s, step))
  {
    if step.ReleaseBegin? {
      ReleaseQueue(s, step.b);
    } else if step.PopFront? {
      PopQueue(s);
    } else {
      hide Partition;
      hide Completion;
    }
  }

  lemma {:induction false} DrainsOn(s: State, m: State, t: State)
    requires OnlyDrains(s, m) && OnlyDrains(m, t)
    ensures OnlyDrains(s, t)
  {
  }

  lemma {:induction false} StoppedForGood(s: State, run: seq<Step>)
    requires Inv(s) && s.status.Error? && Legal(s, run)
    ensures OnlyDrains(s, Exec(s, run))
  {
    if run != [] {
      var front := run[..|run| - 1];
      var m := Exec(s, front);
      StoppedForGood(s, front);
      Invariant(s, front);
      StoppedStep(m, run[|run| - 1]);
      assert m.status.Error?;
      hide OnlyDrains;
      DrainsOn(s, m, Exec(s, run));
    }
  }

  /** A rejected buffer stays first in _released for ever: neither lost, nor queued, nor submitted. */
  lemma {:induction false} RejectedBufferStays(isRecv: bool, order: seq<Buf>, before: seq<Step>, after: seq<Step>)
    requires Distinct(order) && Legal(Start(isRecv, order), before)
    requires Enabled(Exec(Start(isRecv, order), before), Reject)
    requires Legal(Apply(Exec(Start(isRecv, order), before), Reject), after)
    ensures var s := Exec(Start(isRecv, order), before);
            var t := Exec(Apply(s, Reject), after);
            && t.released != [] && t.released[0] == s.released[0]
            && s.released[0] !in t.enqueued && s.released[0] !in t.inFlight && s.released[0] !in t.held
            && OnlyDrains(Apply(s, Reject), t)
  {
    var s := Exec(Start(isRecv, order), before);
    StartInv(isRecv, order);
    Invariant(Start(isRecv, order), before);
    InvKept(s, Reject);
    var e := Apply(s, Reject);
    StoppedForGood(e, after);
    Invariant(e, after);
    var t := Exec(e, after);
    assert t.section.Free? || t.section.Entry?;
    HeadIsFresh(t);
    WhereIs(t, t.released[0]);
  }

  // ---------------------------------------------------------------- refinement

  /** The atomic queue the ring stands for, with the history of what was taken from it. */
  datatype Fifo = Fifo(queue: seq<Buf>, held: set<Buf>, taken: seq<Buf>)

  datatype Op = Put(b: Buf) | Take | Skip

  predicate FifoEnabled(f: Fifo, op: Op) {
    match op
    case Put(b) => b in f.held
    case Take => f.queue != []
    case Skip => true
  }

  function FifoApply(f: Fifo, op: Op): Fifo
    requires FifoEnabled(f, op)
  {
    match op
    case Put(b) => Fifo(f.queue + [b], f.held - {b}, f.taken)
    case Take => Fifo(f.queue[1..], f.held + {f.queue[0]}, f.taken + [f.queue[0]])
    case Skip => f
  }

  ghost predicate FifoLegal(f: Fifo, ops: seq<Op>)
    decreases |ops|, 0
  {
    ops == [] || (FifoLegal(f, ops[..|ops| - 1]) && FifoEnabled(FifoExec(f, ops[..|ops| - 1]), ops[|ops| - 1]))
  }

  ghost function FifoExec(f: Fifo, ops: seq<Op>): Fifo
    requires FifoLegal(f, ops)
    decreases |ops|, 1
  {
    if ops == [] then f else FifoApply(FifoExec(f, ops[..|ops| - 1]), ops[|ops| - 1])
  }

  /** A release takes effect when it enters _released, a get_buff when it pops; everything else is internal. */
  function Effect(step: Step): Op {
    match step
    case ReleaseBegin(b) => Put(b)
    case PopFront => Take
    case _ => Skip
  }

  function Effects(run: seq<Step>): (ops: seq<Op>)
    ensures |ops| == |run|
  {
    seq(|run|, i requires 0 <= i < |run| => Effect(run[i]))
  }

  function Abstract(s: State): Fifo {
    Fifo(Queue(s), s.held, s.handed)
  }

  lemma {:induction false} StepRefines(s: State, step: Step)
    requires Inv(s) && Enabled(s, step)
    ensures FifoEnabled(Abstract(s), Effect(step))
    ensures FifoApply(Abstract(s), Effect(step)) == Abstract(Apply(s, step))
  {
    match step
    case ReleaseBegin(b) => ReleaseQueue(s, b);
    case PushEnqueued => PushQueue(s);
    case PopFront => PopQueue(s);
    case _ => OtherQueue(s, step);
  }

  /** Every interleaving is a run of the atomic queue. */
  lemma {:induction false} RefinesFifo(s: State, run: seq<Step>)
    requires Inv(s) && Legal(s, run)
    ensures FifoLegal(Abstract(s), Effects(run))
    ensures FifoExec(Abstract(s), Effects(run)) == Abstract(Exec(s, run))
  {
    if run != [] {
      var front, last := run[..|run| - 1], run[|run| - 1];
      RefinesFifo(s, front);
      Invariant(s, front);
      StepRefines(Exec(s, front), last);
      hide Inv;
      hide Abstract;
      hide Apply;
      hide Enabled;
      assert Effects(run)[..|run| - 1] == Effects(front);
    }
  }

  /** What one step adds to the history: a release at the back, nothing else. */
  lemma {:induction false} HistoryStep(s: State, step: Step)
    requires Inv(s) && Enabled(s, step)
    ensures Apply(s, step).handed + Queue(Apply(s, step))
         == s.handed + Queue(s) + (if step.ReleaseBegin? then [step.b] else [])
  {
    StepRefines(s, step);
    FifoHistory(Abstract(s), Effect(step));
  }

  lemma {:induction false} FifoHistory(f: Fifo, op: Op)
    requires FifoEnabled(f, op)
    ensures FifoApply(f, op).taken + FifoApply(f, op).queue
         == f.taken + f.queue + (if op.Put? then [op.b] else [])
  {
    if op.Take? {
      assert f.queue == [f.queue[0]] + f.queue[1..];
    }
  }

  lemma {:induction false} History(s: State, run: seq<Step>)
    requires Inv(s) && Legal(s, run)
    ensures Exec(s, run).handed + Queue(Exec(s, run)) == s.handed + Queue(s) + Releases(run)
  {
    if run != [] {
      var front := run[..|run| - 1];
      History(s, front);
      Invariant(s, front);
      HistoryStep(Exec(s, front), run[|run| - 1]);
    }
  }

  /** Hand-outs so far, then _enqueued, then _released, are the pool order followed by all releases in order. */
  lemma {:induction false} HandOutOrder(isRecv: bool, order: seq<Buf>, run: seq<Step>)
    requires Distinct(order) && Legal(Start(isRecv, order), run)
    ensures var s := Exec(Start(isRecv, order), run);
            s.handed + Queue(s) == StartOrder(isRecv, order) + Releases(run)
  {
    StartInv(isRecv, order);
    History(Start(isRecv, order), run);
  }

  /** The buffer get_buff pops is the one whose completion it consumed, and nothing else is using it. */
  lemma {:induction false} PopsWhatItConsumed(isRecv: bool, order: seq<Buf>, run: seq<Step>)
    requires Distinct(order) && Legal(Start(isRecv, order), run) && Enabled(Exec(Start(isRecv, order), run), PopFront)
    ensures var s := Exec(Start(isRecv, order), run);
            var t := Apply(s, PopFront);
            && s.enqueued == [s.get.b] + t.enqueued
            && t.held == s.held + {s.get.b} && s.get.b !in s.held
            && s.get.b !in s.inFlight && s.get.b !in s.completed
  {
    StartInv(isRecv, order);
    Invariant(Start(isRecv, order), run);
    PopIsClean(Exec(Start(isRecv, order), run));
  }

  lemma {:induction false} PopIsClean(s: State)
    requires Inv(s) && Enabled(s, PopFront)
    ensures s.enqueued == [s.get.b] + s.enqueued[1..]
    ensures s.get.b !in s.held && s.get.b !in s.inFlight && s.get.b !in s.completed
  {
    WhereIs(s, s.get.b);
    SubmittedOnce(s, s.get.b);
    assert multiset(Claimed(s))[s.get.b] == 1;
    assert multiset(s.inFlight)[s.get.b] + multiset(s.completed)[s.get.b] + 1 == Submitted(s)[s.get.b];
  }

  // ---------------------------------------------------------------- when a ring can still submit

  /** The released buffers the library has not been given. */
  function Waiting(s: State): seq<Buf> {
    if (s.section.Accepted? || s.section.Pushed?) && s.released != [] then s.released[1..] else s.released
  }

  /** The submitted buffers in hand-out order. */
  function Line(s: State): seq<Buf> {
    if s.section.Accepted? && s.released != [] then s.enqueued + [s.released[0]] else s.enqueued
  }

  /**
   A ring that cannot submit again unless a callback comes first: it has stopped, or no caller holds a buffer, none
   waits for its submit, and the next one in line is still in flight.
   */
  ghost predicate Blocked(s: State) {
    s.status.Error? || (s.held == {} && Waiting(s) == [] && (Line(s) == [] || Line(s)[0] in s.inFlight))
  }

  /** A ring whose whole pool is in flight is blocked. */
  lemma {:induction false} AllInFlightIsBlocked(s: State)
    requires Inv(s) && s.pool <= s.inFlight
    ensures Blocked(s)
  {
    QueueFits(s);
    SplitQueue(s);
    assert |multiset(s.inFlight)| <= |Submitted(s)| by {
      var rest := multiset(s.completed) + multiset(Claimed(s));
      assert multiset(s.inFlight) + rest == Submitted(s);
      assert |multiset(s.inFlight) + rest| == |multiset(s.inFlight)| + |rest|;
    }
    FewerElements(s.pool, s.inFlight);
    assert |Queue(s)| == |Line(s)| + |Waiting(s)|;
    if Line(s) != [] {
      QueuedIsNotHeld(s, Line(s)[0]);
      assert Line(s)[0] in Queue(s);
    }
  }

  lemma {:induction false} FewerElements(a: set<Buf>, b: set<Buf>)
    requires a <= b
    ensures |a| <= |b|
  {
    assert b == a + (b - a);
  }

  lemma {:induction false} SplitQueue(s: State)
    requires Control(s)
    ensures Queue(s) == Line(s) + Waiting(s) && Submitted(s) == multiset(Line(s))
  {
    if s.section.Accepted? {
      assert s.released == [s.released[0]] + s.released[1..];
    }
  }

  /** A release whose submit is rejected. */
  lemma {:induction false} RejectedRelease(s: State, b: Buf) returns (run: seq<Step>)
    requires s.section.Free? && s.status.Running? && s.released == [] && b in s.held && |s.enqueued| < s.n
    ensures Legal(s, run) && Exec(s, run).status.Error?
    ensures forall k :: 0 <= k < |run| ==> !run[k].Accept? && !run[k].Callback?
  {
    run := BeginRelease(s, b);
    RunSnoc(s, run, Reject);
    run := run + [Reject];
  }

  lemma {:induction false} BlockedCannotSubmit(s: State)
    requires Control(s) && Blocked(s)
    ensures !Enabled(s, Accept)
  {
  }

  lemma {:induction false} BlockedKept(s: State, step: Step)
    requires Inv(s) && Blocked(s) && Enabled(s, step) && !step.Callback?
    ensures Blocked(Apply(s, step))
  {
    BlockedCannotSubmit(s);
    if step.PopFront? {
      PopIsClean(s);
    } else if step.PushEnqueued? {
      PushQueue(s);
    }
  }

  /** The step towards the next submit of a ring that is not blocked, unless a caller can release a buffer. */
  function Toward(s: State): Step
    requires !s.section.Free? || !s.get.Returning?
  {
    match s.section
    case Entry(_) => StatusTest
    case LoopHead(_) => LoopExit
    case Accepted(_) => PushEnqueued
    case Pushed(_) => PopReleased
    case Free =>
      match s.get
      case Idle => GetStart
      case Started => GetLock
      case Asleep => GetWake
      case Front(_) => WaitDone
      case Consumed(_) => ClearCompleted
      case Made(_) => PopFront
      case TimedOut => GiveUp
  }

  /** How far the ring is from having a buffer to submit. */
  function ToGo(s: State): nat {
    if Waiting(s) != [] then 0
    else if s.held != {} then 1
    else
      match s.get
      case Made(_) => 2
      case Consumed(_) => 3
      case Front(_) => 4
      case Started => 5
      case Asleep => 5
      case Idle => 6
      case Returning => 7
      case TimedOut => 8
  }

  /** How far the holder of the queue mutex is from letting it go. */
  function ToLeave(s: State): nat {
    match s.section
    case Free => 0
    case LoopHead(_) => 1
    case Entry(_) => 2
    case Pushed(_) => 2
    case Accepted(_) => 3
  }

  /** The step is possible, is no submit or callback, and brings the ring nearer without blocking it. */
  ghost predicate Nears(s: State, step: Step) {
    && Enabled(s, step) && !step.Accept? && !step.Callback? && !Blocked(Apply(s, step))
    && (ToGo(Apply(s, step)) < ToGo(s)
        || (ToGo(Apply(s, step)) == ToGo(s) && ToLeave(Apply(s, step)) < ToLeave(s)))
  }

  /** While the mutex is held, around a submit. */
  lemma {:induction false} TowardAfterSubmit(s: State)
    requires Control(s) && !Blocked(s) && (s.section.Accepted? || s.section.Pushed?)
    ensures Nears(s, Toward(s))
  {
    if s.section.Accepted? {
      PushQueue(s);
    }
  }

  /** While the mutex is held, before or after the loop. */
  lemma {:induction false} TowardAroundLoop(s: State)
    requires Inv(s) && !Blocked(s) && !Enabled(s, Accept) && (s.section.Entry? || s.section.LoopHead?)
    ensures Nears(s, Toward(s))
  {
    QueueFits(s);
  }

  /** While it is free and some caller holds a buffer. */
  lemma {:induction false} TowardByRelease(s: State, b: Buf)
    requires Inv(s) && s.status.Running? && s.section.Free? && b in s.held
    ensures Nears(s, ReleaseBegin(b))
  {
    ReleaseQueue(s, b);
  }

  /** While it is free and only get_buff can bring a buffer out. */
  lemma {:induction false} TowardByGet(s: State)
    requires Inv(s) && !Blocked(s) && s.section.Free? && s.held == {}
    ensures !s.get.Returning? && Nears(s, Toward(s))
  {
    FrontIsDone(s);
  }

  lemma {:induction false} Nearer(s: State) returns (step: Step)
    requires Inv(s) && !Blocked(s) && !Enabled(s, Accept)
    ensures Nears(s, step)
  {
    if s.section.Free? && s.held != {} {
      var b := SomeOf(s.held);
      TowardByRelease(s, b);
      return ReleaseBegin(b);
    }
    if s.section.Accepted? || s.section.Pushed? {
      TowardAfterSubmit(s);
    } else if !s.section.Free? {
      TowardAroundLoop(s);
    } else {
      TowardByGet(s);
    }
    return Toward(s);
  }

  lemma {:induction false} FrontIsDone(s: State)
    requires Inv(s) && s.section.Free? && s.enqueued != [] && s.enqueued[0] !in s.inFlight
    ensures s.get.Made? || s.enqueued[0] in s.completed
  {
    var b := s.enqueued[0];
    assert multiset(s.inFlight)[b] + multiset(s.completed)[b] + multiset(Claimed(s))[b] == Submitted(s)[b];
    assert b in multiset(s.enqueued);
  }

  /** A ring that is not blocked can bring itself to a submit, without any submit or callback on the way. */
  lemma {:induction false} CanSubmit(s: State) returns (run: seq<Step>)
    requires Inv(s) && !Blocked(s)
    ensures Legal(s, run) && Enabled(Exec(s, run), Accept)
    ensures forall k :: 0 <= k < |run| ==> !run[k].Accept? && !run[k].Callback?
    decreases ToGo(s), ToLeave(s)
  {
    hide Inv;
    hide Blocked;
    hide Apply;
    hide Enabled;
    hide ToGo;
    hide ToLeave;
    if Enabled(s, Accept) {
      run := [];
    } else {
      var step := Nearer(s);
      InvKept(s, step);
      var rest := CanSubmit(Apply(s, step));
      RunCons(s, step, rest);
      run := [step] + rest;
    }
  }

  lemma {:induction false} RunCons(s: State, step: Step, run: seq<Step>)
    requires Enabled(s, step) && Legal(Apply(s, step), run)
    ensures Legal(s, [step] + run) && Exec(s, [step] + run) == Exec(Apply(s, step), run)
  {
    if run == [] {
      RunSnoc(s, [], step);
      assert [] + [step] == [step] + run;
    } else {
      var front, last := run[..|run| - 1], run[|run| - 1];
      RunCons(s, step, front);
      RunSnoc(s, [step] + front, last);
      assert [step] + front + [last] == [step] + run;
    }
  }
}

/**
 The ring object itself, with the methods of libusb_zero_copy_single as they are written.

 Valid says that the object's fields are what the machine of ZeroCopyRing computes along the recorded log
 of steps, so every theorem about runs of that machine holds of the object. Wherever the source leaves room
 for another thread, the methods call Callbacks or Others, which let it take any number of steps.
 */
module ZeroCopySingle {
  import opened Sequences
  import opened ZeroCopyRing

  datatype Option<+T> = None | Some(value: T)

  lemma {:induction false} ReleasesPrefix(run: seq<Step>, longer: seq<Step>)
    requires run <= longer
    ensures Releases(run) <= Releases(longer)
  {
    if |run| < |longer| {
      ReleasesPrefix(run, longer[..|longer| - 1]);
    } else {
      assert run == longer;
    }
  }

  /** Between two points of one run the history only grows at its back. */
  lemma {:induction false} HistoryGrows(isRecv: bool, order: seq<Buf>, run: seq<Step>, longer: seq<Step>)
    requires Distinct(order) && run <= longer
    requires Legal(Start(isRecv, order), run) && Legal(Start(isRecv, order), longer)
    ensures var s, t := Exec(Start(isRecv, order), run), Exec(Start(isRecv, order), longer);
            s.handed + Queue(s) <= t.handed + Queue(t)
  {
    HandOutOrder(isRecv, order, run);
    HandOutOrder(isRecv, order, longer);
    ReleasesPrefix(run, longer);
  }

  lemma {:induction false} NextInLine(handed: seq<Buf>, queue: seq<Buf>, b: Buf, rest: seq<Buf>)
    requires handed + queue <= handed + [b] + rest && queue != []
    ensures b == queue[0]
  {
    assert (handed + queue)[|handed|] == queue[0];
    assert (handed + [b] + rest)[|handed|] == b;
  }

  /** Two ways to cut one sequence at the same place give the same pieces. */
  lemma {:induction false} SplitLast(old_: seq<Buf>, b: Buf, enqueued: seq<Buf>, released: seq<Buf>)
    ensures enqueued + released == old_ + [b] && released == [] ==> enqueued == old_ + [b]
    ensures enqueued + released == old_ + [b] && released != [] && |enqueued| >= |old_|
        ==> enqueued == old_ && released == [b]
  {
    if enqueued + released == old_ + [b] && released != [] && |enqueued| >= |old_| {
      assert |enqueued| + |released| == |old_| + 1;
      assert (enqueued + released)[..|old_|] == enqueued;
      assert (enqueued + released)[|old_|..] == released;
    }
  }

  /** n submits, all of them accepted. */
  function Trues(n: nat): seq<bool> {
    seq(n, _ => true)
  }

  lemma {:induction false} OneMoreTrue(n: nat)
    ensures Trues(n + 1) == Trues(n) + [true]
  {
  }

  /** A getter gives up only after a timed wait for the front buffer, or after having slept on an empty queue. */
  ghost predicate GaveUp(run: seq<Step>) {
    exists k :: 0 <= k < |run| && (run[k].WaitTimeout? || run[k].GetWake?)
  }

  lemma {:induction false} GivesUp(start: seq<Step>, before: seq<Step>, step: Step, after: seq<Step>)
    requires start <= before && before + [step] <= after && (step.WaitTimeout? || step.GetWake?)
    ensures GaveUp(after[|start|..])
  {
    assert after[|start|..][|before| - |start|] == step;
  }

  class Ring {
    const numFrames: nat
    const pool: set<Buf>

    // the two circular buffers and the status
    var enqueued: seq<Buf>
    var released: seq<Buf>
    var status: Status
    var completed: set<Buf> // the buffers whose result.completed is 1

    // where the remaining buffers are
    var inFlight: set<Buf>
    var held: set<Buf>

    var failed: bool // the constructor threw, so no object results

    ghost const isRecv: bool
    ghost const order: seq<Buf>
    ghost var section: Section
    ghost var get: GetPc
    ghost var handed: seq<Buf>
    ghost var log: seq<Step>
    ghost var answers: seq<bool> // what the library answered to each submit: true if it took the buffer

    ghost function View(): State
      reads this
    {
      State(pool, numFrames, enqueued, released, status, completed, inFlight, held, section, get, handed)
    }

    ghost predicate Valid()
      reads this
    {
      && Distinct(order)
      && Legal(Start(isRecv, order), log)
      && Exec(Start(isRecv, order), log) == View()
    }

    lemma {:induction false} ValidMeans()
      requires Valid()
      ensures Distinct(order) && Legal(Start(isRecv, order), log) && Exec(Start(isRecv, order), log) == View()
    {
    }

    lemma {:induction false} ValidImpliesInv()
      requires Valid()
      ensures Inv(View())
    {
      StartInv(isRecv, order);
      Invariant(Start(isRecv, order), log);
    }

    /** What the methods below need to know of their own control state. */
    lemma {:induction false} ControlFacts()
      requires Valid()
      ensures get.Front? || get.Made? ==> enqueued != [] && enqueued[0] == get.b
      ensures section.Accepted? ==> released != [] && |enqueued| < numFrames
      ensures section.Pushed? ==> released != []
      ensures section.LoopHead? && (released == [] || |enqueued| == numFrames) ==> released == []
      ensures section.Entry? && section.who.Getter? && status.Running? ==> released == []
    {
      ValidImpliesInv();
      QueueFits(View());
    }

    lemma {:induction false} RejectFacts()
      requires Valid() && section.LoopHead? && released != []
      ensures released[0] !in inFlight
    {
      ValidImpliesInv();
      HeadIsFresh(View());
      WhereIs(View(), released[0]);
    }

    lemma {:induction false} ReleaseFacts(b: Buf)
      requires Valid() && section.Free? && b in held
      ensures |released| < numFrames
      ensures status.Running? ==> released == []
    {
      ValidImpliesInv();
      ReleaseQueue(View(), b);
    }

    lemma {:induction false} HeldFacts(b: Buf)
      requires Valid() && b in held
      ensures b !in inFlight && b !in completed && b !in enqueued && b !in released
    {
      ValidImpliesInv();
      HeldIsExclusive(View());
    }

    /** Records a step after its effect on the fields has been written. */
    ghost method Record(step: Step, before: State)
      requires Distinct(order) && Legal(Start(isRecv, order), log) && Exec(Start(isRecv, order), log) == before
      requires Enabled(before, step) && View() == Apply(before, step)
      modifies this`log
      ensures Valid() && log == old(log) + [step]
    {
      RunSnoc(Start(isRecv, order), log, step);
      log := log + [step];
    }

    // ------------------------------------------------------------ the library thread

    /** libusb_async_cb for one accepted transfer. */
    method AsyncCallback(b: Buf)
      requires Valid() && b in inFlight
      modifies this`inFlight, this`completed, this`log
      ensures Valid() && log == old(log) + [Callback(b)]
      ensures inFlight == old(inFlight) - {b} && completed == old(completed) + {b}
    {
      ghost var before := View();
      inFlight, completed := inFlight - {b}, completed + {b};
      Record(Callback(b), before);
    }

    /** Any number of completions of accepted transfers. */
    method Callbacks()
      requires Valid()
      modifies this`inFlight, this`completed, this`log
      ensures Valid() && old(log) <= log
      ensures inFlight <= old(inFlight) && old(completed) <= completed
    {
      var budget: nat := *;
      while budget > 0
        invariant Valid() && old(log) <= log
        invariant inFlight <= old(inFlight) && old(completed) <= completed
      {
        var b: Buf := *;
        if b in inFlight {
          AsyncCallback(b);
        }
        budget := budget - 1;
      }
    }

    // ------------------------------------------------------------ submit_what_we_can

    /** func_xxxX: the library takes the transfer or answers with an error. */
    method Library() returns (accepted: bool)
      requires Valid()
      modifies this`answers
      ensures Valid() && answers == old(answers) + [accepted]
    {
      accepted := *;
      answers := answers + [accepted];
    }

    /** submit() on the head of _released; the library accepts it. */
    method SubmitAccepted(ghost who: Who)
      requires Valid() && section == LoopHead(who) && released != [] && |enqueued| != numFrames
      modifies this`inFlight, this`section, this`log
      ensures Valid() && old(log) <= log && section == Accepted(who)
      ensures inFlight == old(inFlight) + {released[0]}
    {
      ghost var before := View();
      inFlight, section := inFlight + {released[0]}, Accepted(who);
      Record(Accept, before);
    }

    /** submit() throws usb_error; the handler stores STATUS_ERROR and throws on. */
    method SubmitRejected(ghost who: Who)
      requires Valid() && section == LoopHead(who) && released != [] && |enqueued| != numFrames
      modifies this`status, this`section, this`get, this`log
      ensures Valid() && old(log) <= log && section.Free? && get == (if who.Getter? then Idle else old(get))
      ensures status.Error? && released[0] !in inFlight
    {
      RejectFacts();
      ghost var before := View();
      status, section, get := Error, Free, if who.Getter? then Idle else get;
      Record(Reject, before);
    }

    method PushHead(ghost who: Who)
      requires Valid() && section == Accepted(who)
      modifies this`enqueued, this`section, this`log
      ensures Valid() && old(log) <= log && section == Pushed(who)
      ensures released != [] && enqueued == old(enqueued) + [released[0]]
    {
      ControlFacts();
      ghost var before := View();
      enqueued, section := PushBack(enqueued, numFrames, released[0]), Pushed(who);
      Record(PushEnqueued, before);
    }

    method PopHead(ghost who: Who)
      requires Valid() && section == Pushed(who)
      modifies this`released, this`section, this`log
      ensures Valid() && old(log) <= log && section == LoopHead(who)
      ensures old(released) != [] && released == old(released)[1..]
    {
      ControlFacts();
      ghost var before := View();
      released, section := released[1..], LoopHead(who);
      Record(PopReleased, before);
    }

    /** The test of _status on entry; true when the loop is to run. */
    method TestStatus(ghost who: Who) returns (running: bool)
      requires Valid() && section == Entry(who)
      modifies this`section, this`get, this`log
      ensures Valid() && old(log) <= log && running == status.Running?
      ensures running ==> section == LoopHead(who) && get == old(get)
      ensures !running ==> section.Free? && get == (if who.Getter? then Idle else old(get))
    {
      ghost var before := View();
      running := status == Running;
      if running {
        section := LoopHead(who);
      } else {
        section, get := Free, if who.Getter? then Idle else get;
      }
      Record(StatusTest, before);
    }

    method LeaveLoop(ghost who: Who)
      requires Valid() && section == LoopHead(who) && (released == [] || |enqueued| == numFrames)
      modifies this`section, this`get, this`log
      ensures Valid() && old(log) <= log && section.Free? && get == (if who.Getter? then Idle else old(get))
      ensures released == []
    {
      ControlFacts();
      ghost var before := View();
      section, get := Free, if who.Getter? then Idle else get;
      Record(LoopExit, before);
    }

    /** submit_what_we_can, called with the queue mutex held. */
    method SubmitWhatWeCan(ghost who: Who) returns (threw: bool)
      requires Valid() && section == Entry(who)
      modifies this`enqueued, this`released, this`status, this`completed, this`inFlight
      modifies this`section, this`get, this`log, this`answers
      ensures Valid() && old(log) <= log
      ensures section.Free? && get == (if who.Getter? then Idle else old(get))
      ensures enqueued + released == old(enqueued + released) && |old(enqueued)| <= |enqueued|
      ensures old(status).Error? ==> !threw && status.Error? && enqueued == old(enqueued)
      ensures old(status).Running? ==> (threw <==> status.Error?)
      ensures status.Running? ==> released == []
      ensures threw ==> released != [] && released[0] !in inFlight
      ensures who.Getter? ==> !threw
      ensures old(completed) <= completed && old(enqueued) <= enqueued
      ensures answers == old(answers) + Trues(|enqueued| - |old(enqueued)|) + (if threw then [false] else [])
    {
      hide Valid;
      ControlFacts();
      var running := TestStatus(who);
      if !running {
        return false;
      }
      while released != [] && |enqueued| != numFrames
        invariant Valid() && old(log) <= log && section == LoopHead(who) && status.Running?
        invariant get == old(get)
        invariant enqueued + released == old(enqueued + released) && |old(enqueued)| <= |enqueued|
        invariant who.Getter? ==> released == []
        invariant old(completed) <= completed && old(enqueued) <= enqueued
        invariant answers == old(answers) + Trues(|enqueued| - |old(enqueued)|)
        decreases |released|
      {
        OneMoreTrue(|enqueued| - |old(enqueued)|);
        var accepted := Library();
        if !accepted {
          SubmitRejected(who);
          return true;
        }
        SubmitHead(who);
      }
      LeaveLoop(who);
      return false;
    }

    /** One accepted turn of the loop: submit, _enqueued.push_back, _released.pop_front. */
    method SubmitHead(ghost who: Who)
      requires Valid() && section == LoopHead(who)
      requires released != [] && |enqueued| != numFrames
      modifies this`enqueued, this`released, this`completed, this`inFlight, this`section, this`log
      ensures Valid() && old(log) <= log && section == LoopHead(who)
      ensures enqueued == old(enqueued) + [old(released)[0]] && released == old(released)[1..]
      ensures enqueued + released == old(enqueued + released) && old(completed) <= completed
    {
      hide Valid;
      assert released == [released[0]] + released[1..];
      SubmitAccepted(who);
      Callbacks();
      PushHead(who);
      Callbacks();
      PopHead(who);
      Callbacks();
    }

    // ------------------------------------------------------------ release

    method TakeBack(b: Buf)
      requires Valid() && section.Free? && b in held
      modifies this`released, this`held, this`section, this`log
      ensures Valid() && old(log) <= log && section == Entry(Releaser)
      ensures held == old(held) - {b} && released == old(released) + [b]
      ensures status.Running? ==> old(released) == []
    {
      ReleaseFacts(b);
      ghost var before := View();
      held, released, section := held - {b}, PushBack(released, numFrames, b), Entry(Releaser);
      Record(ReleaseBegin(b), before);
    }

    /** enqueue_buffer, reached from managed_buffer::release. */
    method EnqueueBuffer(b: Buf) returns (threw: bool)
      requires Valid() && section.Free? && b in held
      modifies this`enqueued, this`released, this`status, this`completed, this`inFlight, this`held
      modifies this`section, this`log, this`get, this`answers
      ensures Valid() && old(log) <= log && section.Free? && get == old(get)
      ensures held == old(held) - {b}
      ensures enqueued + released == old(enqueued + released) + [b]
      ensures old(status).Error? ==> !threw && status.Error? && enqueued == old(enqueued)
      ensures old(status).Running? && !threw ==> status.Running? && enqueued == old(enqueued) + [b] && released == []
      ensures threw ==> old(status).Running? && status.Error? && enqueued == old(enqueued) && released == [b]
      ensures old(completed) <= completed && old(enqueued) <= enqueued
      ensures answers == if old(status).Running? then old(answers) + [!threw] else old(answers)
    {
      TakeBack(b);
      threw := SubmitWhatWeCan(Releaser);
      SplitLast(old(enqueued), b, enqueued, released);
      assert Trues(0) == [] && Trues(1) == [true];
    }

    /** Every thread but the one in get_buff: completions, and releases of held buffers. */
    method Others()
      requires Valid() && section.Free?
      modifies this`enqueued, this`released, this`status, this`completed, this`inFlight, this`held
      modifies this`section, this`log, this`get, this`answers
      ensures Valid() && old(log) <= log && section.Free? && get == old(get)
      ensures old(completed) <= completed && old(enqueued) <= enqueued
    {
      var budget: nat := *;
      while budget > 0
        invariant Valid() && old(log) <= log && section.Free? && get == old(get)
        invariant old(completed) <= completed && old(enqueued) <= enqueued
      {
        var b: Buf := *;
        if b in held {
          var threw := EnqueueBuffer(b);
        }
        Callbacks();
        budget := budget - 1;
      }
    }

    /** The two construction loops: a receive ring releases its pool, a transmit ring queues it as completed. */
    constructor (isRecv: bool, order: seq<Buf>)
      requires Distinct(order)
      ensures Valid() && section.Free? && get.Idle? && handed == []
      ensures this.order == order && this.isRecv == isRecv && numFrames == |order|
      ensures !isRecv ==> !failed && enqueued == order && completed == pool && inFlight == {}
      ensures !failed ==> enqueued == order && released == [] && held == {} && status.Running?
      ensures failed ==> status.Error? && |enqueued| < |order| && enqueued + released == order[..|enqueued| + 1]
      ensures answers == if isRecv then Trues(|enqueued|) + (if failed then [false] else []) else []
    {
      this.isRecv, this.order := isRecv, order;
      numFrames, pool := |order|, Elems(order);
      enqueued, released, status := [], [], Running;
      completed, inFlight := {}, {};
      held := if isRecv then Elems(order) else {};
      failed := false;
      section, get, handed, log, answers := Free, Idle, [], [], [];
      new;
      if isRecv {
        DistinctCard(order);
        failed := ReleasePool(order);
      } else {
        QueuePool(order);
      }
    }

    /** The construction loop of a receive ring: mb.release() on every buffer. */
    method ReleasePool(bufs: seq<Buf>) returns (threw: bool)
      requires Valid() && Distinct(bufs) && held == Elems(bufs) && numFrames == |bufs|
      requires section.Free? && get.Idle? && handed == [] && status.Running? && enqueued == [] && released == []
      requires answers == []
      modifies this`enqueued, this`released, this`status, this`completed, this`inFlight, this`held
      modifies this`section, this`log, this`get, this`answers
      ensures Valid() && section.Free? && get.Idle?
      ensures !threw ==> enqueued == bufs && released == [] && held == {} && status.Running?
      ensures threw ==> status.Error? && |enqueued| < |bufs| && enqueued + released == bufs[..|enqueued| + 1]
      ensures answers == Trues(|enqueued|) + (if threw then [false] else [])
    {
      var i := 0;
      while i < |bufs|
        invariant 0 <= i <= |bufs| && Valid() && section.Free? && get.Idle?
        invariant held == Elems(bufs[i..])
        invariant status.Running? && enqueued == bufs[..i] && released == [] && answers == Trues(i)
      {
        OneMoreTrue(i);
        OneLess(bufs, i);
        threw := EnqueueBuffer(bufs[i]);
        assert bufs[..i] + [bufs[i]] == bufs[..i + 1];
        if threw {
          return true;
        }
        i := i + 1;
      }
      return false;
    }

    /** The construction loop of a transmit ring: result.completed = 1, then _enqueued.push_back. */
    method QueuePool(bufs: seq<Buf>)
      requires Distinct(bufs) && numFrames == |bufs|
      requires enqueued == [] && completed == {}
      modifies this`enqueued, this`completed
      ensures enqueued == bufs && completed == Elems(bufs)
    {
      var i := 0;
      while i < |bufs|
        invariant 0 <= i <= |bufs|
        invariant enqueued == bufs[..i] && completed == Elems(bufs[..i])
      {
        completed := completed + {bufs[i]};
        enqueued := PushBack(enqueued, numFrames, bufs[i]);
        assert bufs[..i + 1] == bufs[..i] + [bufs[i]];
        i := i + 1;
      }
      assert bufs[..|bufs|] == bufs;
    }

    // ------------------------------------------------------------ get_buff

    /** The unlocked test of _status. */
    method EnterGet() returns (running: bool)
      requires Valid() && get.Idle?
      modifies this`get, this`log
      ensures Valid() && old(log) <= log && running == status.Running?
      ensures get == if running then Started else Idle
    {
      ghost var before := View();
      running := status == Running;
      if running {
        get := Started;
        Record(GetStart, before);
      } else {
        Record(GetRefused, before);
      }
    }

    /** With the mutex just taken: read the front buffer, or sleep (and after sleeping, give up). */
    method ReadFront(slept: bool) returns (ready: bool)
      requires Valid() && section.Free? && get == (if slept then Asleep else Started)
      modifies this`get, this`log
      ensures Valid() && old(log) <= log && ready == (enqueued != [])
      ensures get == if ready then Front(enqueued[0]) else if slept then Idle else Asleep
      ensures log == old(log) + [if slept then GetWake else GetLock]
    {
      ghost var before := View();
      ready := enqueued != [];
      get := if enqueued != [] then Front(enqueued[0]) else if slept then Idle else Asleep;
      Record(if slept then GetWake else GetLock, before);
    }

    /** wait_for_completion on the front buffer, for however long it lasts. */
    method WaitForCompletion() returns (done: bool)
      requires Valid() && get.Front?
      modifies this`get, this`log
      ensures Valid() && old(log) <= log
      ensures get == if done then Consumed(old(get.b)) else TimedOut
      ensures done == (old(get.b) in completed)
      ensures !done ==> log == old(log) + [WaitTimeout]
    {
      ControlFacts();
      ghost var before := View();
      done := enqueued[0] in completed;
      get := if done then Consumed(get.b) else TimedOut;
      Record(if done then WaitDone else WaitTimeout, before);
    }

    /** The rest of get_new: result.completed = 0, then make. */
    method MakeBuffer(front: Buf)
      requires Valid() && get == Consumed(front)
      modifies this`get, this`completed, this`log
      ensures Valid() && old(log) <= log && get == Made(front)
    {
      ghost var before := View();
      completed, get := completed - {front}, Made(front);
      Record(ClearCompleted, before);
    }

    /** The mutex is taken again and the made buffer leaves _enqueued. */
    method PopMade(front: Buf)
      requires Valid() && section.Free? && get == Made(front)
      modifies this`enqueued, this`held, this`handed, this`section, this`get, this`log
      ensures Valid() && old(log) <= log && section == Entry(Getter)
      ensures handed == old(handed) + [front] && front in held
    {
      ControlFacts();
      ghost var before := View();
      enqueued, held := enqueued[1..], held + {front};
      handed, section, get := handed + [front], Entry(Getter), Returning;
      Record(PopFront, before);
    }

    method TakeMutexAfterTimeout()
      requires Valid() && section.Free? && get.TimedOut?
      modifies this`section, this`get, this`log
      ensures Valid() && old(log) <= log && section == Entry(Getter)
    {
      ghost var before := View();
      section, get := Entry(Getter), Returning;
      Record(GiveUp, before);
    }

    /** get_buff: the mutex is dropped while asleep and while waiting for the front buffer's completion. */
    method GetBuff() returns (buff: Option<Buf>, threw: bool)
      requires Valid() && section.Free? && get.Idle?
      modifies this`enqueued, this`released, this`status, this`completed, this`inFlight, this`held
      modifies this`section, this`log, this`get, this`handed, this`answers
      ensures Valid() && old(log) <= log && section.Free? && get.Idle?
      ensures !threw
      ensures old(status).Error? ==> buff.None? && enqueued == old(enqueued) && released == old(released)
      ensures buff.None? ==> handed == old(handed)
      ensures buff.Some? ==> handed == old(handed) + [buff.value] && buff.value in held
      ensures buff.Some? && old(enqueued + released) != [] ==> buff.value == old(enqueued + released)[0]
      ensures old(status).Running? && old(enqueued) != [] && old(enqueued)[0] in old(completed) ==> buff.Some?
      ensures old(status).Running? && buff.None? ==> GaveUp(log[|old(log)|..])
      ensures buff.Some? ==> buff.value !in inFlight && buff.value !in completed
      ensures buff.Some? ==> buff.value !in enqueued && buff.value !in released
    {
      hide Valid;
      ValidMeans();
      var running := EnterGet();
      if !running {
        return None, false;
      }
      Others();
      var ready := ReadFront(false);
      if !ready {
        Others();
        ghost var before := log;
        ready := ReadFront(true);
        if !ready {
          GivesUp(old(log), before, GetWake, log);
          return None, false;
        }
      }
      Others();
      ghost var before := log;
      buff, threw := TakeFront();
      if buff.None? {
        GivesUp(old(log), before, WaitTimeout, log);
      }
      if buff.Some? {
        TookNextInLine(old(View()), old(log), buff.value);
        HeldFacts(buff.value);
      }
    }

    lemma {:induction false} TookNextInLine(before: State, start: seq<Step>, b: Buf)
      requires Valid() && start <= log && Legal(Start(isRecv, order), start)
      requires Exec(Start(isRecv, order), start) == before && before.section.Free?
      requires handed == before.handed + [b]
      ensures before.enqueued + before.released != [] ==> b == (before.enqueued + before.released)[0]
    {
      HistoryGrows(isRecv, order, start, log);
      if Queue(before) != [] {
        NextInLine(before.handed, Queue(before), b, Queue(View()));
      }
    }

    /** get_new on the front buffer, then the second critical section of get_buff. */
    method TakeFront() returns (buff: Option<Buf>, threw: bool)
      requires Valid() && section.Free? && get.Front?
      modifies this`enqueued, this`released, this`status, this`completed, this`inFlight, this`held
      modifies this`section, this`log, this`get, this`handed, this`answers
      ensures Valid() && old(log) <= log && section.Free? && get.Idle?
      ensures !threw
      ensures buff.None? ==> handed == old(handed)
      ensures buff.Some? ==> buff.value == old(get.b) && handed == old(handed) + [buff.value] && buff.value in held
      ensures old(get.b) in old(completed) ==> buff.Some?
      ensures buff.None? ==> old(log) + [WaitTimeout] <= log
    {
      hide Valid;
      ControlFacts();
      var front := enqueued[0];
      var done := WaitForCompletion();
      Others();
      if done {
        MakeBuffer(front);
        Others();
        PopMade(front);
        buff := Some(front);
      } else {
        TakeMutexAfterTimeout();
        buff := None;
      }
      threw := SubmitWhatWeCan(Getter);
    }
  }
}

/**
 The driver's interrupt handler, the waiting branch of its read call, and one do_cb pass over them, as methods
 on the shared state. As in ZeroCopySingle, Valid ties the fields to a run of the state machine, and Fpga
 stands for whatever the card and the buffer owners do between two accesses.
 */
module CompletionQueue {
  import opened CompletionDrain

  class Queue<D(==)> {
    const all: set<D>
    const modulus: nat

    var outstanding: set<D>
    var fifo: seq<D>
    var owed: nat
    var rdCond: nat
    var delivered: seq<D>
    ghost var pc: Pc
    ghost var log: seq<Step<D>>

    ghost function View(): State<D>
      reads this
    {
      State(all, modulus, outstanding, fifo, owed, rdCond, pc, delivered)
    }

    ghost predicate Valid()
      reads this
    {
      Legal(Start(all, modulus), log) && Exec(Start(all, modulus), log) == View()
    }

    constructor (all: set<D>, modulus: nat)
      ensures Valid() && pc.AtWait? && this.all == all && this.modulus == modulus
      ensures fifo == [] && outstanding == {} && delivered == []
    {
      this.all, this.modulus := all, modulus;
      outstanding, fifo, owed, rdCond, delivered := {}, [], 0, 0, [];
      pc, log := AtWait, [];
    }

    lemma {:induction false} Facts()
      requires Valid()
      ensures Conserved(View()) && Backed(View()) && |fifo| <= |all|
    {
      StartOk(all, modulus);
      Invariant(Start(all, modulus), log);
      BacklogFits(View());
    }

    ghost method Record(step: Step<D>, before: State<D>)
      requires Legal(Start(all, modulus), log) && Exec(Start(all, modulus), log) == before
      requires Enabled(before, step) && View() == Apply(before, step)
      modifies this`log
      ensures Valid() && log == old(log) + [step]
    {
      RunSnoc(Start(all, modulus), log, step);
      log := log + [step];
    }

    /** my_interrupt_handler, for however many MSIs the interrupt stands for. */
    method InterruptHandler(merged: nat)
      requires Valid() && 1 <= merged <= owed
      modifies this`owed, this`rdCond, this`log
      ensures Valid() && rdCond == old(rdCond) + 1 && owed == old(owed) - merged
    {
      ghost var before := View();
      owed, rdCond := owed - merged, rdCond + 1;
      Record(Irq(merged), before);
    }

    /** A descriptor is handed to the FPGA, or finishes and enters the FIFO. */
    method Transfer(d: D)
      requires Valid()
      modifies this`outstanding, this`fifo, this`owed, this`log
      ensures Valid() && old(fifo) <= fifo
    {
      ghost var before := View();
      if d in outstanding {
        outstanding, fifo, owed := outstanding - {d}, fifo + [d], owed + 1;
        Record(Complete(d), before);
      } else if d in all && d !in fifo {
        outstanding := outstanding + {d};
        Record(Submit(d), before);
      }
    }

    method LoseInterrupt()
      requires Valid() && owed >= 1
      modifies this`owed, this`log
      ensures Valid()
    {
      ghost var before := View();
      owed := owed - 1;
      Record(Lose, before);
    }

    /** Anything the card, the handler and the buffer owners do, in any order and number. */
    method Fpga()
      requires Valid()
      modifies this`outstanding, this`fifo, this`owed, this`rdCond, this`log
      ensures Valid() && old(fifo) <= fifo
    {
      var budget: nat := *;
      while budget > 0
        invariant Valid() && old(fifo) <= fifo
      {
        var lost: bool, merged: nat := *, *;
        if 1 <= merged <= owed {
          InterruptHandler(merged);
        }
        if lost && owed >= 1 {
          LoseInterrupt();
        }
        if all != {} {
          var d :| d in all;
          Transfer(d);
        }
        budget := budget - 1;
      }
    }

    /** az_read with no buffer: test or sleep on rd_cond, then store 0 to it; always returns 1. */
    method WaitForInterrupt() returns (r: int)
      requires Valid() && pc.AtWait?
      modifies this`outstanding, this`fifo, this`owed, this`rdCond, this`pc, this`log
      ensures Valid() && pc.AtCount? && r == 1
      ensures old(fifo) <= fifo
    {
      if rdCond <= 0 {
        Fpga();
      }
      ghost var before := View();
      pc := AtClear;
      Record(if before.rd >= 1 then Wake else Timeout, before);
      Fpga();
      before := View();
      rdCond, pc := 0, AtCount;
      Record(Clear, before);
      Fpga();
      return 1;
    }

    /** Reads register 0x1c and masks it. */
    method ReadPending() returns (count: nat)
      requires Valid() && pc.AtCount?
      modifies this`pc, this`log
      ensures Valid() && count == Masked(|fifo|, modulus) && count <= |fifo| && pc == Popping(count)
    {
      MaskedBelow(|fifo|, modulus);
      ghost var before := View();
      count := Masked(|fifo|, modulus);
      pc := Popping(count);
      Record(ReadCount, before);
    }

    /** Reads register 0x1d, which pops the FIFO, and runs the descriptor's callback. */
    method PopOne()
      requires Valid() && pc.Popping? && pc.n > 0 && fifo != []
      modifies this`fifo, this`delivered, this`pc, this`log
      ensures Valid() && pc == Popping(old(pc.n) - 1)
      ensures delivered == old(delivered) + [old(fifo)[0]] && fifo == old(fifo)[1..]
    {
      ghost var before := View();
      fifo, delivered := fifo[1..], delivered + [fifo[0]];
      pc := Popping(pc.n - 1);
      Record(Pop, before);
    }

    /** The pop loop of a pass: what it delivers is fixed by the FIFO at the count read. */
    method PopAll(count: nat)
      requires Valid() && pc == Popping(count) && count <= |fifo|
      modifies this`outstanding, this`fifo, this`owed, this`rdCond, this`delivered, this`pc, this`log
      ensures Valid() && pc == Popping(0)
      ensures delivered == old(delivered) + old(fifo)[..count]
    {
      var left := count;
      ghost var first := fifo[..count];
      while left > 0
        invariant 0 <= left <= count && Valid() && pc == Popping(left) && left <= |fifo|
        invariant delivered == old(delivered) + first[..count - left]
        invariant fifo[..left] == first[count - left..]
      {
        assert fifo[0] == first[count - left];
        assert fifo[1..][..left - 1] == first[count - left + 1..];
        PopOne();
        Fpga();
        left := left - 1;
      }
    }

    method EndPass()
      requires Valid() && pc == Popping(0)
      modifies this`pc, this`log
      ensures Valid() && pc.AtWait?
    {
      ghost var before := View();
      pc := AtWait;
      Record(PassEnd, before);
    }

    /**
     One turn of the do_cb loop. `seen` is the FIFO at its count read, which extends what was there before the
     wait; the pass delivers the masked count of it, in order.
     */
    method DoCbPass() returns (count: nat, ghost seen: seq<D>)
      requires Valid() && pc.AtWait?
      modifies this`outstanding, this`fifo, this`owed, this`rdCond, this`delivered, this`pc, this`log
      ensures Valid() && pc.AtWait?
      ensures old(fifo) <= seen && count == Masked(|seen|, modulus) <= |seen|
      ensures delivered == old(delivered) + seen[..count]
      ensures |all| < modulus ==> count == |seen| && old(delivered) + old(fifo) <= delivered
    {
      var r := WaitForInterrupt();
      Facts();
      MaskedBelow(|fifo|, modulus);
      seen := fifo;
      count := ReadPending();
      PopAll(count);
      EndPass();
    }
  }
}

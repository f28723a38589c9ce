/**
 The driver's DMA buffer manager: a bump allocator over a searched-for contiguous pool, with two kernel
 allocators behind it, a table of rejected allocations held until teardown, and a sink that keeps the CMA
 area from being used.
 */
module DmaManager {
  import opened Paging
  import opened Kernel
  import opened DmaBooks
  import opened BufferMap

  class Driver {
    const kernel: System
    const slots: array<DmaBuf>
    const holds: array<Hold>

    var nhold: nat
    var sink: Sink // m2sdr_cma_sink and its two companions
    var pool: Pool // the m2sdr_pool_ variables

    var exhausted: nat // how often the pool was found too full

    ghost var slices: set<Block>
    ghost var bufs: seq<DmaBuf>  // the entries of slots
    ghost var held: seq<Hold>    // the used entries of holds

    /** The two C arrays hold what the ghost sequences say. */
    ghost predicate Repr()
      reads this`bufs, this`held, this`nhold, slots, holds
    {
      && slots.Length == MAX_BUFS && slots[..] == bufs
      && holds.Length == HOLD_MAX && nhold <= HOLD_MAX && holds[..nhold] == held
    }

    ghost function View(): World
      reads this`slices, this`pool, this`sink, this`bufs, this`held, kernel`blocks, kernel`ranges, kernel`maps
    {
      World(kernel.page, kernel.pageAddress, kernel.blocks, kernel.ranges, kernel.maps, slices, pool, sink, bufs, held)
    }

    ghost predicate Valid()
      reads this, kernel, holds, slots
    {
      Repr() && Sound(View(), multiset{})
    }

    constructor (kernel: System)
      requires kernel.Valid() && PageOk(kernel.page)
      requires kernel.blocks == {} && kernel.ranges == {} && kernel.maps == {}
      ensures Valid() && fresh(slots) && fresh(holds) && this.kernel == kernel
      ensures forall i :: 0 <= i < MAX_BUFS ==> slots[i] == EMPTY
      ensures pool == NO_POOL && exhausted == 0
    {
      this.kernel := kernel;
      slots := new DmaBuf[MAX_BUFS](_ => EMPTY);
      holds := new Hold[HOLD_MAX](_ => Hold(0, 0, 0));
      nhold, sink, pool := 0, Sink(0, 0, 0), NO_POOL;
      exhausted, slices := 0, {};
      held := [];
      bufs := seq(MAX_BUFS, i => EMPTY);
      new;
      OwnedNone(bufs);
      assert slots[..] == bufs;
      assert holds[..0] == [];
    }

    // ------------------------------------------------------------ freeing

    /** Gives the memory of entry i back: to the kernel, unless it is a pool slice. */
    method DropEntry(ghost i: nat, b: DmaBuf)
      requires Sound(View(), multiset{}) && i < |bufs| && bufs[i] == b && b.va != 0
      modifies kernel`blocks, this`slices, this`bufs
      ensures View() == Dropped(old(View()), i) && Sound(View(), multiset{})
    {
      ghost var w := View();
      OwnerHasBlock(w, multiset{}, i);
      DropSound(w, i, multiset{});
      if IsPoolVa(pool, b.va) {
        slices := slices - {BlockOf(b)};
      } else {
        kernel.DmaFree(KindOf(b.coherent), b.len * 8, b.va, b.phys * 8);
      }
      bufs := bufs[i := EMPTY];
    }

    /** m2sdr_free_one. */
    method FreeOne(i: nat)
      requires Valid() && i < MAX_BUFS
      modifies slots, kernel`blocks, this`slices, this`bufs
      ensures Valid()
      ensures old(bufs[i].va) == 0 ==> View() == old(View())
      ensures old(bufs[i].va) != 0 ==> View() == Dropped(old(View()), i)
    {
      hide Sound;
      EntryIsOk(View(), i);
      var b := slots[i];
      if b.va == 0 || b.len == 0 {
        return;
      }
      DropEntry(i, b);
      slots[i] := EMPTY;
    }

    // ------------------------------------------------------------ the pool search

    /** What was asked shows that the search passed over the first n places for one size. */
    ghost predicate PassedOverAll(run: seq<Answer>, n: nat, sz: nat)
      requires kernel.page > 0 && sz >= kernel.page
    {
      PassedOverUpTo(run, n, Stride(sz), sz / kernel.page, sz, kernel.page, kernel.pfnValid, kernel.pageAddress)
    }

    /** A page block, or the size itself if there are none. */
    function Stride(sz: nat): nat
      requires kernel.page > 0
    {
      PageBytes(if kernel.pageblockPages == 0 then sz / kernel.page else kernel.pageblockPages, kernel.page)
    }

    /** The places tried start at 1 GiB and are a page block apart, or as far as the pool is long if there are none. */
    lemma {:induction false} Places(k: nat, sz: nat)
      requires kernel.page > 0 && Aligned(sz, kernel.page)
      ensures Candidate(k, Stride(sz))
           == 0x4000_0000 + k * (if kernel.pageblockPages > 0 then kernel.pageblockPages * kernel.page else sz)
    {
      PageBytesIsProduct(kernel.pageblockPages, kernel.page);
      QuotientPages(sz, kernel.page);
      PageBytesIsProduct(k, Stride(sz));
    }

    /** The pool is the first of the places for its size that was not passed over. */
    ghost predicate FirstFit(run: seq<Answer>)
      requires kernel.page > 0 && pool.sz >= kernel.page
      reads this`pool
    {
      && Granted(run, pool)
      && exists n :: 0 <= n < MAX_ATTEMPTS && PassedOverAll(run, n, pool.sz)
                     && PageBytes(pool.pfn, kernel.page) == Candidate(n, Stride(pool.sz))
    }

    /**
     A search leaves the first fit for 16 MiB; if all places for that were passed over, the first fit for 8 MiB;
     and nothing if all places for both were. With a pool at hand there is no search.
     */
    ghost predicate Searched(run: seq<Answer>, was: Pool)
      requires kernel.page > 0 && POOL_FALLBACK >= kernel.page && (pool.va != 0 ==> pool.sz >= kernel.page)
      reads this`pool
    {
      if was.va != 0 then run == []
      else
        && (pool.va != 0 ==> FirstFit(run))
        && (pool.va == 0 || pool.sz != POOL_SIZE ==> PassedOverAll(run, MAX_ATTEMPTS, POOL_SIZE))
        && (pool.va == 0 ==> PassedOverAll(run, MAX_ATTEMPTS, POOL_FALLBACK))
    }

    /** What a search for one size shows, the whole run still shows. */
    lemma {:induction false} PassedOverAllStill(run: seq<Answer>, all: seq<Answer>, n: nat, sz: nat)
      requires kernel.page > 0 && sz >= kernel.page && Within(run, all) && PassedOverAll(run, n, sz)
      ensures PassedOverAll(all, n, sz)
    {
      PassedOverStill(run, all, n, Stride(sz), sz / kernel.page, sz, kernel.page, kernel.pfnValid, kernel.pageAddress);
    }

    lemma {:induction false} FirstFitStill(run: seq<Answer>, all: seq<Answer>)
      requires kernel.page > 0 && pool.sz >= kernel.page && Within(run, all) && FirstFit(run)
      ensures FirstFit(all)
    {
      GrantedStill(run, all, pool);
      var n :| 0 <= n < MAX_ATTEMPTS && PassedOverAll(run, n, pool.sz)
               && PageBytes(pool.pfn, kernel.page) == Candidate(n, Stride(pool.sz));
      PassedOverAllStill(run, all, n, pool.sz);
    }

    /** One candidate of the search loop; a rejected one leaves no trace. */
    method TryRange(phys: nat, sz: nat, nr: nat) returns (taken: bool, ghost run: seq<Answer>)
      requires Sound(View(), multiset{}) && pool.va == 0
      requires (sz == POOL_SIZE || sz == POOL_FALLBACK) && sz == PageBytes(nr, kernel.page) && nr > 0
      requires Aligned(phys, kernel.page) && POOL_PHYS_LO <= phys && phys + sz <= POOL_PHYS_HI
      modifies kernel`ranges, kernel`maps, kernel`answers, this`pool
      ensures Sound(View(), multiset{}) && taken == (pool.va != 0)
      ensures View() == old(View()).(pool := pool, ranges := kernel.ranges, maps := kernel.maps)
      ensures !taken ==> View() == old(View())
      ensures taken ==> pool.sz == sz && pool.nr == nr && pool.off == 0 && PageBytes(pool.pfn, kernel.page) == phys
      ensures kernel.answers == old(kernel.answers) + run
      ensures taken ==> Granted(run, pool)
      ensures !taken ==> PassedOver(run, phys / kernel.page, nr, sz, kernel.pfnValid, kernel.pageAddress)
    {
      hide Sound;
      ghost var w := View();
      NoPoolNoSlices(w, multiset{});
      KernelIsOk(w, multiset{});
      run := [];
      var pfn := phys / kernel.page;
      QuotientPages(phys, kernel.page);
      if !kernel.pfnValid(pfn) || !kernel.pfnValid(pfn + nr - 1) {
        return false, run;
      }
      var got := kernel.AllocContigRange(pfn, nr);
      run := [RangeAnswer(pfn, nr, got)];
      if !got {
        return false, run;
      }
      var va := kernel.pageAddress(pfn);
      if va == 0 {
        kernel.FreeContigRange(pfn, nr);
        return false, run;
      }
      var mapped, dma := kernel.DmaMapSingle(pfn, sz);
      run := [RangeAnswer(pfn, nr, got), MapAnswer(pfn, sz, mapped, dma)];
      if !mapped {
        dma := phys;
        IdentityPasses(phys, sz);
      }
      if !InWindow(dma, sz) || InHole(dma, sz) {
        if mapped {
          kernel.DmaUnmapSingle(dma, sz);
        }
        kernel.FreeContigRange(pfn, nr);
        return false, run;
      }
      pool := Pool(va, pfn, nr, dma, sz, 0, mapped, true);
      PoolTaken(w, pool, kernel.ranges, kernel.maps, multiset{});
      return true, run;
    }

    /** The search for one size. */
    method SearchSize(sz: nat) returns (taken: bool, ghost run: seq<Answer>)
      requires Sound(View(), multiset{}) && pool.va == 0 && (sz == POOL_SIZE || sz == POOL_FALLBACK)
      modifies kernel`ranges, kernel`maps, kernel`answers, this`pool
      ensures Sound(View(), multiset{}) && taken == (pool.va != 0)
      ensures View() == old(View()).(pool := pool, ranges := kernel.ranges, maps := kernel.maps)
      ensures !taken ==> View() == old(View())
      ensures taken ==> pool.sz == sz && pool.off == 0
      ensures kernel.answers == old(kernel.answers) + run && 0 < kernel.page <= sz
      ensures if taken then FirstFit(run) else PassedOverAll(run, MAX_ATTEMPTS, sz)
    {
      hide Sound;
      PoolSizesArePages(View(), sz);
      var nr := sz / kernel.page;
      var step := if kernel.pageblockPages == 0 then nr else kernel.pageblockPages;
      PagesAreAligned(step, kernel.page);
      ghost var n;
      taken, n, run := SearchFrom(sz, nr, PageBytes(step, kernel.page));
      if taken {
        assert PassedOverAll(run, n, pool.sz);
      } else if n < MAX_ATTEMPTS {
        NoMoreCandidates(run, n, MAX_ATTEMPTS, Stride(sz), nr, sz, kernel.page, kernel.pfnValid, kernel.pageAddress);
      }
    }

    /** The inner loop of the search; n candidates were passed over. */
    method SearchFrom(sz: nat, nr: nat, stride: nat) returns (taken: bool, ghost n: nat, ghost run: seq<Answer>)
      requires Sound(View(), multiset{}) && pool.va == 0 && kernel.page > 0 && nr > 0
      requires (sz == POOL_SIZE || sz == POOL_FALLBACK) && sz == PageBytes(nr, kernel.page)
      requires Aligned(stride, kernel.page) && Aligned(POOL_PHYS_LO, kernel.page)
      modifies kernel`ranges, kernel`maps, kernel`answers, this`pool
      ensures Sound(View(), multiset{}) && taken == (pool.va != 0)
      ensures View() == old(View()).(pool := pool, ranges := kernel.ranges, maps := kernel.maps)
      ensures !taken ==> View() == old(View())
      ensures taken ==> pool.sz == sz && pool.off == 0 && Granted(run, pool)
      ensures taken ==> n < MAX_ATTEMPTS && PageBytes(pool.pfn, kernel.page) == Candidate(n, stride)
      ensures !taken ==> n == MAX_ATTEMPTS || (n < MAX_ATTEMPTS && Candidate(n, stride) + sz > POOL_PHYS_HI)
      ensures kernel.answers == old(kernel.answers) + run
      ensures PassedOverUpTo(run, n, stride, nr, sz, kernel.page, kernel.pfnValid, kernel.pageAddress)
    {
      hide Sound;
      var attempts := 0;
      var phys: nat := POOL_PHYS_LO;
      n, run := 0, [];
      while phys + sz <= POOL_PHYS_HI
        invariant 0 <= attempts == n <= MAX_ATTEMPTS && View() == old(View())
        invariant Aligned(phys, kernel.page) && phys == Candidate(n, stride)
        invariant kernel.answers == old(kernel.answers) + run
        invariant PassedOverUpTo(run, n, stride, nr, sz, kernel.page, kernel.pfnValid, kernel.pageAddress)
        decreases MAX_ATTEMPTS - attempts
      {
        attempts := attempts + 1;
        if attempts > MAX_ATTEMPTS {
          break;
        }
        ghost var one;
        taken, one := TryRange(phys, sz, nr);
        if taken {
          GrantedStill(one, run + one, pool);
          PassedOverStill(run, run + one, n, stride, nr, sz, kernel.page, kernel.pfnValid, kernel.pageAddress);
          return true, n, run + one;
        }
        PassedOverNext(run, one, n, stride, nr, sz, kernel.page, kernel.pfnValid, kernel.pageAddress);
        n, run := n + 1, run + one;
        SumAligned(phys, stride, kernel.page);
        phys := phys + stride;
      }
      return false, n, run;
    }

    /** m2sdr_ensure_pool: two sizes, the larger first, up to 80 places each. */
    method EnsurePool() returns (ret: int, ghost run: seq<Answer>)
      requires Sound(View(), multiset{})
      modifies kernel`ranges, kernel`maps, kernel`answers, this`pool
      ensures Sound(View(), multiset{})
      ensures View() == old(View()).(pool := pool, ranges := kernel.ranges, maps := kernel.maps)
      ensures ret == (if pool.va != 0 then 0 else ENOMEM)
      ensures old(pool.va) != 0 || ret != 0 ==> View() == old(View())
      ensures old(pool.va) == 0 ==> pool.off == 0
      ensures kernel.answers == old(kernel.answers) + run && kernel.page > 0
      ensures (pool.va != 0 ==> pool.sz >= kernel.page) && POOL_FALLBACK >= kernel.page && Searched(run, old(pool))
    {
      hide Sound;
      PoolSizesArePages(View(), POOL_FALLBACK);
      run := [];
      if pool.va != 0 {
        return 0, run;
      }
      NoPoolNoSlices(View(), multiset{});
      var s := 0;
      while s < 2
        invariant 0 <= s <= 2 && kernel.page > 0 && POOL_FALLBACK >= kernel.page
        invariant View() == old(View()) && kernel.answers == old(kernel.answers) + run
        invariant s > 0 ==> PassedOverAll(run, MAX_ATTEMPTS, POOL_SIZE)
        invariant s > 1 ==> PassedOverAll(run, MAX_ATTEMPTS, POOL_FALLBACK)
      {
        var sz := if s == 0 then POOL_SIZE else POOL_FALLBACK;
        var taken;
        ghost var one;
        taken, one := SearchSize(sz);
        if s > 0 {
          PassedOverAllStill(run, run + one, MAX_ATTEMPTS, POOL_SIZE);
        }
        if taken {
          FirstFitStill(one, run + one);
          return 0, run + one;
        }
        PassedOverAllStill(one, run + one, MAX_ATTEMPTS, sz);
        run := run + one;
        s := s + 1;
      }
      return ENOMEM, run;
    }

    // ------------------------------------------------------------ allocation

    /** Cuts a slice off the pool. */
    method TakeSlice(bytes: nat) returns (va: nat, dma: nat)
      requires Sound(View(), multiset{}) && pool.va != 0 && bytes > 0
      requires pool.off + AlignUp(bytes, kernel.page) <= pool.sz
      modifies this`pool, this`slices
      ensures va == pool.va + old(pool.off) && dma == pool.dma + old(pool.off)
      ensures pool == old(pool).(off := old(pool.off) + AlignUp(bytes, kernel.page))
      ensures Sound(View(), multiset{Block(Noncoherent, va, dma, bytes)})
      ensures Usable(dma, bytes) && Aligned(dma, kernel.page) && IsPoolVa(pool, va)
    {
      hide Sound;
      EmptyPoolIsUnused(View(), multiset{});
      ghost var w, n := View(), AlignUp(bytes, kernel.page);
      SliceCut(w, bytes);
      AlignUpFits(bytes, kernel.page);
      va, dma := pool.va + pool.off, pool.dma + pool.off;
      slices := slices + {Block(Noncoherent, va, dma, bytes)};
      pool := pool.(off := pool.off + AlignUp(bytes, kernel.page));
      assert View() == w.(pool := w.pool.(off := w.pool.off + n), slices := w.slices + {NextSlice(w.pool, bytes)});
    }

    /** dma_alloc of either kind: what it returns has, for now, no owner, and overlaps no live buffer. */
    method Obtain(kind: Kind, bytes: nat) returns (va: nat, dma: nat)
      requires Sound(View(), multiset{}) && bytes > 0
      modifies kernel`blocks, kernel`mem, kernel`answers
      ensures kernel.answers == old(kernel.answers) + [BlockAnswer(kind, bytes, va, dma)]
      ensures va == 0 ==> View() == old(View())
      ensures va != 0 ==> Obtained(old(View()), Block(kind, va, dma, bytes))
      ensures kernel.Valid()
      ensures Intact(bufs, old(kernel.mem), kernel.mem)
    {
      ghost var w := View();
      va, dma := kernel.DmaAlloc(kind, bytes);
      if va != 0 {
        ghost var b := Block(kind, va, dma, bytes);
        AddBlock(w, b, multiset{});
        forall i | 0 <= i < |bufs| && bufs[i].va != 0
          ensures Apart(va, bytes, bufs[i].va, bufs[i].len * 8)
        {
          NewBlockApart(w, b, i);
        }
      }
    }

    ghost predicate Obtained(w: World, b: Block)
      reads this`slices, this`pool, this`sink, this`bufs, this`held, kernel`blocks, kernel`ranges, kernel`maps
    {
      && b.va != 0 && b !in w.blocks && View() == w.(blocks := w.blocks + {b})
      && w.page > 0 && Aligned(b.bus, w.page) && Sound(View(), multiset{b})
    }

    /** The second path: ordinary pages, given back at once if the card cannot reach them. */
    method TryNoncoherent(bytes: nat) returns (va: nat, dma: nat, ghost a: Answer)
      requires Sound(View(), multiset{}) && bytes > 0
      modifies kernel`blocks, kernel`mem, kernel`answers
      ensures kernel.answers == old(kernel.answers) + [a] && IsBlockAnswer(a, Noncoherent, bytes)
      ensures if Good(a) then va == a.va && dma == a.bus else va == 0
      ensures va == 0 ==> View() == old(View())
      ensures va != 0 ==> Obtained(old(View()), Block(Noncoherent, va, dma, bytes)) && Usable(dma, bytes)
      ensures Intact(bufs, old(kernel.mem), kernel.mem)
    {
      va, dma := Obtain(Noncoherent, bytes);
      a := BlockAnswer(Noncoherent, bytes, va, dma);
      if va != 0 {
        if InWindow(dma, bytes) && !InHole(dma, bytes) {
          return;
        }
        kernel.DmaFree(Noncoherent, bytes, va, dma);
        va := 0;
      }
    }

    /** m2sdr_drain_cma: takes the largest of four sizes the CMA area still has, once. */
    method DrainCma() returns (ghost run: seq<Answer>)
      requires Sound(View(), multiset{})
      modifies kernel`blocks, kernel`mem, kernel`answers, this`sink
      ensures kernel.answers == old(kernel.answers) + run
      ensures if old(sink.va) != 0 then run == [] else SinkRun(run, sink)
      ensures Sound(View(), multiset{})
      ensures View() == old(View()).(blocks := kernel.blocks, sink := sink)
      ensures old(sink.va) != 0 ==> View() == old(View())
      ensures sink.va == 0 ==> kernel.blocks == old(kernel.blocks)
      ensures Intact(bufs, old(kernel.mem), kernel.mem)
    {
      hide Sound;
      run := [];
      if sink.va != 0 {
        return;
      }
      var i := 0;
      while i < |CMA_SIZES|
        invariant 0 <= i <= |CMA_SIZES| && View() == old(View())
        invariant kernel.answers == old(kernel.answers) + run && |run| == i
        invariant forall j :: 0 <= j < i ==> IsBlockAnswer(run[j], Coherent, CMA_SIZES[j]) && run[j].va == 0
        invariant Intact(bufs, old(kernel.mem), kernel.mem)
      {
        var va, dma := Obtain(Coherent, CMA_SIZES[i]);
        run := run + [BlockAnswer(Coherent, CMA_SIZES[i], va, dma)];
        if va != 0 {
          SinkKept(View(), Sink(va, dma, CMA_SIZES[i]));
          sink := Sink(va, dma, CMA_SIZES[i]);
          return;
        }
        i := i + 1;
      }
    }

    /** Puts an allocation the card cannot reach into the hold table. */
    method KeepHold(va: nat, dma: nat, bytes: nat)
      requires Repr() && Sound(View(), multiset{Block(Coherent, va, dma, bytes)}) && va != 0 && nhold < HOLD_MAX
      modifies holds, this`nhold, this`held
      ensures Repr() && Sound(View(), multiset{})
      ensures View() == old(View()).(held := old(held) + [Hold(va, dma, bytes)])
    {
      HoldBlockKept(View(), Hold(va, dma, bytes));
      holds[nhold] := Hold(va, dma, bytes);
      nhold := nhold + 1;
      held := held + [Hold(va, dma, bytes)];
    }

    /** One round of the third path; `again` asks for another. */
    method TryCoherent(bytes: nat) returns (va: nat, dma: nat, again: bool, ghost a: Answer)
      requires Valid() && bytes > 0
      modifies kernel`blocks, kernel`mem, kernel`answers, holds, this`nhold, this`held
      ensures Repr() && Intact(bufs, old(kernel.mem), kernel.mem)
      ensures va != 0 ==> !again && Obtained(old(View()), Block(Coherent, va, dma, bytes)) && Usable(dma, bytes)
      ensures va == 0 ==> Sound(View(), multiset{})
      ensures va == 0 && !again ==> View() == old(View())
      ensures kernel.answers == old(kernel.answers) + [a] && IsBlockAnswer(a, Coherent, bytes)
      ensures again ==> View() == old(View()).(blocks := kernel.blocks, held := held)
                        && held == old(held) + [Hold(a.va, a.bus, bytes)]
      ensures if Good(a) then va == a.va && dma == a.bus else va == 0
      ensures again == (a.va != 0 && !Good(a) && old(nhold) < HOLD_MAX)
    {
      hide Sound;
      again := false;
      va, dma := Obtain(Coherent, bytes);
      a := BlockAnswer(Coherent, bytes, va, dma);
      if va == 0 {
        return;
      }
      if InWindow(dma, bytes) && !InHole(dma, bytes) {
        return;
      }
      if nhold < HOLD_MAX {
        KeepHold(va, dma, bytes);
        again := true;
      } else {
        kernel.DmaFree(Coherent, bytes, va, dma);
      }
      va := 0;
    }

    /** The third path: up to 48 coherent allocations, holding the rejected ones so that they do not come again. */
    method TryCoherents(bytes: nat) returns (va: nat, dma: nat, ghost run: seq<Answer>)
      requires Valid() && bytes > 0
      modifies kernel`blocks, kernel`mem, kernel`answers, holds, this`nhold, this`held
      ensures Repr() && Intact(bufs, old(kernel.mem), kernel.mem)
      ensures View() == old(View()).(blocks := kernel.blocks, held := held)
      ensures va != 0 ==> Sound(View(), multiset{Block(Coherent, va, dma, bytes)}) && Usable(dma, bytes)
                          && Aligned(dma, kernel.page) && Block(Coherent, va, dma, bytes) in kernel.blocks
      ensures va == 0 ==> Sound(View(), multiset{})
      ensures kernel.answers == old(kernel.answers) + run
      ensures CoherentRun(run, bytes, HOLD_MAX - old(nhold), va, dma)
    {
      hide Sound;
      va, dma, run := 0, 0, [];
      var tries := 0;
      while tries < MAX_TRIES
        invariant 0 <= tries <= MAX_TRIES && Valid()
        invariant Intact(bufs, old(kernel.mem), kernel.mem)
        invariant View() == old(View()).(blocks := kernel.blocks, held := held)
        invariant nhold == old(nhold) + tries && va == 0
        invariant kernel.answers == old(kernel.answers) + run && |run| == tries
        invariant forall j :: 0 <= j < tries ==>
          IsBlockAnswer(run[j], Coherent, bytes) && run[j].va != 0 && !Good(run[j])
      {
        var again;
        ghost var a;
        va, dma, again, a := TryCoherent(bytes);
        run := run + [a];
        if !again {
          return;
        }
        tries := tries + 1;
      }
    }

    /** The second and third paths of m2sdr_alloc_dma; the pool is left alone. */
    method AllocFromKernel(bytes: nat) returns (va: nat, dma: nat, coherent: bool, ghost t: Trace)
      requires Valid() && bytes > 0
      modifies kernel`blocks, kernel`mem, kernel`answers, holds, this`nhold, this`held, this`sink
      ensures Repr() && Intact(bufs, old(kernel.mem), kernel.mem)
      ensures va == 0 ==> Sound(View(), multiset{})
      ensures va != 0 ==> Sound(View(), multiset{Block(KindOf(coherent), va, dma, bytes)})
      ensures va != 0 ==> Usable(dma, bytes) && Aligned(dma, kernel.page) && !IsPoolVa(pool, va)
      ensures kernel.answers == old(kernel.answers) + Flat(t)
      ensures KernelServed(t, bytes, old(sink), sink, HOLD_MAX - old(nhold), va, dma, coherent)
    {
      hide Sound;
      coherent := false;
      ghost var a, drain, run;
      va, dma, a := TryNoncoherent(bytes);
      t := Trace([a], [], []);
      if va != 0 {
        BlockOutsidePool(View(), multiset{Block(Noncoherent, va, dma, bytes)}, Block(Noncoherent, va, dma, bytes));
        return;
      }
      drain := DrainCma();
      va, dma, run := TryCoherents(bytes);
      t := Trace([a], drain, run);
      coherent := true;
      if va != 0 {
        BlockOutsidePool(View(), multiset{Block(Coherent, va, dma, bytes)}, Block(Coherent, va, dma, bytes));
      }
    }

    /** m2sdr_alloc_dma: a pool slice if one fits, what the kernel gives if not. */
    method AllocDma(bytes: nat) returns (va: nat, dma: nat, coherent: bool, ghost search: seq<Answer>, ghost t: Trace)
      requires Valid() && bytes > 0
      modifies kernel, holds, this`nhold, this`held, this`pool, this`slices, this`sink, this`exhausted
      ensures Repr() && Intact(bufs, old(kernel.mem), kernel.mem)
      ensures va == 0 ==> Sound(View(), multiset{})
      ensures va != 0 ==> Sound(View(), multiset{Block(KindOf(coherent), va, dma, bytes)})
      ensures va != 0 ==> Usable(dma, bytes) && Aligned(dma, kernel.page) && (IsPoolVa(pool, va) ==> !coherent)
      ensures PoolServed(old(pool.off), pool, AlignUp(bytes, kernel.page), va, dma, exhausted - old(exhausted))
      ensures old(pool.va) != 0 ==> pool == old(pool).(off := pool.off)
      ensures kernel.answers == old(kernel.answers) + search + Flat(t)
      ensures if pool.va != 0 && old(pool.off) + AlignUp(bytes, kernel.page) <= pool.sz then t == Trace([], [], [])
              else KernelServed(t, bytes, old(sink), sink, HOLD_MAX - old(nhold), va, dma, coherent)
      ensures POOL_FALLBACK >= kernel.page && (pool.va != 0 ==> pool.sz >= kernel.page) && Searched(search, old(pool))
    {
      hide Sound;
      hide KernelServed;
      EmptyPoolIsUnused(View(), multiset{});
      var ret;
      ret, search := EnsurePool();
      t := Trace([], [], []);
      if ret == 0 {
        var n := AlignUp(bytes, kernel.page);
        if pool.off + n <= pool.sz {
          va, dma := TakeSlice(bytes);
          coherent := false;
          return;
        }
        exhausted := exhausted + 1;
      }
      va, dma, coherent, t := AllocFromKernel(bytes);
    }

    /** What alloc_dma was asked and answered, in terms of the entry it was for. */
    ghost predicate Served(was: Pool, wasSink: Sink, room: nat, e: DmaBuf, len: nat, search: seq<Answer>, t: Trace)
      requires kernel.page > 0
      reads this`pool, this`sink
    {
      && POOL_FALLBACK >= kernel.page && (pool.va != 0 ==> pool.sz >= kernel.page) && Searched(search, was)
      && if pool.va != 0 && was.off + AlignUp(len * 8, kernel.page) <= pool.sz then t == Trace([], [], [])
         else KernelServed(t, len * 8, wasSink, sink, room, e.va, e.phys * 8, e.coherent) && ServedBy(t, e)
    }

    /** The part of alloc_node that fills an empty entry. */
    method FillEntry(idx: nat, len: nat) returns (r: nat, ghost search: seq<Answer>, ghost t: Trace)
      requires Valid() && idx < MAX_BUFS && bufs[idx] == EMPTY && 0 < len
      modifies slots, holds, kernel, this
      ensures Valid() && Intact(old(bufs), old(kernel.mem), kernel.mem)
      ensures bufs == old(bufs)[idx := bufs[idx]] && r == bufs[idx].phys
      ensures bufs[idx] == EMPTY || (bufs[idx].va != 0 && bufs[idx].len == len)
      ensures kernel.page > 0 && PoolServed(old(pool.off), pool, AlignUp(len * 8, kernel.page),
                                            bufs[idx].va, bufs[idx].phys * 8, exhausted - old(exhausted))
      ensures old(pool.va) != 0 ==> pool == old(pool).(off := pool.off)
      ensures kernel.answers == old(kernel.answers) + search + Flat(t)
      ensures Served(old(pool), old(sink), HOLD_MAX - old(nhold), bufs[idx], len, search, t)
    {
      hide Sound;
      hide KernelServed;
      hide ServedBy;
      hide Searched;
      EmptyPoolIsUnused(View(), multiset{});
      ghost var wasOff, wasSink, room := pool.off, sink, HOLD_MAX - nhold;
      var va, dma, coherent;
      va, dma, coherent, search, t := AllocDma(len * 8);
      if va == 0 {
        EntryServed(t, len * 8, wasSink, sink, room, va, dma, coherent, bufs[idx]);
        return 0, search, t;
      }
      if dma >= 0x8000_0000 {
        assert false;
      }
      WholePagesAreWords(View(), multiset{Block(KindOf(coherent), va, dma, len * 8)}, dma);
      r := dma / 8;
      FillSoundly(View(), idx, DmaBuf(va, r, len, coherent));
      slots[idx] := DmaBuf(va, r, len, coherent);
      bufs := bufs[idx := DmaBuf(va, r, len, coherent)];
      if pool.va == 0 || wasOff + AlignUp(len * 8, kernel.page) > pool.sz {
        EntryServed(t, len * 8, wasSink, sink, room, va, dma, coherent, bufs[idx]);
      }
    }

    /** alloc_node, the whole of it. */
    method AllocNode(idx: nat, len: nat) returns (r: nat, ghost search: seq<Answer>, ghost t: Trace)
      requires Valid() && idx < MAX_BUFS && len * 8 < 0x8000_0000
      modifies slots, holds, kernel, this
      ensures Valid() && r == bufs[idx].phys
      ensures len == 0 || old(bufs[idx].len) == len ==>
                && View() == old(View()) && kernel.mem == old(kernel.mem) && exhausted == old(exhausted)
                && kernel.answers == old(kernel.answers)
      ensures Intact(old(bufs)[idx := EMPTY], old(kernel.mem), kernel.mem)
      ensures bufs == old(bufs)[idx := bufs[idx]]
      ensures len != 0 ==> bufs[idx] == EMPTY || (bufs[idx].va != 0 && bufs[idx].len == len)
      ensures kernel.page > 0
      ensures len != 0 && old(bufs[idx].len) != len ==>
                && PoolServed(old(pool.off), pool, AlignUp(len * 8, kernel.page),
                              bufs[idx].va, bufs[idx].phys * 8, exhausted - old(exhausted))
                && kernel.answers == old(kernel.answers) + search + Flat(t)
                && Served(old(pool), old(sink), HOLD_MAX - old(nhold), bufs[idx], len, search, t)
      ensures old(pool.va) != 0 ==> pool == old(pool).(off := pool.off)
    {
      hide Sound;
      hide Served;
      hide PoolServed;
      EntryIsOk(View(), idx);
      search, t := [], Trace([], [], []);
      if len != 0 {
        if slots[idx].len == len {
          return slots[idx].phys, search, t;
        } else if slots[idx].len != 0 {
          FreeOne(idx);
        }
        r, search, t := FillEntry(idx, len);
        return;
      }
      r := slots[idx].phys;
    }

    // ------------------------------------------------------------ teardown

    ghost predicate NoEntries()
      reads this`bufs
    {
      forall i :: 0 <= i < |bufs| ==> bufs[i] == EMPTY
    }

    /** Nothing is held from the kernel, and all variables are as at the start. */
    ghost predicate Drained()
      reads this, kernel
    {
      && NoEntries() && nhold == 0 && held == [] && sink.va == 0 && pool == NO_POOL && slices == {}
      && kernel.blocks == {} && kernel.ranges == {} && kernel.maps == {}
    }

    method FreeFirstHold(h: Hold)
      requires Sound(View(), multiset{}) && held != [] && held[0] == h
      modifies kernel`blocks, this`held
      ensures Sound(View(), multiset{}) && held == old(held)[1..]
    {
      hide Sound;
      HoldFreed(View());
      KernelIsOk(View(), multiset{});
      if h.va != 0 {
        kernel.DmaFree(Coherent, h.bytes, h.va, h.dma);
      }
      held := held[1..];
    }

    method FreeSink()
      requires Sound(View(), multiset{})
      modifies kernel`blocks, this`sink
      ensures Sound(View(), multiset{}) && sink.va == 0
      ensures old(sink.va) != 0 ==> sink.sz == 0
      ensures old(sink.va) == 0 ==> View() == old(View())
    {
      hide Sound;
      if sink.va != 0 {
        SinkFreed(View(), Sink(0, sink.dma, 0));
        KernelIsOk(View(), multiset{});
        kernel.DmaFree(Coherent, sink.sz, sink.va, sink.dma);
        sink := Sink(0, sink.dma, 0);
      }
    }

    /** m2sdr_release_pool. */
    method ReleasePool()
      requires Sound(View(), multiset{}) && slices == {} && NoEntries()
      modifies kernel`ranges, kernel`maps, this`pool
      ensures Sound(View(), multiset{})
      ensures pool == NO_POOL && kernel.ranges == {} && kernel.maps == {}
    {
      PoolReleased(View());
      if pool.va == 0 {
        return;
      }
      if pool.mapped && pool.dev {
        kernel.DmaUnmapSingle(pool.dma, pool.sz);
      }
      kernel.FreeContigRange(pool.pfn, pool.nr);
      pool := NO_POOL;
    }

    /** m2sdr_release_holds. */
    method ReleaseHolds()
      requires Valid() && NoEntries()
      modifies kernel`blocks, kernel`ranges, kernel`maps, holds, this`nhold, this`held, this`sink, this`pool
      ensures Valid() && Drained()
    {
      hide Sound;
      var i := 0;
      ghost var all := held;
      while i < nhold
        invariant 0 <= i <= nhold == |all| <= HOLD_MAX && held == all[i..]
        invariant forall k :: i <= k < nhold ==> holds[k] == all[k]
        invariant Sound(View(), multiset{}) && slots[..] == bufs && NoEntries()
      {
        FreeFirstHold(holds[i]);
        holds[i] := holds[i].(va := 0);
        i := i + 1;
      }
      nhold := 0;
      FreeSink();
      NothingOutstanding(View());
      ReleasePool();
      assert holds[..0] == [];
    }

    /** free_node: everything the driver holds goes back, each by the routine and with the size it came with. */
    method FreeNode()
      requires Valid()
      modifies slots, holds, kernel, this
      ensures Valid() && Drained()
    {
      hide Sound;
      var i := 0;
      while i < MAX_BUFS
        invariant 0 <= i <= MAX_BUFS && Valid()
        invariant forall k :: 0 <= k < i ==> bufs[k] == EMPTY
      {
        EntryIsOk(View(), i);
        if slots[i].va != 0 {
          FreeOne(i);
        }
        i := i + 1;
      }
      ReleaseHolds();
    }

    // ------------------------------------------------------------ reading and writing buffers

    /** What az_read and az_write check before they copy. */
    ghost predicate Accepts(idx: int, count: nat)
      reads this`bufs
    {
      0 <= idx < |bufs| && bufs[idx].va != 0 && count <= bufs[idx].len * 8
    }

    /** az_write: `idx` is the file offset cut to 32 bits. */
    method AzWrite(offs: int, user: seq<bv8>) returns (ret: int, ghost ok: bool)
      requires Valid()
      modifies kernel`mem, kernel`answers
      ensures Valid()
      ensures !Accepts(Int32(offs), |user|) ==>
                ret == EINVAL && kernel.mem == old(kernel.mem) && kernel.answers == old(kernel.answers)
      ensures Accepts(Int32(offs), |user|) ==>
                && kernel.answers == old(kernel.answers) + [CopyAnswer(bufs[Int32(offs)].va, |user|, ok)]
                && ret == (if ok then |user| else EFAULT)
                && (ok ==> kernel.mem == Store(old(kernel.mem), bufs[Int32(offs)].va, user))
                && Intact(bufs[Int32(offs) := EMPTY], old(kernel.mem), kernel.mem)
    {
      hide Sound;
      ok := false;
      var idx := Int32(offs);
      if idx < 0 || idx >= MAX_BUFS || slots[idx].va == 0 || |user| > slots[idx].len * 8 {
        return EINVAL, ok;
      }
      LiveBufferReachable(View(), multiset{}, idx);
      var toCopy := Int32(|user|);
      assert toCopy == |user| && user[..toCopy] == user;
      OthersApart(View(), idx, toCopy);
      var copied := kernel.CopyFromUser(slots[idx].va, user[..toCopy]);
      ok := copied;
      ret := if copied then toCopy else EFAULT;
    }

    /** az_read; a null buffer and no bytes is libpcie's wait, which does not touch the buffers. */
    method AzRead(offs: int, count: nat, isNull: bool) returns (ret: int, data: seq<bv8>, ghost ok: bool)
      requires Valid()
      modifies kernel`answers
      ensures Valid()
      ensures count == 0 && isNull ==> ret == 1 && kernel.answers == old(kernel.answers)
      ensures !(count == 0 && isNull) && !Accepts(Int32(offs), count) ==>
                ret == EINVAL && kernel.answers == old(kernel.answers)
      ensures !(count == 0 && isNull) && Accepts(Int32(offs), count) ==>
                && kernel.answers == old(kernel.answers) + [CopyAnswer(bufs[Int32(offs)].va, count, ok)]
                && ret == (if ok then 2 else EFAULT)
                && (ok ==> data == Bytes(kernel.mem, bufs[Int32(offs)].va, count))
    {
      hide Sound;
      data, ok := [], false;
      if count == 0 && isNull {
        return 1, data, ok;
      }
      var idx := Int32(offs);
      if idx < 0 || idx >= MAX_BUFS || slots[idx].va == 0 || count > slots[idx].len * 8 {
        return EINVAL, data, ok;
      }
      LiveBufferReachable(View(), multiset{}, idx);
      var toCopy := Int32(count);
      assert toCopy == count;
      var copied;
      copied, data := kernel.CopyToUser(slots[idx].va, toCopy);
      ok := copied;
      if !copied {
        return EFAULT, data, ok;
      }
      return 2, data, ok;
    }

    // ------------------------------------------------------------ mapping

    /** mmap_23: maps the buffers one after the other, up to the first empty entry or the end of the area. */
    method Mmap23(vmStart: nat, vmEnd: nat, pagePfn: nat -> nat) returns (ret: int, segs: seq<Segment>)
      requires Valid()
      modifies kernel`answers
      ensures Valid() && kernel.page > 0
      ensures MapResult(bufs, AreaLength(vmStart, vmEnd), segs, ret, kernel.page, pagePfn)
      ensures kernel.answers
           == old(kernel.answers) + Remaps(bufs, AreaLength(vmStart, vmEnd), segs, ret, kernel.page, pagePfn)
    {
      hide Sound;
      EmptyPoolIsUnused(View(), multiset{});
      ret, segs := MapBuffers(vmStart, vmEnd, pagePfn);
    }

    /** Its loop. */
    method MapBuffers(vmStart: nat, vmEnd: nat, pagePfn: nat -> nat) returns (ret: int, segs: seq<Segment>)
      requires Repr() && kernel.page > 0
      modifies kernel`answers
      ensures MapResult(bufs, AreaLength(vmStart, vmEnd), segs, ret, kernel.page, pagePfn)
      ensures kernel.answers
           == old(kernel.answers) + Remaps(bufs, AreaLength(vmStart, vmEnd), segs, ret, kernel.page, pagePfn)
    {
      hide Mapped;
      hide MapResult;
      hide Remaps;
      hide Next;
      hide Remap;
      ghost var vmLen, answers := AreaLength(vmStart, vmEnd), kernel.answers;
      segs := [];
      MappedNone(bufs, vmLen, kernel.page, pagePfn);
      var i, off := 0, 0;
      while i < MAX_BUFS
        invariant 0 <= i <= MAX_BUFS && |segs| == i && off == Min(vmLen, Before(bufs, i))
        invariant Mapped(bufs, vmLen, segs, kernel.page, pagePfn)
        invariant kernel.answers == answers + AllMapped(segs)
      {
        if slots[i].va == 0 || vmStart + off >= vmEnd {
          MappedWhole(bufs, vmLen, segs, kernel.page, pagePfn);
          return 0, segs;
        }
        var seg := MapOne(slots[i], i, off, vmEnd - (vmStart + off), pagePfn, bufs, vmLen);
        ret := kernel.RemapPfnRange(seg.off, seg.pfn, seg.bytes);
        RemapIs(seg, ret);
        if ret != 0 {
          MappedPart(bufs, vmLen, segs, ret, kernel.page, pagePfn);
          return ret, segs;
        }
        MappedNext(bufs, vmLen, segs, kernel.page, pagePfn);
        OneMoreMapped(segs, seg);
        segs := segs + [seg];
        off := off + seg.bytes;
        i := i + 1;
      }
      MappedWhole(bufs, vmLen, segs, kernel.page, pagePfn);
      return 0, segs;
    }

    /** What is to be mapped for one entry. */
    method MapOne(b: DmaBuf, idx: nat, off: nat, remain: nat, pagePfn: nat -> nat,
                  ghost all: seq<DmaBuf>, ghost vmLen: nat)
      returns (seg: Segment)
      requires kernel.page > 0 && idx < |all| && all[idx] == b
      requires off == Before(all, idx) && off + remain == vmLen && remain > 0
      ensures seg == Next(all, vmLen, idx, kernel.page, pagePfn)
    {
      var dmaPfn := b.phys * 8 / kernel.page;
      var pfn := pagePfn(b.va);
      if pfn == 0 {
        pfn := dmaPfn;
      }
      var mapLen := b.len * 8;
      if mapLen > remain {
        mapLen := remain;
      }
      return Segment(off, idx, pfn, mapLen);
    }

    // ------------------------------------------------------------ fixed lengths

    /** One request of the fixed length of its index. */
    method AllocFixed(idx: nat, lens: seq<nat>) returns (r: nat)
      requires Valid() && idx < MAX_BUFS && FixedLens(lens) && Aligned(SLOT_MAX, kernel.page)
      requires Roomy(bufs, pool, lens)
      modifies slots, holds, kernel, this
      ensures Valid() && Roomy(bufs, pool, lens) && exhausted == old(exhausted)
      ensures old(pool.va) != 0 ==> pool == old(pool).(off := pool.off)
      ensures pool.va != 0 && lens[idx] != 0 && old(bufs[idx].va) == 0 ==> IsPoolVa(pool, bufs[idx].va)
      ensures bufs == old(bufs)[idx := bufs[idx]]
      ensures old(bufs[idx].va) != 0 || lens[idx] == 0 ==> bufs == old(bufs)
    {
      hide Sound;
      EntryIsOk(View(), idx);
      PoolIsOk(View());
      ghost var wasBufs, wasOff := bufs, pool.off;
      AlignUpFits(lens[idx] * 8, kernel.page);
      AlignUpWithin(lens[idx] * 8, SLOT_MAX, kernel.page);
      ghost var search, t;
      r, search, t := AllocNode(idx, lens[idx]);
      PoolIsOk(View());
      UsedUpdate(wasBufs, idx, bufs[idx]);
      if bufs[idx].va != 0 {
        EntryIsOk(View(), idx);
      }
    }
  }

  datatype Request = Request(idx: nat, len: nat)

  /** What the ioctl does not check. */
  predicate InRange(r: Request) {
    r.idx < MAX_BUFS && r.len * 8 < 0x8000_0000
  }

  /** One request changes at most its own entry: not at all if there is nothing to do, else to its length or to none. */
  ghost predicate Requested(w: World, w': World, r: Request)
    requires r.idx < |w.bufs| && |w'.bufs| == |w.bufs|
  {
    var b, b' := w.bufs[r.idx], w'.bufs[r.idx];
    && w'.bufs == w.bufs[r.idx := b']
    && if r.len == 0 || b.len == r.len then w' == w else b' == EMPTY || (b'.va != 0 && b'.len == r.len)
  }

  /** The states between the first so many requests. */
  ghost predicate Traced(worlds: seq<World>, requests: seq<Request>)
    requires |worlds| <= |requests| + 1
  {
    && (forall k :: 0 <= k < |worlds| ==> |worlds[k].bufs| == MAX_BUFS && Sound(worlds[k], multiset{}))
    && (forall k :: 0 <= k < |worlds| - 1 && requests[k].idx < MAX_BUFS ==>
          Requested(worlds[k], worlds[k + 1], requests[k]))
  }

  /** From load to unload: the invariant holds after every request that is made, and in the end nothing is left. */
  method Lifetime(kernel: System, requests: seq<Request>) returns (ghost worlds: seq<World>)
    requires kernel.Valid() && PageOk(kernel.page)
    requires kernel.blocks == {} && kernel.ranges == {} && kernel.maps == {}
    requires forall k :: 0 <= k < |requests| ==> InRange(requests[k])
    modifies kernel
    ensures |worlds| == |requests| + 1 && Traced(worlds, requests)
    ensures forall i :: 0 <= i < MAX_BUFS ==> worlds[0].bufs[i] == EMPTY
    ensures kernel.Valid() && kernel.blocks == {} && kernel.ranges == {} && kernel.maps == {}
  {
    hide Sound;
    var driver := new Driver(kernel);
    worlds := [driver.View()];
    var k := 0;
    while k < |requests|
      invariant 0 <= k <= |requests| && driver.Valid() && driver.kernel == kernel
      invariant fresh(driver) && fresh(driver.slots) && fresh(driver.holds)
      invariant |worlds| == k + 1 && worlds[k] == driver.View() && Traced(worlds, requests)
      invariant forall i :: 0 <= i < MAX_BUFS ==> worlds[0].bufs[i] == EMPTY
    {
      var r, _, _ := driver.AllocNode(requests[k].idx, requests[k].len);
      worlds := worlds + [driver.View()];
      k := k + 1;
    }
    driver.FreeNode();
    KernelIsOk(driver.View(), multiset{});
  }

  /** Any requests in any order, each index always with the same length: the pool is never found too full. */
  method FixedRequests(driver: Driver, lens: seq<nat>, order: seq<nat>)
    requires driver.Valid() && FixedLens(lens) && Aligned(SLOT_MAX, driver.kernel.page)
    requires Roomy(driver.bufs, driver.pool, lens)
    requires forall k :: 0 <= k < |order| ==> order[k] < MAX_BUFS
    modifies driver, driver.slots, driver.holds, driver.kernel
    ensures driver.Valid() && driver.exhausted == old(driver.exhausted) && Roomy(driver.bufs, driver.pool, lens)
    ensures old(driver.pool.va) != 0 ==>
              && driver.pool == old(driver.pool).(off := driver.pool.off)
              && forall k :: 0 <= k < |order| && lens[order[k]] != 0 && old(driver.bufs[order[k]].va) == 0 ==>
                   IsPoolVa(driver.pool, driver.bufs[order[k]].va)
    ensures forall i :: 0 <= i < MAX_BUFS && i !in order ==> driver.bufs[i] == old(driver.bufs[i])
  {
    hide Sound;
    var k := 0;
    while k < |order|
      invariant 0 <= k <= |order| && driver.Valid() && Roomy(driver.bufs, driver.pool, lens)
      invariant driver.exhausted == old(driver.exhausted)
      invariant forall i :: 0 <= i < MAX_BUFS && i !in order[..k] ==> driver.bufs[i] == old(driver.bufs[i])
      invariant old(driver.pool.va) != 0 ==> driver.pool == old(driver.pool).(off := driver.pool.off)
      invariant old(driver.pool.va) != 0 ==>
        forall i :: 0 <= i < MAX_BUFS && driver.bufs[i].va != 0 && old(driver.bufs[i].va) == 0 ==>
          IsPoolVa(driver.pool, driver.bufs[i].va)
      invariant old(driver.pool.va) != 0 ==>
        forall j :: 0 <= j < k && lens[order[j]] != 0 ==> driver.bufs[order[j]].va != 0
    {
      var r := driver.AllocFixed(order[k], lens);
      k := k + 1;
    }
  }

  /**
   From load on, then, the pool is never exhausted; and once the first requests have obtained it, it serves every
   index that is first requested later. Without a pool the later requests are not made.
   */
  method FixedLifetime(kernel: System, lens: seq<nat>, order: seq<nat>, later: seq<nat>)
    returns (driver: Driver, obtained: bool)
    requires kernel.Valid() && PageOk(kernel.page) && Aligned(SLOT_MAX, kernel.page) && FixedLens(lens)
    requires kernel.blocks == {} && kernel.ranges == {} && kernel.maps == {}
    requires forall k :: 0 <= k < |order| ==> order[k] < MAX_BUFS
    requires forall k :: 0 <= k < |later| ==> later[k] < MAX_BUFS
    modifies kernel
    ensures driver.Valid() && Roomy(driver.bufs, driver.pool, lens) && driver.exhausted == 0
    ensures obtained == (driver.pool.va != 0)
    ensures obtained ==> forall k :: 0 <= k < |later| && lens[later[k]] != 0 && later[k] !in order ==>
                           IsPoolVa(driver.pool, driver.bufs[later[k]].va)
  {
    hide Sound;
    driver := new Driver(kernel);
    RoomyAtStart(driver.bufs, lens);
    FixedRequests(driver, lens, order);
    obtained := driver.pool.va != 0;
    if obtained {
      FixedRequests(driver, lens, later);
    }
  }

  datatype Call = Alloc(idx: nat, len: nat) | Write(offs: int, data: seq<bv8>)

  /** A call that neither resizes nor writes buffer idx. */
  predicate Spares(c: Call, idx: nat, len: nat) {
    match c
    case Alloc(i, n) => i < MAX_BUFS && n * 8 < 0x8000_0000 && (i == idx ==> n == 0 || n == len)
    case Write(offs, _) => Int32(offs) != idx
  }

  method Perform(driver: Driver, c: Call, ghost idx: nat)
    requires driver.Valid() && idx < MAX_BUFS && Spares(c, idx, driver.bufs[idx].len)
    modifies driver, driver.slots, driver.holds, driver.kernel
    ensures driver.Valid() && Kept(old(driver.bufs[idx]), driver.bufs[idx], old(driver.kernel.mem), driver.kernel.mem)
  {
    hide Sound;
    match c {
      case Alloc(i, n) =>
        ghost var was := driver.bufs;
        var r, _, _ := driver.AllocNode(i, n);
        assert i != idx ==> was[i := EMPTY][idx] == was[idx];
      case Write(offs, bytes) =>
        var r, _ := driver.AzWrite(offs, bytes);
        if 0 <= Int32(offs) < |driver.bufs| {
          assert driver.bufs[Int32(offs) := EMPTY][idx] == driver.bufs[idx];
        }
    }
  }

  method PerformAll(driver: Driver, calls: seq<Call>, ghost idx: nat)
    requires driver.Valid() && idx < MAX_BUFS
    requires forall k :: 0 <= k < |calls| ==> Spares(calls[k], idx, driver.bufs[idx].len)
    modifies driver, driver.slots, driver.holds, driver.kernel
    ensures driver.Valid() && Kept(old(driver.bufs[idx]), driver.bufs[idx], old(driver.kernel.mem), driver.kernel.mem)
  {
    hide Sound;
    var k := 0;
    while k < |calls|
      invariant 0 <= k <= |calls| && driver.Valid()
      invariant Kept(old(driver.bufs[idx]), driver.bufs[idx], old(driver.kernel.mem), driver.kernel.mem)
    {
      Perform(driver, calls[k], idx);
      k := k + 1;
    }
  }

  /**
   What is written to one buffer is read back, whatever happens to the others in between: always, unless the buffer
   is empty or too short or one of the two copies faults. `wok` and `rok` tell whether the copies succeeded.
   */
  method WriteThenRead(driver: Driver, idx: nat, data: seq<bv8>, calls: seq<Call>)
    returns (wrote: int, ret: int, got: seq<bv8>, ghost wok: bool, ghost rok: bool)
    requires driver.Valid() && idx < MAX_BUFS
    requires forall k :: 0 <= k < |calls| ==> Spares(calls[k], idx, driver.bufs[idx].len)
    modifies driver, driver.slots, driver.holds, driver.kernel
    ensures driver.Valid()
    ensures wrote == (if old(driver.bufs[idx].va) == 0 || |data| > old(driver.bufs[idx].len) * 8 then EINVAL
                      else if wok then |data| else EFAULT)
    ensures wrote == |data| ==> ret == (if rok then 2 else EFAULT)
    ensures wrote == |data| && rok ==> got == data
    ensures wrote != |data| ==> driver.View() == old(driver.View())
  {
    hide Sound;
    wrote, wok := driver.AzWrite(idx, data);
    if wrote != |data| {
      return wrote, -1, [], wok, false;
    }
    ghost var b, mem := driver.bufs[idx], driver.kernel.mem;
    StoreThenRead(old(driver.kernel.mem), b.va, data);
    PerformAll(driver, calls, idx);
    ret, got, rok := driver.AzRead(idx, |data|, false);
    BytesPrefix(driver.kernel.mem, b.va, |data|, b.len * 8);
    BytesPrefix(mem, b.va, |data|, b.len * 8);
  }
}

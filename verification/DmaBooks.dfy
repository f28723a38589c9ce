/**
 What the driver's DMA buffer manager keeps account of, as values: its buffer entries, the shared pool and the
 slices cut from it, the table of held allocations and the CMA sink, and the invariant that every block the
 kernel has handed out has exactly one owner among them.
 */
module DmaBooks {
  import opened Paging
  import opened Kernel

  const MAX_BUFS := 256
  const HOLD_MAX := 96
  const DMA_WIN_END := 0x8000_0000
  const CMA_HOLE_LO := 0x3b00_0000
  const CMA_HOLE_HI := 0x4000_0000
  const POOL_SIZE := 0x100_0000
  const POOL_FALLBACK := 0x80_0000
  const POOL_PHYS_LO := 0x4000_0000
  const POOL_PHYS_HI := 0x7800_0000
  const MAX_ATTEMPTS := 80
  const MAX_TRIES := 48
  const CMA_SIZES: seq<nat> := [0x400_0000, 0x300_0000, 0x200_0000, 0x100_0000]

  const SLOT_MAX := 0x8000 // 32 KiB

  const ENOMEM := -12
  const EFAULT := -14
  const EINVAL := -22

  /** One entry of dma_bufs: phys is the bus address shifted right by 3, len counts 8-byte words. */
  datatype DmaBuf = DmaBuf(va: nat, phys: nat, len: nat, coherent: bool)

  const EMPTY := DmaBuf(0, 0, 0, false)

  datatype Hold = Hold(va: nat, dma: nat, bytes: nat)

  /** The shared pool: page frames, kernel and bus address, size, bump offset; va is 0 when there is none. */
  datatype Pool = Pool(va: nat, pfn: nat, nr: nat, dma: nat, sz: nat, off: nat, mapped: bool, dev: bool)

  const NO_POOL := Pool(0, 0, 0, 0, 0, 0, false, false)

  datatype Sink = Sink(va: nat, dma: nat, sz: nat)

  /** The conversion to a 32-bit signed integer. */
  function Int32(x: int): (r: int)
    ensures -0x8000_0000 <= r < 0x8000_0000 && (r - x) % 0x1_0000_0000 == 0
  {
    (x + 0x8000_0000) % 0x1_0000_0000 - 0x8000_0000
  }

  predicate InWindow(dma: nat, bytes: nat) {
    dma < DMA_WIN_END && dma + bytes <= DMA_WIN_END
  }

  predicate InHole(dma: nat, bytes: nat) {
    dma < CMA_HOLE_HI && dma + bytes > CMA_HOLE_LO
  }

  predicate Usable(dma: nat, bytes: nat) {
    InWindow(dma, bytes) && !InHole(dma, bytes)
  }

  /** A block is usable exactly when it lies below the hole, or above it and below 2 GiB. */
  lemma {:induction false} UsableExactly(dma: nat, bytes: nat)
    requires bytes > 0
    ensures Usable(dma, bytes) <==> dma + bytes <= 0x3b00_0000 || (0x4000_0000 <= dma && dma + bytes <= 0x8000_0000)
  {
  }

  /** m2sdr_is_pool_va. */
  predicate IsPoolVa(p: Pool, va: nat) {
    p.va != 0 && va != 0 && p.va <= va < p.va + p.sz
  }

  // ---------------------------------------------------------------- who owns which block

  function KindOf(coherent: bool): Kind {
    if coherent then Coherent else Noncoherent
  }

  /** The memory behind a used entry, as m2sdr_free_one rebuilds it from the entry. */
  function BlockOf(b: DmaBuf): Block {
    Block(KindOf(b.coherent), b.va, b.phys * 8, b.len * 8)
  }

  function OwnedBy(b: DmaBuf): multiset<Block> {
    if b.va == 0 then multiset{} else multiset{BlockOf(b)}
  }

  function Owned(bufs: seq<DmaBuf>): multiset<Block> {
    if bufs == [] then multiset{} else Owned(bufs[..|bufs| - 1]) + OwnedBy(bufs[|bufs| - 1])
  }

  function HoldBlock(h: Hold): Block {
    Block(Coherent, h.va, h.dma, h.bytes)
  }

  function HoldBlocks(holds: seq<Hold>): multiset<Block> {
    if holds == [] then multiset{}
    else HoldBlocks(holds[..|holds| - 1]) + multiset{HoldBlock(holds[|holds| - 1])}
  }

  lemma {:induction false} OwnedUpdate(bufs: seq<DmaBuf>, i: nat, b: DmaBuf)
    requires i < |bufs|
    ensures Owned(bufs[i := b]) + OwnedBy(bufs[i]) == Owned(bufs) + OwnedBy(b)
  {
    var last := |bufs| - 1;
    var next := bufs[i := b];
    if i == last {
      assert next[..last] == bufs[..last];
    } else {
      OwnedUpdate(bufs[..last], i, b);
      assert next[..last] == bufs[..last][i := b];
      AddOne(Owned(next[..last]), Owned(bufs[..last]), OwnedBy(bufs[i]), OwnedBy(b), OwnedBy(bufs[last]));
    }
  }

  lemma {:induction false} AddOne<T>(a: multiset<T>, b: multiset<T>, x: multiset<T>, y: multiset<T>, z: multiset<T>)
    requires a + x == b + y
    ensures a + z + x == b + z + y
  {
    assert a + z + x == a + x + z;
    assert b + z + y == b + y + z;
  }

  lemma {:induction false} TakeAway<T>(a: multiset<T>, o: multiset<T>, r: multiset<T>, n: multiset<T>, x: multiset<T>)
    requires a == o + r && n + x == o
    ensures x <= a && a - x == n + r
  {
    assert a == n + r + x;
    assert n + r + x - x == n + r;
  }

  lemma {:induction false} OwnedMember(bufs: seq<DmaBuf>, i: nat)
    requires i < |bufs|
    ensures OwnedBy(bufs[i]) <= Owned(bufs)
  {
    var front := bufs[..|bufs| - 1];
    if i < |bufs| - 1 {
      OwnedMember(front, i);
      assert front[i] == bufs[i];
    }
  }

  lemma {:induction false} OwnedTwo(bufs: seq<DmaBuf>, i: nat, j: nat)
    requires i < j < |bufs|
    ensures OwnedBy(bufs[i]) + OwnedBy(bufs[j]) <= Owned(bufs)
  {
    var front := bufs[..|bufs| - 1];
    if j < |bufs| - 1 {
      OwnedTwo(front, i, j);
      assert front[i] == bufs[i] && front[j] == bufs[j];
    } else {
      OwnedMember(front, i);
      assert front[i] == bufs[i];
    }
  }

  lemma {:induction false} OwnedNone(bufs: seq<DmaBuf>)
    requires forall i :: 0 <= i < |bufs| ==> bufs[i] == EMPTY
    ensures Owned(bufs) == multiset{}
  {
    if bufs != [] {
      OwnedNone(bufs[..|bufs| - 1]);
    }
  }

  // ---------------------------------------------------------------- what a buffer looks like

  /** An unused entry is all zero; a used one is within reach of the card. */
  ghost predicate BufOk(b: DmaBuf, p: Pool) {
    && (b.va == 0 ==> b == EMPTY)
    && (b.va != 0 ==> b.len > 0 && Usable(b.phys * 8, b.len * 8))
    && (IsPoolVa(p, b.va) ==> !b.coherent)
  }

  ghost predicate BufsOk(bufs: seq<DmaBuf>, p: Pool) {
    forall i :: 0 <= i < |bufs| ==> BufOk(bufs[i], p)
  }

  /** A slice lies in the pool below the bump offset, its bus address at the same offset as its kernel address. */
  ghost predicate IsSlice(b: Block, p: Pool) {
    && b.kind == Noncoherent && IsPoolVa(p, b.va) && b.bytes > 0
    && b.bus == p.dma + (b.va - p.va) && b.va - p.va + b.bytes <= p.off <= p.sz
  }

  ghost predicate SlicesOk(slices: set<Block>, p: Pool) {
    && (forall b :: b in slices ==> IsSlice(b, p))
    && (forall a, b :: a in slices && b in slices && a != b ==> BlocksApart(a, b))
  }

  ghost predicate SlicesAligned(slices: set<Block>, page: nat)
    requires page > 0
  {
    forall b :: b in slices ==> Aligned(b.bus, page)
  }

  ghost predicate HeldOk(held: seq<Hold>) {
    forall i :: 0 <= i < |held| ==> held[i].va != 0
  }

  lemma {:induction false} BufsOkSet(bufs: seq<DmaBuf>, i: nat, b: DmaBuf, p: Pool)
    requires i < |bufs| && BufsOk(bufs, p) && BufOk(b, p)
    ensures BufsOk(bufs[i := b], p)
  {
  }

  function SinkBlocks(k: Sink): multiset<Block> {
    if k.va == 0 then multiset{} else multiset{Block(Coherent, k.va, k.dma, k.sz)}
  }

  /** Every outstanding block and slice has exactly one owner: an entry, a hold, the sink, or `extra`. */
  ghost predicate Books(blocks: set<Block>, slices: set<Block>, bufs: seq<DmaBuf>, held: seq<Hold>, sink: Sink,
                        extra: multiset<Block>) {
    multiset(blocks) + multiset(slices) == Owned(bufs) + (HoldBlocks(held) + SinkBlocks(sink) + extra)
  }

  /** All pool fields describe the one contiguous range held, or there is none and they are all zero. */
  ghost predicate PoolOk(p: Pool, ranges: set<Range>, maps: set<Mapping>, page: nat, pageAddress: nat -> nat)
    requires page > 0
  {
    && (p.va == 0 ==> p == NO_POOL && ranges == {} && maps == {})
    && (p.va != 0 ==>
          && p.dev && (p.sz == POOL_SIZE || p.sz == POOL_FALLBACK) && p.sz == PageBytes(p.nr, page)
          && ranges == {Range(p.pfn, p.nr)} && p.va == pageAddress(p.pfn)
          && maps == (if p.mapped then {Mapping(p.dma, p.sz)} else {})
          && (!p.mapped ==> p.dma == PageBytes(p.pfn, page))
          && Usable(p.dma, p.sz)
          && Aligned(p.dma, page) && Aligned(p.off, page) && p.off <= p.sz)
  }

  /** The sizes and addresses the pool search uses are whole pages. */
  ghost predicate PageOk(page: nat) {
    page > 0 && page % 8 == 0 && Aligned(POOL_FALLBACK, page)
  }

  // ---------------------------------------------------------------- the state as one value

  datatype World = World(
    page: nat, pageAddress: nat -> nat,
    blocks: set<Block>, ranges: set<Range>, maps: set<Mapping>,
    slices: set<Block>, // the pool slices in use
    pool: Pool, sink: Sink,
    bufs: seq<DmaBuf>, held: seq<Hold>)

  /** The invariant; `extra` is what has been allocated but not yet given an owner. */
  ghost predicate Sound(w: World, extra: multiset<Block>) {
    && PageOk(w.page)
    && KernelOk(w.blocks, w.ranges, w.maps, w.page, w.pageAddress)
    && PoolOk(w.pool, w.ranges, w.maps, w.page, w.pageAddress)
    && SlicesOk(w.slices, w.pool) && SlicesAligned(w.slices, w.page)
    && Books(w.blocks, w.slices, w.bufs, w.held, w.sink, extra)
    && BufsOk(w.bufs, w.pool)
    && HeldOk(w.held)
  }

  /** A kernel block is no pool slice: the kernel keeps it apart from the pool's pages. */
  lemma {:induction false} BlockIsNotInPool(w: World, b: Block)
    requires KernelOk(w.blocks, w.ranges, w.maps, w.page, w.pageAddress)
    requires PoolOk(w.pool, w.ranges, w.maps, w.page, w.pageAddress) && b in w.blocks
    ensures !IsPoolVa(w.pool, b.va)
  {
    if w.pool.va != 0 {
      assert ApartFromRange(b, Range(w.pool.pfn, w.pool.nr), w.page, w.pageAddress);
    }
  }

  lemma {:induction false} BlockOutsidePool(w: World, extra: multiset<Block>, b: Block)
    requires Sound(w, extra) && b in w.blocks
    ensures !IsPoolVa(w.pool, b.va)
  {
    BlockIsNotInPool(w, b);
  }

  /** An entry's memory is outstanding: as a slice if it lies in the pool, as a kernel block otherwise. */
  lemma {:induction false} OwnerHasBlock(w: World, extra: multiset<Block>, i: nat)
    requires Sound(w, extra) && i < |w.bufs| && w.bufs[i].va != 0
    ensures IsPoolVa(w.pool, w.bufs[i].va) ==> BlockOf(w.bufs[i]) in w.slices && BlockOf(w.bufs[i]) !in w.blocks
    ensures !IsPoolVa(w.pool, w.bufs[i].va) ==> BlockOf(w.bufs[i]) in w.blocks && BlockOf(w.bufs[i]) !in w.slices
  {
    var b := BlockOf(w.bufs[i]);
    OwnedMember(w.bufs, i);
    assert b in OwnedBy(w.bufs[i]);
    assert b in multiset(w.blocks) + multiset(w.slices);
    if b in w.blocks {
      BlockIsNotInPool(w, b);
    }
  }

  /** The state after entry i has been given back. */
  function Dropped(w: World, i: nat): World
    requires i < |w.bufs|
  {
    var b := BlockOf(w.bufs[i]);
    if IsPoolVa(w.pool, b.va) then w.(slices := w.slices - {b}, bufs := w.bufs[i := EMPTY])
    else w.(blocks := w.blocks - {b}, bufs := w.bufs[i := EMPTY])
  }

  lemma {:induction false} BooksDropped(w: World, i: nat, extra: multiset<Block>)
    requires Sound(w, extra) && i < |w.bufs| && w.bufs[i].va != 0
    ensures var d := Dropped(w, i); Books(d.blocks, d.slices, d.bufs, d.held, d.sink, extra)
  {
    var d, b := Dropped(w, i), BlockOf(w.bufs[i]);
    OwnerHasBlock(w, extra, i);
    OwnedUpdate(w.bufs, i, EMPTY);
    TakeAway(multiset(w.blocks) + multiset(w.slices), Owned(w.bufs), HoldBlocks(w.held) + SinkBlocks(w.sink) + extra,
             Owned(d.bufs), OwnedBy(w.bufs[i]));
    MinusOne(w.blocks, w.slices, b);
  }

  lemma {:induction false} MinusOne<T>(a: set<T>, b: set<T>, x: T)
    ensures x in a && x !in b ==> multiset(a - {x}) + multiset(b) == multiset(a) + multiset(b) - multiset{x}
    ensures x in b && x !in a ==> multiset(a) + multiset(b - {x}) == multiset(a) + multiset(b) - multiset{x}
  {
  }

  lemma {:induction false} PlusOne<T>(a: set<T>, b: set<T>, x: T)
    ensures x !in a ==> multiset(a + {x}) + multiset(b) == multiset(a) + multiset(b) + multiset{x}
    ensures x !in b ==> multiset(a) + multiset(b + {x}) == multiset(a) + multiset(b) + multiset{x}
  {
  }

  lemma {:induction false} DropSound(w: World, i: nat, extra: multiset<Block>)
    requires Sound(w, extra) && i < |w.bufs| && w.bufs[i].va != 0
    ensures Sound(Dropped(w, i), extra)
  {
    BooksDropped(w, i, extra);
    BufsOkSet(w.bufs, i, EMPTY, w.pool);
  }

  /** A fresh kernel block is, for now, without an owner. */
  lemma {:induction false} AddBlock(w: World, b: Block, extra: multiset<Block>)
    requires Sound(w, extra) && b !in w.blocks
    requires KernelOk(w.blocks + {b}, w.ranges, w.maps, w.page, w.pageAddress)
    ensures Sound(w.(blocks := w.blocks + {b}), extra + multiset{b})
  {
    PlusOne(w.blocks, w.slices, b);
    assert Owned(w.bufs) + (HoldBlocks(w.held) + SinkBlocks(w.sink) + (extra + multiset{b}))
        == Owned(w.bufs) + (HoldBlocks(w.held) + SinkBlocks(w.sink) + extra) + multiset{b};
  }

  /** An ownerless block moves into the hold table. */
  lemma {:induction false} HoldBlockKept(w: World, h: Hold)
    requires Sound(w, multiset{HoldBlock(h)}) && h.va != 0
    ensures Sound(w.(held := w.held + [h]), multiset{})
  {
    OneMoreHold(w.held, h);
    HeldOkMore(w.held, h);
    MoveLast(HoldBlocks(w.held), SinkBlocks(w.sink), multiset{HoldBlock(h)});
  }

  lemma {:induction false} OneMoreHold(held: seq<Hold>, h: Hold)
    ensures HoldBlocks(held + [h]) == HoldBlocks(held) + multiset{HoldBlock(h)}
  {
    assert (held + [h])[..|held|] == held;
  }

  lemma {:induction false} HeldOkMore(held: seq<Hold>, h: Hold)
    requires HeldOk(held) && h.va != 0
    ensures HeldOk(held + [h])
  {
  }

  lemma {:induction false} MoveLast<T>(a: multiset<T>, b: multiset<T>, c: multiset<T>)
    ensures a + b + c == (a + c) + b + multiset{}
  {
  }

  /** An ownerless block becomes the sink. */
  lemma {:induction false} SinkKept(w: World, k: Sink)
    requires w.sink.va == 0 && k.va != 0 && Sound(w, SinkBlocks(k))
    ensures Sound(w.(sink := k), multiset{})
  {
    assert HoldBlocks(w.held) + SinkBlocks(w.sink) + SinkBlocks(k) == HoldBlocks(w.held) + SinkBlocks(k) + multiset{};
  }

  /** An ownerless block or slice becomes entry i. */
  lemma {:induction false} FillSound(w: World, i: nat, b: DmaBuf)
    requires i < |w.bufs| && w.bufs[i] == EMPTY && b.va != 0 && BufOk(b, w.pool)
    requires Sound(w, multiset{BlockOf(b)})
    ensures Sound(w.(bufs := w.bufs[i := b]), multiset{})
  {
    OwnedUpdate(w.bufs, i, b);
    BufsOkSet(w.bufs, i, b, w.pool);
    var rest := HoldBlocks(w.held) + SinkBlocks(w.sink);
    assert Owned(w.bufs) + (rest + multiset{BlockOf(b)}) == Owned(w.bufs) + multiset{BlockOf(b)} + (rest + multiset{});
    assert Owned(w.bufs[i := b]) + multiset{} == Owned(w.bufs) + OwnedBy(b);
    assert Owned(w.bufs[i := b]) == Owned(w.bufs) + multiset{BlockOf(b)};
  }

  /** The same, from what an allocation promises. */
  lemma {:induction false} FillSoundly(w: World, i: nat, b: DmaBuf)
    requires i < |w.bufs| && w.bufs[i] == EMPTY && b.va != 0 && b.len > 0 && Usable(b.phys * 8, b.len * 8)
    requires IsPoolVa(w.pool, b.va) ==> !b.coherent
    requires Sound(w, multiset{BlockOf(b)})
    ensures Sound(w.(bufs := w.bufs[i := b]), multiset{})
  {
    FillSound(w, i, b);
  }

  lemma {:induction false} EntryIsOk(w: World, i: nat)
    requires Sound(w, multiset{}) && i < |w.bufs|
    ensures BufOk(w.bufs[i], w.pool) && w.page > 0
  {
  }

  lemma {:induction false} KernelIsOk(w: World, extra: multiset<Block>)
    requires Sound(w, extra)
    ensures KernelOk(w.blocks, w.ranges, w.maps, w.page, w.pageAddress)
  {
  }

  /** Page-aligned bus addresses survive being shifted right and left by 3. */
  lemma {:induction false} WholePagesAreWords(w: World, extra: multiset<Block>, dma: nat)
    requires Sound(w, extra) && Aligned(dma, w.page)
    ensures dma / 8 * 8 == dma
  {
    PageIsWords(dma, w.page);
  }

  // ---------------------------------------------------------------- the pool

  lemma {:induction false} NoPoolNoSlices(w: World, extra: multiset<Block>)
    requires Sound(w, extra) && w.pool.va == 0
    ensures w.slices == {} && w.pool == NO_POOL && w.ranges == {} && w.maps == {}
  {
  }

  lemma {:induction false} PoolSizesArePages(w: World, sz: nat)
    requires Sound(w, multiset{}) && (sz == POOL_SIZE || sz == POOL_FALLBACK)
    ensures w.page > 0 && Aligned(sz, w.page) && Aligned(POOL_PHYS_LO, w.page)
    ensures w.page <= sz && sz / w.page > 0 && PageBytes(sz / w.page, w.page) == sz
    ensures w.pool.va != 0 ==> w.pool.sz >= w.page
  {
    TimesAligned(2, POOL_FALLBACK, w.page);
    TimesAligned(128, POOL_FALLBACK, w.page);
    QuotientPages(sz, w.page);
    assert Aligned(POOL_FALLBACK, w.page) && POOL_FALLBACK > 0;
  }

  ghost predicate Within(run: seq<Answer>, all: seq<Answer>) {
    forall a :: a in run ==> a in all
  }

  /** More answers take no reason away. */
  lemma {:induction false} PassedOverStill(run: seq<Answer>, all: seq<Answer>, n: nat, stride: nat, nr: nat, sz: nat,
                                           page: nat, pfnValid: nat -> bool, pageAddress: nat -> nat)
    requires nr > 0 && page > 0 && Within(run, all)
    requires PassedOverUpTo(run, n, stride, nr, sz, page, pfnValid, pageAddress)
    ensures PassedOverUpTo(all, n, stride, nr, sz, page, pfnValid, pageAddress)
  {
    forall k | 0 <= k < n && Candidate(k, stride) + sz <= POOL_PHYS_HI
      ensures PassedOver(all, Candidate(k, stride) / page, nr, sz, pfnValid, pageAddress)
    {
      assert PassedOver(run, Candidate(k, stride) / page, nr, sz, pfnValid, pageAddress);
    }
  }

  lemma {:induction false} GrantedStill(run: seq<Answer>, all: seq<Answer>, p: Pool)
    requires Within(run, all) && Granted(run, p)
    ensures Granted(all, p)
  {
  }

  /** One more candidate passed over. */
  lemma {:induction false} PassedOverNext(run: seq<Answer>, more: seq<Answer>, n: nat, stride: nat, nr: nat, sz: nat,
                                          page: nat, pfnValid: nat -> bool, pageAddress: nat -> nat)
    requires nr > 0 && page > 0
    requires PassedOverUpTo(run, n, stride, nr, sz, page, pfnValid, pageAddress)
    requires PassedOver(more, Candidate(n, stride) / page, nr, sz, pfnValid, pageAddress)
    ensures PassedOverUpTo(run + more, n + 1, stride, nr, sz, page, pfnValid, pageAddress)
  {
    PassedOverStill(run, run + more, n, stride, nr, sz, page, pfnValid, pageAddress);
    assert Within(more, run + more);
  }

  /** Once a candidate passes the upper limit, all later ones do. */
  lemma {:induction false} NoMoreCandidates(run: seq<Answer>, n: nat, m: nat, stride: nat, nr: nat, sz: nat, page: nat,
                                            pfnValid: nat -> bool, pageAddress: nat -> nat)
    requires nr > 0 && page > 0 && n <= m && Candidate(n, stride) + sz > POOL_PHYS_HI
    requires PassedOverUpTo(run, n, stride, nr, sz, page, pfnValid, pageAddress)
    ensures PassedOverUpTo(run, m, stride, nr, sz, page, pfnValid, pageAddress)
    decreases m - n
  {
    if n < m {
      assert Candidate(n + 1, stride) == Candidate(n, stride) + stride;
      NoMoreCandidates(run, n + 1, m, stride, nr, sz, page, pfnValid, pageAddress);
    }
  }

  lemma {:induction false} EmptyPoolIsUnused(w: World, extra: multiset<Block>)
    requires Sound(w, extra)
    ensures w.page > 0 && (w.pool.va == 0 ==> w.pool.off == 0)
  {
  }

  /** A contiguous range between the search limits is usable as its own bus address. */
  lemma {:induction false} IdentityPasses(phys: nat, sz: nat)
    requires POOL_PHYS_LO <= phys && phys + sz <= POOL_PHYS_HI && sz > 0
    ensures Usable(phys, sz)
  {
  }

  /** Taking a range as the pool disturbs no entry: none of them lies in it. */
  lemma {:induction false} PoolTaken(w: World, p: Pool, ranges: set<Range>, maps: set<Mapping>, extra: multiset<Block>)
    requires Sound(w, extra) && w.pool.va == 0 && p.va != 0
    requires KernelOk(w.blocks, ranges, maps, w.page, w.pageAddress)
    requires PoolOk(p, ranges, maps, w.page, w.pageAddress)
    ensures Sound(w.(pool := p, ranges := ranges, maps := maps), extra)
  {
    var w' := w.(pool := p, ranges := ranges, maps := maps);
    forall i | 0 <= i < |w.bufs| ensures BufOk(w.bufs[i], p) {
      assert BufOk(w.bufs[i], w.pool);
      if w.bufs[i].va != 0 {
        OwnerHasBlock(w, extra, i);
        BlockIsNotInPool(w', BlockOf(w.bufs[i]));
      }
    }
  }

  /** The slice the bump allocator cuts next. */
  function NextSlice(p: Pool, bytes: nat): Block {
    Block(Noncoherent, p.va + p.off, p.dma + p.off, bytes)
  }

  lemma {:induction false} SliceCut(w: World, bytes: nat)
    requires Sound(w, multiset{}) && w.pool.va != 0 && bytes > 0
    requires w.pool.off + AlignUp(bytes, w.page) <= w.pool.sz
    ensures var b := NextSlice(w.pool, bytes);
            && b !in w.slices && Usable(b.bus, bytes) && Aligned(b.bus, w.page)
            && Sound(w.(pool := w.pool.(off := w.pool.off + AlignUp(bytes, w.page)), slices := w.slices + {b}),
                     multiset{b})
  {
    var b, n := NextSlice(w.pool, bytes), AlignUp(bytes, w.page);
    AlignUpFits(bytes, w.page);
    SumAligned(w.pool.dma, w.pool.off, w.page);
    SumAligned(w.pool.off, n, w.page);
    NextSliceIsNew(w.slices, w.pool, bytes);
    BooksPlusSlice(w, b);
    SlicesGrow(w.slices, w.pool, w.pool.(off := w.pool.off + n), b);
    BufsOkOff(w.bufs, w.pool, w.pool.off + n);
  }

  lemma {:induction false} NextSliceIsNew(slices: set<Block>, p: Pool, bytes: nat)
    requires SlicesOk(slices, p)
    ensures NextSlice(p, bytes) !in slices
  {
    forall a | a in slices ensures a != NextSlice(p, bytes) {
      assert IsSlice(a, p);
    }
  }

  lemma {:induction false} BooksPlusSlice(w: World, b: Block)
    requires Books(w.blocks, w.slices, w.bufs, w.held, w.sink, multiset{}) && b !in w.slices
    ensures Books(w.blocks, w.slices + {b}, w.bufs, w.held, w.sink, multiset{b})
  {
    PlusOne(w.blocks, w.slices, b);
    assert Owned(w.bufs) + (HoldBlocks(w.held) + SinkBlocks(w.sink) + multiset{b})
        == Owned(w.bufs) + (HoldBlocks(w.held) + SinkBlocks(w.sink) + multiset{}) + multiset{b};
  }

  lemma {:induction false} BufsOkOff(bufs: seq<DmaBuf>, p: Pool, off: nat)
    requires BufsOk(bufs, p)
    ensures BufsOk(bufs, p.(off := off))
  {
    forall i | 0 <= i < |bufs| ensures BufOk(bufs[i], p.(off := off)) {
      assert BufOk(bufs[i], p);
    }
  }

  lemma {:induction false} SlicesGrow(slices: set<Block>, p: Pool, p': Pool, b: Block)
    requires SlicesOk(slices, p) && p.off <= p'.off <= p.sz && p' == p.(off := p'.off)
    requires b.kind == Noncoherent && b.va == p.va + p.off && b.bus == p.dma + p.off && b.bytes > 0
    requires p.off + b.bytes <= p'.off && p.va != 0
    ensures SlicesOk(slices + {b}, p')
  {
    forall a | a in slices ensures IsSlice(a, p') && BlocksApart(a, b) && BlocksApart(b, a) {
      assert IsSlice(a, p);
    }
    assert IsSlice(b, p');
  }

  /**
   How the pool meets a request for n bytes when o bytes of it are used: by the slice at o if that fits; if not,
   not at all, and this counts as exhaustion if there is a pool.
   */
  predicate PoolServed(o: nat, p: Pool, n: nat, va: nat, dma: nat, exhausted: int) {
    if p.va != 0 && o + n <= p.sz then va == p.va + o && dma == p.dma + o && p.off == o + n && exhausted == 0
    else p.off == o && exhausted == (if p.va != 0 then 1 else 0)
  }

  // ---------------------------------------------------------------- what the kernel was asked, and why it was given up

  /** The place of candidate k of the pool search. */
  function Candidate(k: nat, stride: nat): nat {
    POOL_PHYS_LO + PageBytes(k, stride)
  }

  /** Why the search passes over the nr pages at pfn: no such pages, refused, no address, or out of the card's reach. */
  ghost predicate PassedOver(run: seq<Answer>, pfn: nat, nr: nat, sz: nat,
                             pfnValid: nat -> bool, pageAddress: nat -> nat)
    requires nr > 0
  {
    || !pfnValid(pfn) || !pfnValid(pfn + nr - 1)
    || RangeAnswer(pfn, nr, false) in run
    || (RangeAnswer(pfn, nr, true) in run && pageAddress(pfn) == 0)
    || (exists bus :: MapAnswer(pfn, sz, true, bus) in run && !Usable(bus, sz))
  }

  /** The first n candidates for one size were passed over. */
  ghost predicate PassedOverUpTo(run: seq<Answer>, n: nat, stride: nat, nr: nat, sz: nat, page: nat,
                                 pfnValid: nat -> bool, pageAddress: nat -> nat)
    requires nr > 0 && page > 0
  {
    forall k :: 0 <= k < n && Candidate(k, stride) + sz <= POOL_PHYS_HI ==>
      PassedOver(run, Candidate(k, stride) / page, nr, sz, pfnValid, pageAddress)
  }

  /** The pool is what the kernel granted at pfn, mapped if the mapping succeeded and by its own address if not. */
  ghost predicate Granted(run: seq<Answer>, p: Pool) {
    && RangeAnswer(p.pfn, p.nr, true) in run
    && (if p.mapped then MapAnswer(p.pfn, p.sz, true, p.dma) in run
        else exists bus :: MapAnswer(p.pfn, p.sz, false, bus) in run)
  }

  predicate IsBlockAnswer(a: Answer, kind: Kind, bytes: nat) {
    a.BlockAnswer? && a.kind == kind && a.bytes == bytes
  }

  /** A block the card can reach. */
  predicate Good(a: Answer) {
    a.BlockAnswer? && a.va != 0 && Usable(a.bus, a.bytes)
  }

  /** The sink takes the first of the four sizes the kernel grants, and none if it grants none. */
  predicate SinkRun(run: seq<Answer>, k: Sink) {
    && 1 <= |run| <= |CMA_SIZES|
    && (forall j :: 0 <= j < |run| ==> IsBlockAnswer(run[j], Coherent, CMA_SIZES[j]))
    && (forall j :: 0 <= j < |run| - 1 ==> run[j].va == 0)
    && k.va == run[|run| - 1].va
    && (if k.va == 0 then |run| == |CMA_SIZES| else k.dma == run[|run| - 1].bus && k.sz == CMA_SIZES[|run| - 1])
  }

  /**
   The third path takes the first block within reach; it gives up when the kernel refuses, when the hold table
   has no room for a rejected block, or after 48 rejected ones.
   */
  predicate CoherentRun(run: seq<Answer>, bytes: nat, room: nat, va: nat, dma: nat) {
    && 1 <= |run| <= MAX_TRIES && |run| <= room + 1
    && (forall j :: 0 <= j < |run| ==> IsBlockAnswer(run[j], Coherent, bytes))
    && (forall j :: 0 <= j < |run| - 1 ==> run[j].va != 0 && !Good(run[j]))
    && var last := run[|run| - 1];
      if Good(last) then va == last.va && dma == last.bus
      else va == 0 && (last.va == 0 || |run| == room + 1 || |run| == MAX_TRIES)
  }

  /** What the second and third paths asked the kernel for: ordinary pages, the sink, coherent blocks. */
  datatype Trace = Trace(plain: seq<Answer>, drain: seq<Answer>, coherent: seq<Answer>)

  function Flat(t: Trace): seq<Answer> {
    t.plain + t.drain + t.coherent
  }

  /** How these two paths serve a request: with the ordinary pages if those are good, with coherent ones if not. */
  predicate KernelServed(t: Trace, bytes: nat, was: Sink, now: Sink, room: nat, va: nat, dma: nat, coherent: bool) {
    && |t.plain| == 1 && IsBlockAnswer(t.plain[0], Noncoherent, bytes)
    && if Good(t.plain[0])
       then t.drain == [] && t.coherent == [] && now == was && va == t.plain[0].va && dma == t.plain[0].bus && !coherent
       else && (if was.va != 0 then t.drain == [] && now == was else SinkRun(t.drain, now))
            && CoherentRun(t.coherent, bytes, room, va, dma) && (va != 0 ==> coherent)
  }

  /** What the entry then is: exactly the good block among the answers, and empty only if there was none. */
  ghost predicate ServedBy(t: Trace, e: DmaBuf) {
    && (forall a :: a in t.plain + t.coherent && Good(a) ==>
          e.va != 0 && BlockOf(e) == Block(a.kind, a.va, a.bus, a.bytes))
    && (e.va == 0 <==> forall a :: a in t.plain + t.coherent ==> !Good(a))
  }

  /** Nothing that the two paths obtained is lost on its way into the entry. */
  lemma {:induction false} EntryServed(t: Trace, bytes: nat, was: Sink, now: Sink, room: nat,
                                       va: nat, dma: nat, coherent: bool, e: DmaBuf)
    requires KernelServed(t, bytes, was, now, room, va, dma, coherent)
    requires if va == 0 then e == EMPTY
             else e.va == va && e.phys * 8 == dma && e.len * 8 == bytes && e.coherent == coherent
    ensures KernelServed(t, bytes, was, now, room, e.va, e.phys * 8, e.coherent) && ServedBy(t, e)
  {
    var all := t.plain + t.coherent;
    if Good(t.plain[0]) {
      assert t.plain[0] in all;
      assert forall a :: a in all ==> a == t.plain[0];
    } else {
      var last := t.coherent[|t.coherent| - 1];
      assert last in all;
      forall a | a in all && a != last ensures !Good(a) {
      }
    }
  }

  // ---------------------------------------------------------------- buffers stay apart

  /** No block has two entries for owners. */
  lemma {:induction false} OwnersDiffer(w: World, extra: multiset<Block>, i: nat, j: nat)
    requires Sound(w, extra) && i < j < |w.bufs| && w.bufs[i].va != 0 && w.bufs[j].va != 0
    ensures BlockOf(w.bufs[i]) != BlockOf(w.bufs[j])
  {
    var a := BlockOf(w.bufs[i]);
    OwnedTwo(w.bufs, i, j);
    OwnerHasBlock(w, extra, i);
    assert (multiset(w.blocks) + multiset(w.slices))[a] == 1;
    assert OwnedBy(w.bufs[i])[a] == 1;
    assert (OwnedBy(w.bufs[i]) + OwnedBy(w.bufs[j]))[a] <= Owned(w.bufs)[a] <= 1;
  }

  /** Any two live buffers are apart, for the CPU and for the card, whichever path served them. */
  lemma {:induction false} LiveBuffersApart(w: World, extra: multiset<Block>, i: nat, j: nat)
    requires Sound(w, extra) && i < j < |w.bufs| && w.bufs[i].va != 0 && w.bufs[j].va != 0
    ensures BlocksApart(BlockOf(w.bufs[i]), BlockOf(w.bufs[j]))
  {
    var a, b := BlockOf(w.bufs[i]), BlockOf(w.bufs[j]);
    OwnersDiffer(w, extra, i, j);
    OwnerHasBlock(w, extra, i);
    OwnerHasBlock(w, extra, j);
    if a in w.slices && b in w.blocks {
      BlockApartFromSlice(w, b, a);
    } else if a in w.blocks && b in w.slices {
      BlockApartFromSlice(w, a, b);
    }
  }

  lemma {:induction false} BlockApartFromSlice(w: World, b: Block, a: Block)
    requires KernelOk(w.blocks, w.ranges, w.maps, w.page, w.pageAddress)
    requires PoolOk(w.pool, w.ranges, w.maps, w.page, w.pageAddress)
    requires b in w.blocks && IsSlice(a, w.pool)
    ensures BlocksApart(a, b) && BlocksApart(b, a)
  {
    assert ApartFromRange(b, Range(w.pool.pfn, w.pool.nr), w.page, w.pageAddress);
    if w.pool.mapped {
      assert Mapping(w.pool.dma, w.pool.sz) in w.maps;
    }
  }

  /** A block the kernel has just handed out overlaps no live buffer. */
  lemma {:induction false} NewBlockApart(w: World, b: Block, i: nat)
    requires Sound(w, multiset{}) && b !in w.blocks && i < |w.bufs| && w.bufs[i].va != 0
    requires KernelOk(w.blocks + {b}, w.ranges, w.maps, w.page, w.pageAddress)
    ensures Apart(b.va, b.bytes, w.bufs[i].va, w.bufs[i].len * 8)
  {
    OwnerHasBlock(w, multiset{}, i);
    var a := BlockOf(w.bufs[i]);
    if a in w.slices {
      BlockApartFromSlice(w.(blocks := w.blocks + {b}), b, a);
    } else {
      assert a in w.blocks + {b} && b in w.blocks + {b};
    }
  }

  /** Every live buffer starts on a page of the bus. */
  lemma {:induction false} LiveBufferAligned(w: World, extra: multiset<Block>, i: nat)
    requires Sound(w, extra) && i < |w.bufs| && w.bufs[i].va != 0
    ensures Aligned(w.bufs[i].phys * 8, w.page)
  {
    OwnerHasBlock(w, extra, i);
  }

  /** Every live buffer lies below 2 GiB and outside the hole, so it is shorter than 2 GiB. */
  lemma {:induction false} LiveBufferReachable(w: World, extra: multiset<Block>, i: nat)
    requires Sound(w, extra) && i < |w.bufs| && w.bufs[i].va != 0
    ensures var dma, bytes := w.bufs[i].phys * 8, w.bufs[i].len * 8;
      && 0 < bytes < 0x8000_0000 && dma + bytes <= 0x8000_0000
      && (dma + bytes <= 0x3b00_0000 || 0x4000_0000 <= dma)
  {
    assert BufOk(w.bufs[i], w.pool);
  }

  /** The contents of all live buffers are the same. */
  ghost predicate Intact(bufs: seq<DmaBuf>, mem: Memory, mem': Memory) {
    forall i :: 0 <= i < |bufs| && bufs[i].va != 0 ==>
      Bytes(mem', bufs[i].va, bufs[i].len * 8) == Bytes(mem, bufs[i].va, bufs[i].len * 8)
  }

  /** The entry and the contents of its buffer are the same. */
  ghost predicate Kept(b: DmaBuf, b': DmaBuf, mem: Memory, mem': Memory) {
    b == b' && (b.va != 0 ==> Bytes(mem', b.va, b.len * 8) == Bytes(mem, b.va, b.len * 8))
  }

  /** A copy into one live buffer leaves the others alone. */
  lemma {:induction false} OthersApart(w: World, i: nat, count: nat)
    requires Sound(w, multiset{}) && i < |w.bufs| && w.bufs[i].va != 0 && count <= w.bufs[i].len * 8
    ensures forall j :: 0 <= j < |w.bufs| && j != i && w.bufs[j].va != 0 ==>
              Apart(w.bufs[i].va, count, w.bufs[j].va, w.bufs[j].len * 8)
  {
    forall j | 0 <= j < |w.bufs| && j != i && w.bufs[j].va != 0
      ensures Apart(w.bufs[i].va, count, w.bufs[j].va, w.bufs[j].len * 8)
    {
      LiveBuffersApart(w, multiset{}, if i < j then i else j, if i < j then j else i);
    }
  }

  lemma {:induction false} BytesPrefix(mem: Memory, va: nat, m: nat, n: nat)
    requires m <= n
    ensures Bytes(mem, va, m) == Bytes(mem, va, n)[..m]
  {
  }

  /** Every outstanding block or slice has exactly one owner, and nothing else has one. */
  lemma {:induction false} OneOwnerEach(w: World, b: Block)
    requires Sound(w, multiset{})
    ensures (Owned(w.bufs) + HoldBlocks(w.held) + SinkBlocks(w.sink))[b]
            == if b in w.blocks || b in w.slices then 1 else 0
  {
    assert Owned(w.bufs) + (HoldBlocks(w.held) + SinkBlocks(w.sink) + multiset{})
        == Owned(w.bufs) + HoldBlocks(w.held) + SinkBlocks(w.sink);
    assert (multiset(w.blocks) + multiset(w.slices))[b] == multiset(w.blocks)[b] + multiset(w.slices)[b];
    if b in w.blocks {
      BlockIsNotInPool(w, b);
      forall s | s in w.slices ensures s != b {
        assert IsSlice(s, w.pool);
      }
    }
  }

  // ---------------------------------------------------------------- fixed lengths

  function Used(bufs: seq<DmaBuf>): nat {
    if bufs == [] then 0 else Used(bufs[..|bufs| - 1]) + UsedBy(bufs[|bufs| - 1])
  }

  function UsedBy(b: DmaBuf): nat {
    if b.va == 0 then 0 else 1
  }

  lemma {:induction false} UsedUpdate(bufs: seq<DmaBuf>, i: nat, b: DmaBuf)
    requires i < |bufs|
    ensures Used(bufs[i := b]) + UsedBy(bufs[i]) == Used(bufs) + UsedBy(b)
    ensures Used(bufs) <= |bufs| - 1 + UsedBy(bufs[i])
  {
    var last := |bufs| - 1;
    var next := bufs[i := b];
    if i == last {
      assert next[..last] == bufs[..last];
      UsedAtMost(bufs[..last]);
    } else {
      UsedUpdate(bufs[..last], i, b);
      assert next[..last] == bufs[..last][i := b];
    }
  }

  lemma {:induction false} UsedAtMost(bufs: seq<DmaBuf>)
    ensures Used(bufs) <= |bufs|
  {
    if bufs != [] {
      UsedAtMost(bufs[..|bufs| - 1]);
    }
  }

  predicate FixedLens(lens: seq<nat>) {
    |lens| == MAX_BUFS && forall i :: 0 <= i < |lens| ==> lens[i] * 8 <= SLOT_MAX
  }

  /** Every entry is empty or of its fixed length, and the pool has lost at most 32 KiB to each used entry. */
  predicate Roomy(bufs: seq<DmaBuf>, p: Pool, lens: seq<nat>)
    requires FixedLens(lens)
  {
    && |bufs| == MAX_BUFS
    && (forall i :: 0 <= i < |bufs| ==> bufs[i] == EMPTY || (bufs[i].va != 0 && bufs[i].len == lens[i]))
    && p.off <= SLOT_MAX * Used(bufs)
  }

  lemma {:induction false} RoomyAtStart(bufs: seq<DmaBuf>, lens: seq<nat>)
    requires FixedLens(lens) && |bufs| == MAX_BUFS && forall i :: 0 <= i < |bufs| ==> bufs[i] == EMPTY
    ensures Roomy(bufs, NO_POOL, lens)
  {
  }

  lemma {:induction false} PoolIsOk(w: World)
    requires Sound(w, multiset{})
    ensures w.pool.va != 0 ==> w.pool.sz >= POOL_FALLBACK
    ensures w.pool.va == 0 ==> w.pool == NO_POOL
  {
  }

  // ---------------------------------------------------------------- teardown

  lemma {:induction false} HoldBlocksFirst(held: seq<Hold>)
    requires held != []
    ensures HoldBlocks(held) == multiset{HoldBlock(held[0])} + HoldBlocks(held[1..])
  {
    if |held| == 1 {
      assert held[..0] == [] && held[1..] == [];
    } else {
      var front, last := held[..|held| - 1], held[|held| - 1];
      HoldBlocksFirst(front);
      assert held[1..][..|held| - 2] == front[1..] && held[1..][|held| - 2] == last && front[0] == held[0];
      assert HoldBlocks(held[1..]) == HoldBlocks(front[1..]) + multiset{HoldBlock(last)};
      Regroup(multiset{HoldBlock(held[0])}, HoldBlocks(front[1..]), multiset{HoldBlock(last)});
    }
  }

  lemma {:induction false} Regroup<T>(a: multiset<T>, b: multiset<T>, c: multiset<T>)
    ensures a + b + c == a + (b + c)
  {
  }

  lemma {:induction false} HoldsAreCoherent(held: seq<Hold>, b: Block)
    requires b in HoldBlocks(held)
    ensures b.kind == Coherent
  {
    var front := held[..|held| - 1];
    if b in HoldBlocks(front) {
      HoldsAreCoherent(front, b);
    }
  }

  /** What only holds and the sink own is a kernel block. */
  lemma {:induction false} HoldsAreBlocks(w: World, b: Block)
    requires Sound(w, multiset{}) && (b in HoldBlocks(w.held) || b in SinkBlocks(w.sink))
    ensures b in w.blocks && b !in w.slices
  {
    if b in HoldBlocks(w.held) {
      HoldsAreCoherent(w.held, b);
    }
    assert b in Owned(w.bufs) + (HoldBlocks(w.held) + SinkBlocks(w.sink) + multiset{});
    assert b in multiset(w.blocks) + multiset(w.slices);
  }

  /** The first hold gives its block back. */
  lemma {:induction false} HoldFreed(w: World)
    requires Sound(w, multiset{}) && w.held != []
    ensures HoldBlock(w.held[0]) in w.blocks && w.held[0].va != 0
    ensures Sound(w.(blocks := w.blocks - {HoldBlock(w.held[0])}, held := w.held[1..]), multiset{})
  {
    var b := HoldBlock(w.held[0]);
    HoldBlocksFirst(w.held);
    HoldsAreBlocks(w, b);
    MinusOne(w.blocks, w.slices, b);
    FreedBooks(multiset(w.blocks) + multiset(w.slices), b, Owned(w.bufs), HoldBlocks(w.held[1..]), SinkBlocks(w.sink));
  }

  lemma {:induction false} FreedBooks<T>(all: multiset<T>, b: T, x: multiset<T>, y: multiset<T>, z: multiset<T>)
    requires all == x + (multiset{b} + y + z + multiset{})
    ensures all - multiset{b} == x + (y + z + multiset{})
  {
    assert all == x + (y + z + multiset{}) + multiset{b};
  }

  /** The sink gives its block back. */
  lemma {:induction false} SinkFreed(w: World, k: Sink)
    requires Sound(w, multiset{}) && w.sink.va != 0 && k.va == 0
    ensures Block(Coherent, w.sink.va, w.sink.dma, w.sink.sz) in w.blocks
    ensures Sound(w.(blocks := w.blocks - {Block(Coherent, w.sink.va, w.sink.dma, w.sink.sz)}, sink := k), multiset{})
  {
    var b := Block(Coherent, w.sink.va, w.sink.dma, w.sink.sz);
    assert b in SinkBlocks(w.sink);
    HoldsAreBlocks(w, b);
    MinusOne(w.blocks, w.slices, b);
    assert HoldBlocks(w.held) + SinkBlocks(w.sink) == multiset{b} + HoldBlocks(w.held);
    FreedBooks(multiset(w.blocks) + multiset(w.slices), b, Owned(w.bufs), HoldBlocks(w.held), multiset{});
  }

  /** With no entry, hold or sink left, nothing is outstanding. */
  lemma {:induction false} NothingOutstanding(w: World)
    requires Sound(w, multiset{}) && w.held == [] && w.sink.va == 0
    requires forall i :: 0 <= i < |w.bufs| ==> w.bufs[i] == EMPTY
    ensures w.blocks == {} && w.slices == {}
  {
    OwnedNone(w.bufs);
    assert multiset(w.blocks) + multiset(w.slices) == multiset{};
    forall b ensures b !in w.blocks && b !in w.slices {
      assert b !in multiset(w.blocks) + multiset(w.slices);
    }
  }

  /** The pool goes when no slice of it is in use. */
  lemma {:induction false} PoolReleased(w: World)
    requires Sound(w, multiset{}) && w.slices == {}
    requires forall i :: 0 <= i < |w.bufs| ==> w.bufs[i] == EMPTY
    ensures Sound(w.(pool := NO_POOL, ranges := {}, maps := {}), multiset{})
  {
  }
}

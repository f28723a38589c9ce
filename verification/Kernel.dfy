/**
 Page arithmetic with a page size that is not fixed. Products and remainders by the page size are given by
 recursion, so that only this module reasons about multiplication.
 */
module Paging {

  /** The bytes of n pages. */
  function PageBytes(n: nat, page: nat): nat {
    if n == 0 then 0 else PageBytes(n - 1, page) + page
  }

  /** A whole number of pages. */
  predicate Aligned(x: nat, page: nat)
    requires page > 0
  {
    x == 0 || (x >= page && Aligned(x - page, page))
  }

  /** ALIGN: rounds up to a whole number of pages. */
  function AlignUp(n: nat, page: nat): nat
    requires page > 0
  {
    if n == 0 then 0 else if n <= page then page else page + AlignUp(n - page, page)
  }

  lemma {:induction false} PageBytesIsProduct(n: nat, page: nat)
    ensures PageBytes(n, page) == n * page
  {
    if n > 0 {
      PageBytesIsProduct(n - 1, page);
      assert n * page == (n - 1) * page + page;
    }
  }

  lemma {:induction false} AlignedIsRemainder(x: nat, page: nat)
    requires page > 0
    ensures Aligned(x, page) <==> x % page == 0
  {
    if x >= page {
      AlignedIsRemainder(x - page, page);
      OnePageLess(x, page);
    }
  }

  lemma {:induction false} OnePageLess(x: nat, page: nat)
    requires page > 0 && x >= page
    ensures (x - page) % page == x % page && (x - page) / page == x / page - 1
  {
    var q, r := x / page, x % page;
    var q', r' := (x - page) / page, (x - page) % page;
    assert x == q * page + r && x - page == q' * page + r';
    assert (q' + 1) * page == q' * page + page;
    StrictTimes(q, q' + 1, page);
    StrictTimes(q' + 1, q, page);
  }

  lemma {:induction false} StrictTimes(a: nat, b: nat, page: nat)
    ensures a < b ==> a * page + page <= b * page
  {
    if a < b {
      assert (b - a) * page == b * page - a * page;
      assert b - a >= 1;
    }
  }

  lemma {:induction false} LessThanAPage(x: nat, page: nat)
    requires x < page
    ensures x / page == 0
  {
  }

  lemma {:induction false} TimesNext(q: nat, page: nat)
    ensures (q + 1) * page == q * page + page
  {
  }

  /** AlignUp is the usual rounding formula. */
  lemma {:induction false} AlignUpIsFormula(n: nat, page: nat)
    requires page > 0
    ensures AlignUp(n, page) == (n + page - 1) / page * page
  {
    if n == 0 {
      LessThanAPage(page - 1, page);
    } else {
      OnePageLess(n + page - 1, page);
      assert n + page - 1 - page == n - 1;
      TimesNext((n - 1) / page, page);
      if n <= page {
        LessThanAPage(n - 1, page);
      } else {
        AlignUpIsFormula(n - page, page);
        assert n - page + page - 1 == n - 1;
      }
    }
  }

  lemma {:induction false} PagesAreAligned(n: nat, page: nat)
    requires page > 0
    ensures Aligned(PageBytes(n, page), page)
  {
    if n > 0 {
      PagesAreAligned(n - 1, page);
    }
  }

  /** The page number of an aligned address gives the address back. */
  lemma {:induction false} QuotientPages(x: nat, page: nat)
    requires page > 0 && Aligned(x, page)
    ensures PageBytes(x / page, page) == x
  {
    if x > 0 {
      QuotientPages(x - page, page);
      OnePageLess(x, page);
    }
  }

  lemma {:induction false} SumAligned(x: nat, y: nat, page: nat)
    requires page > 0 && Aligned(x, page) && Aligned(y, page)
    ensures Aligned(x + y, page)
  {
    if x > 0 {
      SumAligned(x - page, y, page);
      assert x + y - page == x - page + y;
    }
  }

  lemma {:induction false} TimesAligned(k: nat, x: nat, page: nat)
    requires page > 0 && Aligned(x, page)
    ensures Aligned(k * x, page)
  {
    if k > 0 {
      TimesAligned(k - 1, x, page);
      SumAligned((k - 1) * x, x, page);
      assert k * x == (k - 1) * x + x;
    }
  }

  lemma {:induction false} AlignUpFits(n: nat, page: nat)
    requires page > 0
    ensures n <= AlignUp(n, page) < n + page
    ensures Aligned(AlignUp(n, page), page)
  {
    if n > page {
      AlignUpFits(n - page, page);
    }
  }

  /** Aligning up never passes a whole number of pages. */
  lemma {:induction false} AlignUpWithin(n: nat, limit: nat, page: nat)
    requires page > 0 && Aligned(limit, page) && n <= limit
    ensures AlignUp(n, page) <= limit
  {
    if n > page {
      AlignUpWithin(n - page, limit - page, page);
    }
  }

  /** A whole number of pages is a whole number of 8-byte words. */
  lemma {:induction false} PageIsWords(x: nat, page: nat)
    requires page > 0 && page % 8 == 0 && Aligned(x, page)
    ensures x % 8 == 0
  {
    if x > 0 {
      PageIsWords(x - page, page);
    }
  }
}

/**
 The part of the kernel the driver deals with: a nondeterministic allocator that remembers what it has given
 out to this driver. Freeing asks for a block that is outstanding, so a double free or a free with the wrong
 size, address or routine does not verify.

 Bus addresses and the physical pages of contiguous ranges are one space: a bus range handed out overlaps
 neither another live bus range nor the pages of a live contiguous range, except the range it maps itself.
 */
module Kernel {
  import opened Paging

  datatype Kind = Coherent | Noncoherent

  /** One dma_alloc_coherent or dma_alloc_noncoherent allocation. */
  datatype Block = Block(kind: Kind, va: nat, bus: nat, bytes: nat)

  /** One alloc_contig_range allocation. */
  datatype Range = Range(pfn: nat, nr: nat)

  /** One dma_map_single mapping. */
  datatype Mapping = Mapping(bus: nat, bytes: nat)

  /** What the kernel answered to one request: for memory (a null block has address 0), a copy or a mapping. */
  datatype Answer =
    | RangeAnswer(pfn: nat, nr: nat, ok: bool)
    | MapAnswer(pfn: nat, bytes: nat, ok: bool, bus: nat)
    | BlockAnswer(kind: Kind, bytes: nat, va: nat, bus: nat)
    | CopyAnswer(va: nat, bytes: nat, ok: bool)
    | RemapAnswer(off: nat, pfn: nat, bytes: nat, ret: int)

  predicate Apart(a: nat, aBytes: nat, b: nat, bBytes: nat) {
    a + aBytes <= b || b + bBytes <= a
  }

  predicate BlocksApart(a: Block, b: Block) {
    Apart(a.va, a.bytes, b.va, b.bytes) && Apart(a.bus, a.bytes, b.bus, b.bytes)
  }

  /** What every address holds. */
  type Memory = nat -> bv8

  /** The bytes stored from address `va` on. */
  function Bytes(mem: Memory, va: nat, n: nat): (r: seq<bv8>)
    ensures |r| == n
    ensures forall k :: 0 <= k < n ==> r[k] == mem(va + k)
  {
    seq(n, k requires 0 <= k < n => mem(va + k))
  }

  /** What a copy into memory does. */
  function Store(mem: Memory, va: nat, data: seq<bv8>): Memory {
    (a: nat) => if va <= a < va + |data| then data[a - va] else mem(a)
  }

  lemma {:induction false} StoreThenRead(mem: Memory, va: nat, data: seq<bv8>)
    ensures Bytes(Store(mem, va, data), va, |data|) == data
  {
  }

  lemma {:induction false} StoreElsewhere(mem: Memory, va: nat, data: seq<bv8>, b: nat, n: nat)
    requires Apart(va, |data|, b, n)
    ensures Bytes(Store(mem, va, data), b, n) == Bytes(mem, b, n)
  {
  }

  ghost predicate ApartFromRange(b: Block, r: Range, page: nat, pageAddress: nat -> nat) {
    && Apart(b.va, b.bytes, pageAddress(r.pfn), PageBytes(r.nr, page))
    && Apart(b.bus, b.bytes, PageBytes(r.pfn, page), PageBytes(r.nr, page))
  }

  /** Nothing handed out overlaps anything else handed out. */
  ghost predicate KernelOk(blocks: set<Block>, ranges: set<Range>, maps: set<Mapping>,
                           page: nat, pageAddress: nat -> nat) {
    && page > 0 && page % 8 == 0
    && (forall b :: b in blocks ==> b.va != 0 && b.bytes > 0 && Aligned(b.bus, page))
    && (forall a, b :: a in blocks && b in blocks && a != b ==> BlocksApart(a, b))
    && (forall b, r :: b in blocks && r in ranges ==> ApartFromRange(b, r, page, pageAddress))
    && (forall b, m :: b in blocks && m in maps ==> Apart(b.bus, b.bytes, m.bus, m.bytes))
  }

  class System {
    const page: nat           // PAGE_SIZE
    const pageblockPages: nat // pageblock_nr_pages
    const pfnValid: nat -> bool
    const pageAddress: nat -> nat // kernel address of a page frame, 0 if it has none

    var blocks: set<Block>
    var ranges: set<Range>
    var maps: set<Mapping>
    var mem: Memory
    ghost var answers: seq<Answer> // all answers so far

    ghost predicate Valid()
      reads this
    {
      KernelOk(blocks, ranges, maps, page, pageAddress)
    }

    constructor (page: nat, pageblockPages: nat, pfnValid: nat -> bool, pageAddress: nat -> nat)
      requires page > 0 && page % 8 == 0
      ensures Valid() && blocks == {} && ranges == {} && maps == {}
      ensures this.page == page
    {
      this.page, this.pageblockPages, this.pfnValid, this.pageAddress := page, pageblockPages, pfnValid, pageAddress;
      blocks, ranges, maps, mem, answers := {}, {}, {}, a => 0, [];
    }

    predicate Free(b: Block)
      reads this
      requires page > 0
    {
      && b.va != 0 && Aligned(b.bus, page) && b !in blocks
      && (forall a :: a in blocks ==> BlocksApart(a, b))
      && (forall r :: r in ranges ==>
            && Apart(b.va, b.bytes, pageAddress(r.pfn), PageBytes(r.nr, page))
            && Apart(b.bus, b.bytes, PageBytes(r.pfn, page), PageBytes(r.nr, page)))
      && (forall m :: m in maps ==> Apart(b.bus, b.bytes, m.bus, m.bytes))
    }

    /** dma_alloc_coherent / dma_alloc_noncoherent: NULL, or a fresh block with whatever contents. */
    method DmaAlloc(kind: Kind, bytes: nat) returns (va: nat, bus: nat)
      requires Valid() && bytes > 0
      modifies this`blocks, this`mem, this`answers
      ensures Valid() && answers == old(answers) + [BlockAnswer(kind, bytes, va, bus)]
      ensures va == 0 ==> blocks == old(blocks) && mem == old(mem)
      ensures va != 0 ==> var b := Block(kind, va, bus, bytes);
                b !in old(blocks) && blocks == old(blocks) + {b} && Aligned(bus, page)
      ensures va != 0 ==> forall a, n :: Apart(va, bytes, a, n) ==> Bytes(mem, a, n) == Bytes(old(mem), a, n)
    {
      va, bus := *, *;
      var b := Block(kind, va, bus, bytes);
      if Free(b) {
        var junk: seq<bv8> := *;
        if |junk| == bytes {
          forall a, n | Apart(va, bytes, a, n)
            ensures Bytes(Store(mem, va, junk), a, n) == Bytes(mem, a, n)
          {
            StoreElsewhere(mem, va, junk, a, n);
          }
          mem := Store(mem, va, junk);
        }
        blocks := blocks + {b};
      } else {
        va := 0;
      }
      answers := answers + [BlockAnswer(kind, bytes, va, bus)];
    }

    /** dma_free_coherent / dma_free_noncoherent. */
    method DmaFree(kind: Kind, bytes: nat, va: nat, bus: nat)
      requires Valid() && Block(kind, va, bus, bytes) in blocks
      modifies this`blocks
      ensures Valid() && blocks == old(blocks) - {Block(kind, va, bus, bytes)}
    {
      blocks := blocks - {Block(kind, va, bus, bytes)};
    }

    /** alloc_contig_range: fails, or takes page frames that nothing live overlaps. */
    method AllocContigRange(pfn: nat, nr: nat) returns (ok: bool)
      requires Valid()
      modifies this`ranges, this`answers
      ensures Valid() && answers == old(answers) + [RangeAnswer(pfn, nr, ok)]
      ensures ok ==> Range(pfn, nr) !in old(ranges) && ranges == old(ranges) + {Range(pfn, nr)}
      ensures !ok ==> ranges == old(ranges)
    {
      ok := *;
      var r := Range(pfn, nr);
      ok := ok && r !in ranges && forall b :: b in blocks ==>
              && Apart(b.va, b.bytes, pageAddress(pfn), PageBytes(nr, page))
              && Apart(b.bus, b.bytes, PageBytes(pfn, page), PageBytes(nr, page));
      if ok {
        ranges := ranges + {r};
      }
      answers := answers + [RangeAnswer(pfn, nr, ok)];
    }

    method FreeContigRange(pfn: nat, nr: nat)
      requires Valid() && Range(pfn, nr) in ranges
      modifies this`ranges
      ensures Valid() && ranges == old(ranges) - {Range(pfn, nr)}
    {
      ranges := ranges - {Range(pfn, nr)};
    }

    /** dma_map_single of memory that starts on a page: an error, or a page-aligned bus address. */
    method DmaMapSingle(pfn: nat, bytes: nat) returns (ok: bool, bus: nat)
      requires Valid()
      modifies this`maps, this`answers
      ensures Valid() && answers == old(answers) + [MapAnswer(pfn, bytes, ok, bus)]
      ensures ok ==> Mapping(bus, bytes) !in old(maps) && maps == old(maps) + {Mapping(bus, bytes)}
      ensures ok ==> Aligned(bus, page)
      ensures !ok ==> maps == old(maps)
    {
      bus := *;
      var m := Mapping(bus, bytes);
      ok := Aligned(bus, page) && m !in maps && forall b :: b in blocks ==> Apart(b.bus, b.bytes, bus, bytes);
      if ok {
        maps := maps + {m};
      }
      answers := answers + [MapAnswer(pfn, bytes, ok, bus)];
    }

    method DmaUnmapSingle(bus: nat, bytes: nat)
      requires Valid() && Mapping(bus, bytes) in maps
      modifies this`maps
      ensures Valid() && maps == old(maps) - {Mapping(bus, bytes)}
    {
      maps := maps - {Mapping(bus, bytes)};
    }

    /** copy_from_user into kernel memory; after a fault the destination bytes are whatever they are. */
    method CopyFromUser(va: nat, data: seq<bv8>) returns (ok: bool)
      modifies this`mem, this`answers
      ensures answers == old(answers) + [CopyAnswer(va, |data|, ok)]
      ensures ok ==> mem == Store(old(mem), va, data)
      ensures forall a, n :: Apart(va, |data|, a, n) ==> Bytes(mem, a, n) == Bytes(old(mem), a, n)
    {
      var written: seq<bv8> := *;
      ok := *;
      if ok || |written| != |data| {
        ok, written := true, data;
      }
      forall a, n | Apart(va, |data|, a, n)
        ensures Bytes(Store(mem, va, written), a, n) == Bytes(mem, a, n)
      {
        StoreElsewhere(mem, va, written, a, n);
      }
      mem := Store(mem, va, written);
      answers := answers + [CopyAnswer(va, |data|, ok)];
    }

    /** copy_to_user out of kernel memory. */
    method CopyToUser(va: nat, n: nat) returns (ok: bool, data: seq<bv8>)
      modifies this`answers
      ensures answers == old(answers) + [CopyAnswer(va, n, ok)]
      ensures ok ==> data == Bytes(mem, va, n)
    {
      ok := *;
      data := if ok then Bytes(mem, va, n) else [];
      answers := answers + [CopyAnswer(va, n, ok)];
    }

    /** remap_pfn_range, at an offset into the area. */
    method RemapPfnRange(off: nat, pfn: nat, bytes: nat) returns (ret: int)
      modifies this`answers
      ensures answers == old(answers) + [RemapAnswer(off, pfn, bytes, ret)]
    {
      ret := *;
      answers := answers + [RemapAnswer(off, pfn, bytes, ret)];
    }
  }
}

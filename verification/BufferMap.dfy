/** What mapping the driver's buffers into a process gives: one run of bytes, buffer after buffer. */
module BufferMap {
  import opened Kernel
  import opened Paging
  import opened DmaBooks

  /** One successful remap: the bytes from user offset `off` on are those of buffer `idx`, which starts at page pfn. */
  datatype Segment = Segment(off: nat, idx: nat, pfn: nat, bytes: nat)

  /** The bytes of the first n buffers. */
  function Before(bufs: seq<DmaBuf>, n: nat): nat
    requires n <= |bufs|
  {
    if n == 0 then 0 else Before(bufs, n - 1) + bufs[n - 1].len * 8
  }

  /** How many of the entries from i on are used before the first empty one. */
  function Leading(bufs: seq<DmaBuf>, i: nat): (n: nat)
    requires i <= |bufs|
    ensures i <= n <= |bufs|
    ensures forall k :: i <= k < n ==> bufs[k].va != 0
    ensures n < |bufs| ==> bufs[n].va == 0
    decreases |bufs| - i
  {
    if i == |bufs| || bufs[i].va == 0 then i else Leading(bufs, i + 1)
  }

  lemma {:induction false} LeadingIs(bufs: seq<DmaBuf>, n: nat)
    requires n <= |bufs| && forall k :: 0 <= k < n ==> bufs[k].va != 0
    ensures n <= Leading(bufs, 0)
    ensures n == |bufs| || bufs[n].va == 0 ==> n == Leading(bufs, 0)
    ensures Before(bufs, n) <= Before(bufs, Leading(bufs, 0))
  {
    BeforeGrows(bufs, n, Leading(bufs, 0));
  }

  function Min(a: nat, b: nat): nat {
    if a <= b then a else b
  }

  function AreaLength(vmStart: nat, vmEnd: nat): nat {
    if vmStart < vmEnd then vmEnd - vmStart else 0
  }

  /** The page a buffer is mapped from: that of its kernel address, or of its bus address if that has none. */
  function PageOf(b: DmaBuf, page: nat, pagePfn: nat -> nat): nat
    requires page > 0
  {
    if pagePfn(b.va) != 0 then pagePfn(b.va) else b.phys * 8 / page
  }

  /** Segment n of the run. */
  function Next(bufs: seq<DmaBuf>, vmLen: nat, n: nat, page: nat, pagePfn: nat -> nat): Segment
    requires page > 0 && n < |bufs| && Before(bufs, n) < vmLen
  {
    Segment(Before(bufs, n), n, PageOf(bufs[n], page, pagePfn), Min(bufs[n].len * 8, vmLen - Before(bufs, n)))
  }

  ghost predicate IsNext(bufs: seq<DmaBuf>, vmLen: nat, seg: Segment, n: nat, page: nat, pagePfn: nat -> nat)
    requires page > 0 && n < |bufs|
  {
    bufs[n].va != 0 && Before(bufs, n) < vmLen && seg == Next(bufs, vmLen, n, page, pagePfn)
  }

  ghost predicate Mapped(bufs: seq<DmaBuf>, vmLen: nat, segs: seq<Segment>, page: nat, pagePfn: nat -> nat)
    requires page > 0
  {
    |segs| <= |bufs| && forall k :: 0 <= k < |segs| ==> IsNext(bufs, vmLen, segs[k], k, page, pagePfn)
  }

  lemma {:induction false} MappedNext(bufs: seq<DmaBuf>, vmLen: nat, segs: seq<Segment>, page: nat, pagePfn: nat -> nat)
    requires page > 0 && Mapped(bufs, vmLen, segs, page, pagePfn)
    requires |segs| < |bufs| && bufs[|segs|].va != 0 && Before(bufs, |segs|) < vmLen
    ensures Mapped(bufs, vmLen, segs + [Next(bufs, vmLen, |segs|, page, pagePfn)], page, pagePfn)
    ensures Min(vmLen, Before(bufs, |segs| + 1))
         == Min(vmLen, Before(bufs, |segs|)) + Next(bufs, vmLen, |segs|, page, pagePfn).bytes
  {
    var next := Next(bufs, vmLen, |segs|, page, pagePfn);
    var more := segs + [next];
    NextEnds(bufs, vmLen, |segs|, page, pagePfn);
    assert IsNext(bufs, vmLen, next, |segs|, page, pagePfn);
    hide IsNext;
    hide Next;
    forall k | 0 <= k < |more| ensures IsNext(bufs, vmLen, more[k], k, page, pagePfn) {
      assert more[k] == if k < |segs| then segs[k] else next;
    }
  }

  lemma {:induction false} NextEnds(bufs: seq<DmaBuf>, vmLen: nat, n: nat, page: nat, pagePfn: nat -> nat)
    requires page > 0 && n < |bufs| && Before(bufs, n) < vmLen
    ensures Min(vmLen, Before(bufs, n + 1))
         == Min(vmLen, Before(bufs, n)) + Next(bufs, vmLen, n, page, pagePfn).bytes
  {
  }

  function Length(segs: seq<Segment>): nat {
    if segs == [] then 0 else segs[|segs| - 1].off + segs[|segs| - 1].bytes
  }

  lemma {:induction false} BeforeGrows(bufs: seq<DmaBuf>, m: nat, n: nat)
    requires m <= n <= |bufs|
    ensures Before(bufs, m) <= Before(bufs, n)
    ensures m < n ==> Before(bufs, m) + bufs[m].len * 8 <= Before(bufs, n)
  {
    if m < n {
      BeforeGrows(bufs, m, n - 1);
    }
  }

  /** The buffer that holds byte x of the run. */
  function Locate(bufs: seq<DmaBuf>, x: nat, i: nat): (n: nat)
    requires i <= |bufs| && Before(bufs, i) <= x < Before(bufs, |bufs|)
    ensures i <= n < |bufs| && Before(bufs, n) <= x < Before(bufs, n) + bufs[n].len * 8
    decreases |bufs| - i
  {
    if x < Before(bufs, i + 1) then i else Locate(bufs, x, i + 1)
  }

  /** The kernel's answer to a request to map a segment. */
  function Remap(seg: Segment, ret: int): Answer {
    RemapAnswer(seg.off, seg.pfn, seg.bytes, ret)
  }

  lemma {:induction false} RemapIs(seg: Segment, ret: int)
    ensures Remap(seg, ret) == RemapAnswer(seg.off, seg.pfn, seg.bytes, ret)
  {
  }

  /** The answers for segments that were all mapped. */
  function AllMapped(segs: seq<Segment>): (r: seq<Answer>)
    ensures |r| == |segs|
  {
    seq(|segs|, k requires 0 <= k < |segs| => Remap(segs[k], 0))
  }

  lemma {:induction false} MappedNone(bufs: seq<DmaBuf>, vmLen: nat, page: nat, pagePfn: nat -> nat)
    requires page > 0
    ensures Mapped(bufs, vmLen, [], page, pagePfn)
  {
  }

  /** How long the run is; it is complete once the area is full or the next entry is empty. */
  lemma {:induction false} LengthIs(bufs: seq<DmaBuf>, vmLen: nat, segs: seq<Segment>, page: nat, pagePfn: nat -> nat)
    requires page > 0 && Mapped(bufs, vmLen, segs, page, pagePfn)
    ensures |segs| <= |bufs| && Length(segs) == Min(vmLen, Before(bufs, |segs|))
    ensures Length(segs) == vmLen || |segs| == |bufs| || bufs[|segs|].va == 0 ==>
              Length(segs) == Min(vmLen, Before(bufs, Leading(bufs, 0)))
  {
    forall k | 0 <= k < |segs| ensures bufs[k].va != 0 {
      assert IsNext(bufs, vmLen, segs[k], k, page, pagePfn);
    }
    LeadingIs(bufs, |segs|);
  }

  /**
   How mapping ends. Without failure the run is as long as the area or the allocated prefix allows; with one there
   is a segment still to map.
   */
  ghost predicate MapResult(bufs: seq<DmaBuf>, vmLen: nat, segs: seq<Segment>, ret: int, page: nat, pagePfn: nat -> nat)
    requires page > 0
  {
    && Mapped(bufs, vmLen, segs, page, pagePfn)
    && (ret == 0 ==> Length(segs) == Min(vmLen, Before(bufs, Leading(bufs, 0))))
    && (ret != 0 ==> |segs| < |bufs| && bufs[|segs|].va != 0 && Before(bufs, |segs|) < vmLen)
  }

  /** The answers then: those of the segments mapped, all 0, and on failure the refusal of the next one. */
  ghost function Remaps(bufs: seq<DmaBuf>, vmLen: nat, segs: seq<Segment>, ret: int, page: nat, pagePfn: nat -> nat)
    : seq<Answer>
    requires page > 0 && MapResult(bufs, vmLen, segs, ret, page, pagePfn)
  {
    AllMapped(segs) + (if ret == 0 then [] else [Remap(Next(bufs, vmLen, |segs|, page, pagePfn), ret)])
  }

  lemma {:induction false} MappedWhole(bufs: seq<DmaBuf>, vmLen: nat, segs: seq<Segment>, page: nat,
                                       pagePfn: nat -> nat)
    requires page > 0 && Mapped(bufs, vmLen, segs, page, pagePfn)
    requires Min(vmLen, Before(bufs, |segs|)) == vmLen || |segs| == |bufs| || bufs[|segs|].va == 0
    ensures MapResult(bufs, vmLen, segs, 0, page, pagePfn)
    ensures Remaps(bufs, vmLen, segs, 0, page, pagePfn) == AllMapped(segs)
  {
    LengthIs(bufs, vmLen, segs, page, pagePfn);
  }

  lemma {:induction false} MappedPart(bufs: seq<DmaBuf>, vmLen: nat, segs: seq<Segment>, ret: int, page: nat,
                                      pagePfn: nat -> nat)
    requires page > 0 && Mapped(bufs, vmLen, segs, page, pagePfn) && ret != 0
    requires |segs| < |bufs| && bufs[|segs|].va != 0 && Before(bufs, |segs|) < vmLen
    ensures MapResult(bufs, vmLen, segs, ret, page, pagePfn)
    ensures Remaps(bufs, vmLen, segs, ret, page, pagePfn)
         == AllMapped(segs) + [Remap(Next(bufs, vmLen, |segs|, page, pagePfn), ret)]
  {
  }

  lemma {:induction false} OneMoreMapped(segs: seq<Segment>, seg: Segment)
    ensures AllMapped(segs + [seg]) == AllMapped(segs) + [Remap(seg, 0)]
  {
  }

  /** Every byte of the run lies in exactly one segment, and is byte x - Before(i) of the buffer i mapped there. */
  lemma {:induction false} EveryByteOnce(bufs: seq<DmaBuf>, vmLen: nat, segs: seq<Segment>, page: nat,
                                         pagePfn: nat -> nat, x: nat)
    requires page > 0 && Mapped(bufs, vmLen, segs, page, pagePfn) && x < Length(segs)
    ensures Before(bufs, 0) <= x < Before(bufs, |bufs|)
    ensures var i := Locate(bufs, x, 0);
      && i < |segs| && segs[i].idx == i && segs[i].off <= x < segs[i].off + segs[i].bytes
      && x - segs[i].off == x - Before(bufs, i) < bufs[i].len * 8
      && forall k :: 0 <= k < |segs| && segs[k].off <= x < segs[k].off + segs[k].bytes ==> k == i
  {
    LengthIs(bufs, vmLen, segs, page, pagePfn);
    BeforeGrows(bufs, |segs|, |bufs|);
    var i := Locate(bufs, x, 0);
    if |segs| <= i {
      BeforeGrows(bufs, |segs|, i);
    }
    forall k | 0 <= k < |segs| && segs[k].off <= x < segs[k].off + segs[k].bytes ensures k == i {
      if k < i {
        BeforeGrows(bufs, k, i);
      } else if i < k {
        BeforeGrows(bufs, i, k);
      }
    }
  }

  /**
   Which memory that is: the kernel page of the buffer, if it has one, at the same distance into it as byte x is
   into the buffer; for a buffer without, the page of its bus address.
   */
  lemma {:induction false} EveryByteIsTheBuffers(bufs: seq<DmaBuf>, vmLen: nat, segs: seq<Segment>, page: nat,
                                                 pagePfn: nat -> nat, pageAddress: nat -> nat, x: nat)
    requires page > 0 && Mapped(bufs, vmLen, segs, page, pagePfn) && x < Length(segs)
    requires forall i :: 0 <= i < |bufs| && bufs[i].va != 0 ==> Aligned(bufs[i].phys * 8, page)
    requires forall i :: 0 <= i < |bufs| && bufs[i].va != 0 && pagePfn(bufs[i].va) != 0 ==>
               pageAddress(pagePfn(bufs[i].va)) == bufs[i].va
    ensures Before(bufs, 0) <= x < Before(bufs, |bufs|)
    ensures var i := Locate(bufs, x, 0);
      && i < |segs| && segs[i].off <= x < segs[i].off + segs[i].bytes
      && (if pagePfn(bufs[i].va) != 0
          then pageAddress(segs[i].pfn) + (x - segs[i].off) == bufs[i].va + (x - Before(bufs, i))
          else PageBytes(segs[i].pfn, page) + (x - segs[i].off) == bufs[i].phys * 8 + (x - Before(bufs, i)))
  {
    EveryByteOnce(bufs, vmLen, segs, page, pagePfn, x);
    var b := bufs[Locate(bufs, x, 0)];
    assert b.va != 0;
    QuotientPages(b.phys * 8, page);
  }

  /** With whole-page buffers every segment starts on a page, and each segment ends where the next one starts. */
  lemma {:induction false} SegmentsMeet(bufs: seq<DmaBuf>, vmLen: nat, segs: seq<Segment>, page: nat,
                                        pagePfn: nat -> nat, k: nat)
    requires page > 0 && Mapped(bufs, vmLen, segs, page, pagePfn) && k < |segs|
    requires forall i :: 0 <= i < |bufs| ==> Aligned(bufs[i].len * 8, page)
    ensures Aligned(segs[k].off, page)
    ensures k + 1 < |segs| ==> segs[k + 1].off == segs[k].off + segs[k].bytes
  {
    BeforeAligned(bufs, k, page);
  }

  lemma {:induction false} BeforeAligned(bufs: seq<DmaBuf>, n: nat, page: nat)
    requires page > 0 && n <= |bufs|
    requires forall i :: 0 <= i < |bufs| ==> Aligned(bufs[i].len * 8, page)
    ensures Aligned(Before(bufs, n), page)
  {
    if n > 0 {
      BeforeAligned(bufs, n - 1, page);
      SumAligned(Before(bufs, n - 1), bufs[n - 1].len * 8, page);
    }
  }
}

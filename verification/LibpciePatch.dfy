/**
 The script that widens the completion mask in a closed library: it looks for a code pattern and, if it is
 there exactly once, overwrites it in place.
 */
module LibpciePatch {
  import C = CompletionDrain

  type Byte = b: int | 0 <= b < 256

  datatype Patch = Patch(vendor: seq<Byte>, fixed: seq<Byte>)

  const OLD86: seq<Byte> := [0x83, 0x65, 0xe4, 0x3f, 0x83, 0x7d, 0xe4, 0x00, 0x0f, 0x84, 0xc1, 0x00, 0x00, 0x00,
                             0xe9, 0xa0, 0x00, 0x00, 0x00]
  const NEW86: seq<Byte> := [0x8b, 0x45, 0xe4, 0x25, 0xff, 0x01, 0x00, 0x00, 0x89, 0x45, 0xe4,
                             0xe9, 0xa3, 0x00, 0x00, 0x00, 0x90, 0x90, 0x90]
  const OLDARM: seq<Byte> := [0xe0, 0x3f, 0x40, 0xb9, 0x00, 0x14, 0x00, 0x12, 0xe0, 0x3f, 0x00, 0xb9]
  const NEWARM: seq<Byte> := [0xe0, 0x3f, 0x40, 0xb9, 0x00, 0x20, 0x00, 0x12, 0xe0, 0x3f, 0x00, 0xb9]

  const PATCHES := [Patch(OLD86, NEW86), Patch(OLDARM, NEWARM)]

  // ---------------------------------------------------------------- what the patterns say

  /** The number some bytes stand for, lowest first. */
  function LittleEndian(bytes: seq<Byte>): nat {
    if bytes == [] then 0 else bytes[0] + 256 * LittleEndian(bytes[1..])
  }

  lemma {:induction false} FourBytes(bytes: seq<Byte>)
    requires |bytes| == 4
    ensures var b0: int, b1: int, b2: int, b3: int := bytes[0], bytes[1], bytes[2], bytes[3];
            LittleEndian(bytes) == b0 + 0x100 * b1 + 0x1_0000 * b2 + 0x100_0000 * b3
  {
    var three, two, one := bytes[1..], bytes[2..], bytes[3..];
    assert three[1..] == two && two[1..] == one && one[1..] == [];
    assert LittleEndian(one) == bytes[3];
    assert LittleEndian(two) == bytes[2] + 256 * LittleEndian(one);
    assert LittleEndian(three) == bytes[1] + 256 * LittleEndian(two);
  }

  function Pow2(n: nat): nat {
    if n == 0 then 1 else 2 * Pow2(n - 1)
  }

  /** x86: the code starts by masking, with `and [rbp+disp8], imm8` or with `and eax, imm32`. */
  predicate Masks86(code: seq<Byte>, mask: nat) {
    || (|code| >= 4 && code[0] == 0x83 && code[1] == 0x65 && mask == code[3] < 0x80)
    || (|code| >= 5 && code[0] == 0x25 && mask == LittleEndian(code[1..5]))
  }

  /** aarch64: the word masks a 32-bit register; its immediate stands for imms + 1 ones, not rotated. */
  predicate MasksArm(word: nat, mask: nat) {
    var immr, imms := word / 0x1_0000 % 64, word / 0x400 % 64;
    word / 0x40_0000 == 0x48 && immr == 0 && imms < 31 && mask == Pow2(imms + 1) - 1
  }

  /** x86: the pattern masks with 0x3f and its replacement with 0x1ff, so counts modulo 64 become counts modulo 512. */
  lemma {:induction false} PatternsMask86()
    ensures Masks86(OLD86, C.VENDOR_MODULUS - 1)
    ensures Masks86(NEW86[3..], C.PATCHED_MODULUS - 1)
  {
    FourBytes(NEW86[3..][1..5]);
  }

  /** The same for aarch64. */
  lemma {:induction false} PatternsMaskArm()
    ensures MasksArm(LittleEndian(OLDARM[4..8]), C.VENDOR_MODULUS - 1)
    ensures MasksArm(LittleEndian(NEWARM[4..8]), C.PATCHED_MODULUS - 1)
  {
    FourBytes(OLDARM[4..8]);
    FourBytes(NEWARM[4..8]);
    assert Pow2(3) == 8;
    assert Pow2(6) == 64;
    assert Pow2(9) == 512;
  }

  /**
   The rest is as it was: the replacement loads and stores the variable that was masked in place (x86) or the same
   one (aarch64), and the x86 jump after it, whose displacement counts from its end, goes where the old one went.
   */
  lemma {:induction false} PatternsKeepRest()
    ensures |OLD86| == |NEW86| == 19 && |OLDARM| == |NEWARM| == 12
    ensures NEW86[2] == NEW86[10] == OLD86[2] == OLD86[6]
    ensures OLD86[14] == NEW86[11] == 0xe9 && 19 + LittleEndian(OLD86[15..19]) == 16 + LittleEndian(NEW86[12..16])
    ensures forall i :: 0 <= i < 12 && i != 5 ==> OLDARM[i] == NEWARM[i]
  {
    assert OLD86[15..19] == [0xa0, 0x00, 0x00, 0x00] && NEW86[12..16] == [0xa3, 0x00, 0x00, 0x00];
    FourBytes(OLD86[15..19]);
    FourBytes(NEW86[12..16]);
  }

  // ---------------------------------------------------------------- searching

  predicate IsAt(data: seq<Byte>, p: seq<Byte>, i: int) {
    0 <= i && i + |p| <= |data| && data[i..i + |p|] == p
  }

  /** The matches a left-to-right search that never overlaps two matches finds from `from` on. */
  function Hits(data: seq<Byte>, p: seq<Byte>, from: nat): (h: seq<nat>)
    requires p != []
    ensures forall i :: i in h ==> from <= i && IsAt(data, p, i)
    decreases |data| - from
  {
    if from + |p| > |data| then []
    else if IsAt(data, p, from) then [from] + Hits(data, p, from + |p|)
    else Hits(data, p, from + 1)
  }

  /** p laid over w, d places to the right, disagrees with it somewhere. */
  ghost predicate Clash(p: seq<Byte>, w: seq<Byte>, d: int) {
    exists t :: 0 <= t < |p| && 0 <= t + d < |w| && p[t] != w[t + d]
  }

  /** p and w cannot overlap, unless they are the same and lie on top of each other. */
  ghost predicate NeverOverlap(p: seq<Byte>, w: seq<Byte>) {
    forall d :: -|p| < d < |w| && (d != 0 || p != w) ==> Clash(p, w, d)
  }

  /** For a pattern that cannot overlap itself, the search finds all matches. */
  lemma {:induction false} HitsAreAll(data: seq<Byte>, p: seq<Byte>, from: nat, i: int)
    requires p != [] && NeverOverlap(p, p)
    ensures i in Hits(data, p, from) <==> from <= i && IsAt(data, p, i)
    decreases |data| - from
  {
    if from + |p| <= |data| {
      if IsAt(data, p, from) {
        var rest := Hits(data, p, from + |p|);
        HitsAreAll(data, p, from + |p|, i);
        if from < i < from + |p| {
          NoOverlapAt(data, p, p, i, from);
        }
        assert i in [from] + rest <==> i == from || i in rest;
      } else {
        HitsAreAll(data, p, from + 1, i);
      }
    }
  }

  /** Where w lies, nothing that never overlaps it does. */
  lemma {:induction false} NoOverlapAt(data: seq<Byte>, p: seq<Byte>, w: seq<Byte>, i: int, at: int)
    requires NeverOverlap(p, w) && IsAt(data, w, at) && -|p| < i - at < |w| && (i != at || p != w)
    ensures !IsAt(data, p, i)
  {
    assert Clash(p, w, i - at);
    var t :| 0 <= t < |p| && 0 <= t + (i - at) < |w| && p[t] != w[t + (i - at)];
    assert w[t + (i - at)] == data[at..at + |w|][t + (i - at)] == data[i + t];
    if i >= 0 && i + |p| <= |data| {
      assert data[i..i + |p|][t] == data[i + t];
    }
  }

  /** How many matches there are, in terms of the matches themselves. */
  lemma {:induction false} CountMeans(data: seq<Byte>, p: seq<Byte>, i: int, j: int)
    requires p != [] && NeverOverlap(p, p)
    ensures |Hits(data, p, 0)| == 0 ==> !IsAt(data, p, i)
    ensures |Hits(data, p, 0)| == 1 && IsAt(data, p, i) && IsAt(data, p, j) ==> i == j
    ensures |Hits(data, p, 0)| >= 1 ==> IsAt(data, p, Hits(data, p, 0)[0])
    ensures |Hits(data, p, 0)| >= 2 ==> Hits(data, p, 0)[0] < Hits(data, p, 0)[1] && IsAt(data, p, Hits(data, p, 0)[1])
  {
    HitsAreAll(data, p, 0, i);
    HitsAreAll(data, p, 0, j);
    var h := Hits(data, p, 0);
    if |h| >= 1 {
      HitsAreAll(data, p, 0, h[0]);
    }
    if |h| >= 2 {
      HitsAreAll(data, p, 0, h[1]);
      HitsAscend(data, p, 0);
    }
  }

  lemma {:induction false} HitsAscend(data: seq<Byte>, p: seq<Byte>, from: nat)
    requires p != []
    ensures |Hits(data, p, from)| >= 2 ==> Hits(data, p, from)[0] < Hits(data, p, from)[1]
    decreases |data| - from
  {
    if from + |p| <= |data| {
      if IsAt(data, p, from) {
        var rest := Hits(data, p, from + |p|);
        assert rest != [] ==> rest[0] in rest;
      } else {
        HitsAscend(data, p, from + 1);
      }
    }
  }

  /** The search sees nothing but the matches. */
  lemma {:induction false} SameMatches(a: seq<Byte>, b: seq<Byte>, p: seq<Byte>, from: nat)
    requires p != [] && |a| == |b| && forall i :: IsAt(a, p, i) <==> IsAt(b, p, i)
    ensures Hits(a, p, from) == Hits(b, p, from)
    decreases |a| - from
  {
    if from + |p| <= |a| {
      SameMatches(a, b, p, if IsAt(a, p, from) then from + |p| else from + 1);
    }
  }

  // ---------------------------------------------------------------- one file

  datatype Outcome = Already | Patched(which: nat, at: nat) | Refused | NotFound

  /** What the script decides about a file, architecture by architecture. */
  function Decide(data: seq<Byte>, k: nat): (o: Outcome)
    requires k <= |PATCHES|
    ensures o.Patched? ==> k <= o.which < |PATCHES| && IsAt(data, PATCHES[o.which].vendor, o.at)
    decreases |PATCHES| - k
  {
    if k == |PATCHES| then NotFound
    else
      var vendor, fixed := PATCHES[k].vendor, PATCHES[k].fixed;
      if |Hits(data, fixed, 0)| == 1 && |Hits(data, vendor, 0)| == 0 then Already
      else if |Hits(data, vendor, 0)| == 1 then Patched(k, Hits(data, vendor, 0)[0])
      else if |Hits(data, vendor, 0)| > 1 then Refused
      else Decide(data, k + 1)
  }

  /** The file after one run of the script over it. */
  function FileAfter(data: seq<Byte>): seq<Byte> {
    match Decide(data, 0)
    case Patched(k, at) => Splice(data, at, PATCHES[k].fixed)
    case _ => data
  }

  function Splice(data: seq<Byte>, at: nat, w: seq<Byte>): (r: seq<Byte>)
    requires at + |w| <= |data|
    ensures |r| == |data|
  {
    data[..at] + w + data[at + |w|..]
  }

  // ---------------------------------------------------------------- the four patterns

  const PATTERNS := [OLD86, NEW86, OLDARM, NEWARM]

  /** Where the first byte of each pattern occurs in the patterns. */
  lemma {:induction false} FirstBytes(k: int, d: nat)
    requires 0 <= k < 4 && d < |PATTERNS[k]|
    ensures PATTERNS[k][d] == 0x83 ==> k == 0 && (d == 0 || d == 4)
    ensures PATTERNS[k][d] == 0x8b ==> k == 1 && d == 0
    ensures PATTERNS[k][d] == 0xe0 ==> k >= 2 && (d == 0 || d == 8)
  {
    if k == 0 {
      assert PATTERNS[k] == OLD86;
    } else if k == 1 {
      assert PATTERNS[k] == NEW86;
    } else if k == 2 {
      assert PATTERNS[k] == OLDARM;
    } else {
      assert PATTERNS[k] == NEWARM;
    }
  }

  lemma {:induction false} ClashRight(j: int, k: int, d: nat)
    requires 0 <= j < 4 && 0 <= k < 4 && d < |PATTERNS[k]| && (d != 0 || j != k)
    ensures Clash(PATTERNS[j], PATTERNS[k], d)
  {
    FirstBytes(k, d);
    var p, w := PATTERNS[j], PATTERNS[k];
    if p[0] != w[0 + d] {
    } else if j == 0 {
      assert p[1] != w[1 + d];
    } else if d == 8 {
      assert p[2] != w[2 + d];
    } else {
      assert p[5] != w[5 + d];
    }
  }

  lemma {:induction false} ClashFlipped(p: seq<Byte>, w: seq<Byte>, d: int)
    requires Clash(w, p, -d)
    ensures Clash(p, w, d)
  {
    var t :| 0 <= t < |w| && 0 <= t + -d < |p| && w[t] != p[t + -d];
    var u := t + -d;
    assert p[u] != w[u + d];
  }

  /** No two of the four patterns can overlap, nor can one overlap itself. */
  lemma {:induction false} PatternsNeverOverlap(j: int, k: int)
    requires 0 <= j < 4 && 0 <= k < 4
    ensures NeverOverlap(PATTERNS[j], PATTERNS[k])
  {
    forall d | -|PATTERNS[j]| < d < |PATTERNS[k]| && (d != 0 || PATTERNS[j] != PATTERNS[k])
      ensures Clash(PATTERNS[j], PATTERNS[k], d)
    {
      if d >= 0 {
        ClashRight(j, k, d);
      } else {
        ClashRight(k, j, -d);
        ClashFlipped(PATTERNS[j], PATTERNS[k], d);
      }
    }
  }

  // ---------------------------------------------------------------- one run over one file

  predicate Pattern(p: seq<Byte>) {
    p in PATTERNS
  }

  lemma {:induction false} Unoverlapping(p: seq<Byte>, w: seq<Byte>)
    requires Pattern(p) && Pattern(w)
    ensures NeverOverlap(p, w)
  {
    var j :| 0 <= j < 4 && PATTERNS[j] == p;
    var k :| 0 <= k < 4 && PATTERNS[k] == w;
    PatternsNeverOverlap(j, k);
  }

  /** Overwriting one pattern by another moves no other match: none is made, and only the one is lost. */
  lemma {:induction false} SpliceMatches(data: seq<Byte>, at: nat, w: seq<Byte>, n: seq<Byte>, p: seq<Byte>, i: int)
    requires Pattern(w) && Pattern(n) && Pattern(p) && |w| == |n| && IsAt(data, w, at)
    requires i != at || (p != w && p != n)
    ensures IsAt(Splice(data, at, n), p, i) <==> IsAt(data, p, i)
  {
    var r := Splice(data, at, n);
    assert r[at..at + |n|] == n;
    if -|p| < i - at < |w| {
      Unoverlapping(p, w);
      Unoverlapping(p, n);
      NoOverlapAt(data, p, w, i, at);
      NoOverlapAt(r, p, n, i, at);
    } else if 0 <= i && i + |p| <= |data| {
      forall k | i <= k < i + |p| ensures r[k] == data[k] {
        assert k < at || at + |w| <= k;
      }
      assert r[i..i + |p|] == data[i..i + |p|];
    }
  }

  /** In the spliced file the old pattern is gone and the new one is there. */
  lemma {:induction false} SpliceSwaps(data: seq<Byte>, at: nat, w: seq<Byte>, n: seq<Byte>)
    requires Pattern(w) && Pattern(n) && w != n && |w| == |n| && IsAt(data, w, at)
    ensures !IsAt(Splice(data, at, n), w, at) && IsAt(Splice(data, at, n), n, at) && !IsAt(data, n, at)
    ensures Splice(data, at, n) != data
  {
    var r := Splice(data, at, n);
    assert r[at..at + |n|] == n;
  }

  /**
   One run keeps the length and changes at most one window, which held the old pattern of an architecture,
   nowhere else to be found, and now holds its replacement; no old pattern of that architecture remains.
   */
  lemma {:induction false} OneWindow(data: seq<Byte>)
    ensures |FileAfter(data)| == |data|
    ensures !Decide(data, 0).Patched? ==> FileAfter(data) == data
    ensures Decide(data, 0).Patched? ==>
              var at, patch := Decide(data, 0).at, PATCHES[Decide(data, 0).which];
              var vendor, fixed := patch.vendor, patch.fixed;
              && IsAt(data, vendor, at) && IsAt(FileAfter(data), fixed, at)
              && (forall i :: IsAt(data, vendor, i) ==> i == at)
              && (forall i :: !IsAt(FileAfter(data), vendor, i))
              && (forall i :: 0 <= i < |data| && !(at <= i < at + |fixed|) ==> FileAfter(data)[i] == data[i])
  {
    var o := Decide(data, 0);
    if o.Patched? {
      var vendor, fixed := PATCHES[o.which].vendor, PATCHES[o.which].fixed;
      PatchOk(o.which);
      PatchedOnce(data, 0);
      SpliceSwaps(data, o.at, vendor, fixed);
      forall i ensures IsAt(data, vendor, i) ==> i == o.at {
        Unoverlapping(vendor, vendor);
        CountMeans(data, vendor, i, o.at);
      }
      forall i ensures !IsAt(FileAfter(data), vendor, i) {
        if i != o.at {
          SpliceMatches(data, o.at, vendor, fixed, vendor, i);
        }
      }
    }
  }

  lemma {:induction false} PatchOk(k: int)
    requires 0 <= k < |PATCHES|
    ensures Pattern(PATCHES[k].vendor) && Pattern(PATCHES[k].fixed) && PATCHES[k].vendor != PATCHES[k].fixed
    ensures |PATCHES[k].vendor| == |PATCHES[k].fixed| > 0
  {
    assert PATTERNS[0] == OLD86 && PATTERNS[1] == NEW86 && PATTERNS[2] == OLDARM && PATTERNS[3] == NEWARM;
    assert OLD86[0] != NEW86[0] && OLDARM[5] != NEWARM[5];
  }

  lemma {:induction false} PatchedOnce(data: seq<Byte>, k: nat)
    requires k <= |PATCHES| && Decide(data, k).Patched?
    ensures |Hits(data, PATCHES[Decide(data, k).which].vendor, 0)| == 1
    decreases |PATCHES| - k
  {
    if Decide(data, k).which != k {
      PatchedOnce(data, k + 1);
    }
  }

  /** No architecture before k has a match of its old pattern or is recognised as already patched. */
  ghost predicate ReachesArchitecture(data: seq<Byte>, k: nat)
    requires k < |PATCHES|
  {
    forall j :: 0 <= j < k ==>
      (forall i :: !IsAt(data, PATCHES[j].vendor, i)) && |Hits(data, PATCHES[j].fixed, 0)| != 1
  }

  lemma {:induction false} NoMatchNoHits(data: seq<Byte>, p: seq<Byte>, from: nat)
    requires p != [] && forall i :: !IsAt(data, p, i)
    ensures Hits(data, p, from) == []
    decreases |data| - from
  {
    if from + |p| <= |data| {
      NoMatchNoHits(data, p, from + 1);
    }
  }

  lemma {:induction false} Reached(data: seq<Byte>, k: nat, from: nat)
    requires from <= k < |PATCHES| && ReachesArchitecture(data, k)
    ensures Decide(data, from) == Decide(data, k)
    decreases k - from
  {
    if from < k {
      PatchOk(from);
      NoMatchNoHits(data, PATCHES[from].vendor, 0);
      Reached(data, k, from + 1);
    }
  }

  /** Two matches in the architecture the script reaches: nothing is changed. */
  lemma {:induction false} AmbiguousLeftAlone(data: seq<Byte>, k: nat, i: int, j: int)
    requires k < |PATCHES| && ReachesArchitecture(data, k)
    requires IsAt(data, PATCHES[k].vendor, i) && IsAt(data, PATCHES[k].vendor, j) && i != j
    ensures Decide(data, 0) == Refused && FileAfter(data) == data
  {
    Reached(data, k, 0);
    PatchOk(k);
    Unoverlapping(PATCHES[k].vendor, PATCHES[k].vendor);
    CountMeans(data, PATCHES[k].vendor, i, j);
  }

  // ---------------------------------------------------------------- running it again

  /** How the matches of all patterns change with a patch. */
  lemma {:induction false} CountsAfter(data: seq<Byte>, k: nat, p: seq<Byte>)
    requires k < |PATCHES| && |Hits(data, PATCHES[k].vendor, 0)| == 1 && Pattern(p)
    ensures var at := Hits(data, PATCHES[k].vendor, 0)[0]; at + |PATCHES[k].fixed| <= |data|
    ensures var at := Hits(data, PATCHES[k].vendor, 0)[0];
      var r := Splice(data, at, PATCHES[k].fixed);
      && |p| > 0
      && (p == PATCHES[k].vendor ==> |Hits(r, p, 0)| == 0)
      && (p == PATCHES[k].fixed ==> (|Hits(r, p, 0)| == 1 <==> |Hits(data, p, 0)| == 0))
      && (p != PATCHES[k].vendor && p != PATCHES[k].fixed ==> Hits(r, p, 0) == Hits(data, p, 0))
  {
    var at, w, n := Hits(data, PATCHES[k].vendor, 0)[0], PATCHES[k].vendor, PATCHES[k].fixed;
    assert at in Hits(data, w, 0);
    PatchOk(k);
    PatternOk(p);
    var r := Splice(data, at, n);
    SpliceSwaps(data, at, w, n);
    forall i | i != at || (p != w && p != n) ensures IsAt(r, p, i) <==> IsAt(data, p, i) {
      SpliceMatches(data, at, w, n, p, i);
    }
    Unoverlapping(p, p);
    if p == w {
      NoneLeft(data, r, p, at);
    } else if p == n {
      OneMore(data, r, p, at);
    } else {
      SameMatches(r, data, p, 0);
    }
  }

  lemma {:induction false} PatternOk(p: seq<Byte>)
    requires Pattern(p)
    ensures |p| > 0
  {
  }

  lemma {:induction false} NoneLeft(data: seq<Byte>, r: seq<Byte>, p: seq<Byte>, at: nat)
    requires p != [] && NeverOverlap(p, p) && |Hits(data, p, 0)| == 1 && IsAt(data, p, at) && !IsAt(r, p, at)
    requires forall i :: i != at ==> (IsAt(r, p, i) <==> IsAt(data, p, i))
    ensures |Hits(r, p, 0)| == 0
  {
    CountMeans(r, p, 0, 0);
    if |Hits(r, p, 0)| > 0 {
      CountMeans(data, p, Hits(r, p, 0)[0], at);
    }
  }

  lemma {:induction false} OneMore(data: seq<Byte>, r: seq<Byte>, p: seq<Byte>, at: nat)
    requires p != [] && NeverOverlap(p, p) && !IsAt(data, p, at) && IsAt(r, p, at)
    requires forall i :: i != at ==> (IsAt(r, p, i) <==> IsAt(data, p, i))
    ensures |Hits(r, p, 0)| == 1 <==> |Hits(data, p, 0)| == 0
  {
    CountMeans(r, p, at, at);
    CountMeans(data, p, at, at);
    if |Hits(data, p, 0)| == 0 {
      if |Hits(r, p, 0)| >= 2 {
        CountMeans(data, p, Hits(r, p, 0)[0], at);
        CountMeans(data, p, Hits(r, p, 0)[1], at);
      }
    } else {
      CountMeans(r, p, Hits(data, p, 0)[0], at);
    }
  }

  /** The file holds the old x86 pattern once, but also its replacement, and the old arm pattern once. */
  predicate BothAndArm(data: seq<Byte>) {
    |Hits(data, OLD86, 0)| == 1 && |Hits(data, NEW86, 0)| >= 1 && |Hits(data, OLDARM, 0)| == 1
  }

  /** A second run changes the file again exactly in that case. */
  lemma {:induction false} Rerun(data: seq<Byte>)
    ensures FileAfter(FileAfter(data)) != FileAfter(data) <==> BothAndArm(data)
  {
    var r := FileAfter(data);
    Changes(r);
    if |Hits(data, OLD86, 0)| == 1 {
      CountsAfter(data, 0, OLD86);
      CountsAfter(data, 0, NEW86);
      CountsAfter(data, 0, OLDARM);
      assert Decide(data, 0).Patched?;
    } else if Decide(data, 0).Patched? {
      PatchedOnce(data, 0);
      CountsAfter(data, 1, OLD86);
      CountsAfter(data, 1, OLDARM);
    }
  }

  /** Exactly when a run changes the file. */
  lemma {:induction false} Changes(data: seq<Byte>)
    ensures FileAfter(data) != data <==> Decide(data, 0).Patched?
    ensures Decide(data, 0).Patched? <==>
              || |Hits(data, OLD86, 0)| == 1
              || (|Hits(data, OLD86, 0)| == 0 && |Hits(data, NEW86, 0)| != 1 && |Hits(data, OLDARM, 0)| == 1)
  {
    assert Decide(data, 2) == NotFound;
    if Decide(data, 0).Patched? {
      var o := Decide(data, 0);
      PatchOk(o.which);
      SpliceSwaps(data, o.at, PATCHES[o.which].vendor, PATCHES[o.which].fixed);
    }
  }

  /** A third run never changes anything. */
  lemma {:induction false} TwiceIsEnough(data: seq<Byte>)
    ensures FileAfter(FileAfter(FileAfter(data))) == FileAfter(FileAfter(data))
  {
    Rerun(FileAfter(data));
    NotTheFirstAgain(data);
  }

  lemma {:induction false} NotTheFirstAgain(data: seq<Byte>)
    ensures |Hits(FileAfter(data), OLD86, 0)| != 1
  {
    assert Decide(data, 2) == NotFound;
    assert PATTERNS[0] == OLD86;
    if |Hits(data, OLD86, 0)| == 1 {
      CountsAfter(data, 0, OLD86);
    } else if Decide(data, 0).Patched? {
      PatchedOnce(data, 0);
      CountsAfter(data, 1, OLD86);
    }
  }

  const BOTH_AND_ARM: seq<Byte> := OLD86 + NEW86 + OLDARM

  lemma {:induction false} PartsOfBoth()
    ensures IsAt(BOTH_AND_ARM, OLD86, 0) && IsAt(BOTH_AND_ARM, NEW86, 19) && IsAt(BOTH_AND_ARM, OLDARM, 38)
    ensures Pattern(OLD86) && Pattern(NEW86) && Pattern(OLDARM) && |BOTH_AND_ARM| == 50
  {
    assert PATTERNS[0] == OLD86 && PATTERNS[1] == NEW86 && PATTERNS[2] == OLDARM;
    assert BOTH_AND_ARM[0..19] == OLD86 && BOTH_AND_ARM[19..38] == NEW86 && BOTH_AND_ARM[38..50] == OLDARM;
  }

  lemma {:induction false} OnlyAt(p: seq<Byte>, at: nat)
    requires Pattern(p) && ((p == OLD86 && at == 0) || (p == OLDARM && at == 38))
    ensures |Hits(BOTH_AND_ARM, p, 0)| == 1
  {
    PartsOfBoth();
    Unoverlapping(p, p);
    forall i | i != at ensures !IsAt(BOTH_AND_ARM, p, i) {
      if 0 <= i < 50 {
        var w := if i < 19 then OLD86 else if i < 38 then NEW86 else OLDARM;
        var off := if i < 19 then 0 else if i < 38 then 19 else 38;
        assert OLD86[0] == 0x83 && NEW86[0] == 0x8b && OLDARM[0] == 0xe0;
        Unoverlapping(p, w);
        NoOverlapAt(BOTH_AND_ARM, p, w, i, off);
      }
    }
    CountMeans(BOTH_AND_ARM, p, at, at);
  }

  /** There is such a file: running the script on it once and twice gives two different files. */
  lemma {:induction false} RerunCanChange()
    ensures BothAndArm(BOTH_AND_ARM)
    ensures FileAfter(FileAfter(BOTH_AND_ARM)) != FileAfter(BOTH_AND_ARM)
  {
    PartsOfBoth();
    OnlyAt(OLD86, 0);
    OnlyAt(OLDARM, 38);
    Unoverlapping(NEW86, NEW86);
    CountMeans(BOTH_AND_ARM, NEW86, 19, 19);
    Rerun(BOTH_AND_ARM);
  }

  // ---------------------------------------------------------------- the script

  method FindAll(data: array<Byte>, p: seq<Byte>) returns (hits: seq<nat>)
    requires p != []
    ensures hits == Hits(data[..], p, 0)
  {
    ghost var bytes := data[..];
    hits := [];
    var i := 0;
    while i + |p| <= data.Length
      invariant 0 <= i && hits + Hits(bytes, p, i) == Hits(bytes, p, 0)
      decreases data.Length - i
    {
      assert data[i..i + |p|] == bytes[i..i + |p|];
      if data[i..i + |p|] == p {
        HitsStep(hits, bytes, p, i);
        hits := hits + [i];
        i := i + |p|;
      } else {
        i := i + 1;
      }
    }
  }

  lemma {:induction false} HitsStep(hits: seq<nat>, bytes: seq<Byte>, p: seq<Byte>, i: nat)
    requires p != [] && IsAt(bytes, p, i)
    ensures hits + Hits(bytes, p, i) == hits + [i] + Hits(bytes, p, i + |p|)
  {
  }

  /** The body of the script's loop over files. */
  method PatchFile(data: array<Byte>) returns (done: bool, refused: bool, written: bool)
    modifies data
    ensures data[..] == FileAfter(old(data[..]))
    ensures var o := Decide(old(data[..]), 0); done == !o.NotFound? && refused == o.Refused? && written == o.Patched?
  {
    done, refused, written := false, false, false;
    var k := 0;
    while k < |PATCHES|
      invariant 0 <= k <= |PATCHES| && !done && !refused && !written && data[..] == old(data[..])
      invariant Decide(data[..], 0) == Decide(data[..], k)
    {
      var vendor, fixed := PATCHES[k].vendor, PATCHES[k].fixed;
      PatchOk(k);
      var news := FindAll(data, fixed);
      var hits := FindAll(data, vendor);
      if |news| == 1 && |hits| == 0 {
        done := true;
        return;
      }
      if |hits| == 1 {
        Overwrite(data, hits[0], fixed);
        done, written := true, true;
        return;
      }
      if |hits| > 1 {
        done, refused := true, true;
        return;
      }
      k := k + 1;
    }
  }

  /** Slice assignment. */
  method Overwrite(data: array<Byte>, at: nat, w: seq<Byte>)
    requires at + |w| <= data.Length
    modifies data
    ensures data[..] == Splice(old(data[..]), at, w)
  {
    forall j | 0 <= j < |w| {
      data[at + j] := w[j];
    }
  }

  type Disk = map<string, seq<Byte>>

  /** The whole script: the files as they are afterwards and the exit status; a file that is not there ends it. */
  function RunAll(disk: Disk, args: seq<string>, k: nat, status: int): (Disk, int)
    requires k <= |args|
    decreases |args| - k
  {
    if k == |args| then (disk, status)
    else if args[k] !in disk then (disk, 1)
    else
      var o := Decide(disk[args[k]], 0);
      RunAll(disk[args[k] := FileAfter(disk[args[k]])], args, k + 1, if o.Refused? || o.NotFound? then 1 else status)
  }

  method Script(files: Disk, args: seq<string>) returns (disk: Disk, status: int)
    ensures (disk, status) == RunAll(files, args, 0, 0)
  {
    disk, status := files, 0;
    var k := 0;
    while k < |args|
      invariant 0 <= k <= |args| && RunAll(files, args, 0, 0) == RunAll(disk, args, k, status)
    {
      if args[k] !in disk {
        return disk, 1;
      }
      var bytes := disk[args[k]];
      var data := new Byte[|bytes|](i requires 0 <= i < |bytes| => bytes[i]);
      assert data[..] == bytes;
      var done, refused, written := PatchFile(data);
      if written {
        disk := disk[args[k] := data[..]];
      } else {
        assert disk == disk[args[k] := FileAfter(bytes)];
      }
      if refused {
        status := 1;
      }
      if !done {
        status := 1;
      }
      k := k + 1;
    }
  }

  /** The file after n runs; from the second on nothing changes any more. */
  function After(data: seq<Byte>, n: nat): seq<Byte> {
    if n == 0 then data else if n == 1 then FileAfter(data) else FileAfter(FileAfter(data))
  }

  lemma {:induction false} AfterNext(data: seq<Byte>, n: nat)
    ensures After(FileAfter(data), n) == After(data, n + 1)
  {
    TwiceIsEnough(data);
  }

  /** How often f is among the arguments from k on and before m. */
  function Named(args: seq<string>, k: nat, m: nat, f: string): nat
    requires k <= m <= |args|
    decreases m - k
  {
    if k == m then 0 else (if args[k] == f then 1 else 0) + Named(args, k + 1, m, f)
  }

  /** Where the script ends: at the first file that is not there. */
  function FirstMissing(disk: Disk, args: seq<string>, k: nat): (m: nat)
    requires k <= |args|
    ensures k <= m <= |args| && (m < |args| ==> args[m] !in disk)
    ensures forall j :: k <= j < m ==> args[j] in disk
    decreases |args| - k
  {
    if k == |args| || args[k] !in disk then k else FirstMissing(disk, args, k + 1)
  }

  lemma {:induction false} SameMissing(disk: Disk, disk': Disk, args: seq<string>, k: nat)
    requires k <= |args| && disk.Keys == disk'.Keys
    ensures FirstMissing(disk, args, k) == FirstMissing(disk', args, k)
    decreases |args| - k
  {
    if k < |args| && args[k] in disk {
      assert args[k] in disk';
      SameMissing(disk, disk', args, k + 1);
    } else if k < |args| {
      assert args[k] !in disk';
    }
  }

  /** Each file ends as it is after as many runs as it was named before the first missing one. */
  lemma {:induction false} ScriptFiles(disk: Disk, args: seq<string>, k: nat, status: int, f: string)
    requires k <= |args| && f in disk
    ensures var after := RunAll(disk, args, k, status).0;
      f in after && after[f] == After(disk[f], Named(args, k, FirstMissing(disk, args, k), f))
    decreases |args| - k
  {
    if k < |args| && args[k] in disk {
      var data := disk[args[k]];
      var o := Decide(data, 0);
      var next := disk[args[k] := FileAfter(data)];
      SameMissing(disk, next, args, k + 1);
      ScriptFiles(next, args, k + 1, if o.Refused? || o.NotFound? then 1 else status, f);
      if f == args[k] {
        AfterNext(data, Named(args, k + 1, FirstMissing(disk, args, k + 1), f));
      }
    }
  }

  /** By matches: the old pattern once, or none and the replacement once, of x86, or failing that of aarch64. */
  predicate Succeeds(data: seq<Byte>) {
    || |Hits(data, OLD86, 0)| == 1
    || (|Hits(data, OLD86, 0)| == 0 &&
        (|| |Hits(data, NEW86, 0)| == 1
         || |Hits(data, OLDARM, 0)| == 1
         || (|Hits(data, OLDARM, 0)| == 0 && |Hits(data, NEWARM, 0)| == 1)))
  }

  lemma {:induction false} SucceedsExactly(data: seq<Byte>)
    ensures Succeeds(data) <==> !(Decide(data, 0).Refused? || Decide(data, 0).NotFound?)
  {
    assert Decide(data, 2) == NotFound;
    assert Decide(data, 0) == Decide(data, 1)
      || |Hits(data, OLD86, 0)| > 0 || |Hits(data, NEW86, 0)| == 1;
  }

  /** Every named file is there and, as it stands when its turn comes, is one to succeed with. */
  ghost predicate AllSucceed(disk: Disk, args: seq<string>, k: nat)
    requires k <= |args|
  {
    forall j :: k <= j < |args| ==> args[j] in disk && Succeeds(After(disk[args[j]], Named(args, k, j, args[j])))
  }

  lemma {:induction false} AllSucceedNext(disk: Disk, args: seq<string>, k: nat)
    requires k < |args| && args[k] in disk
    ensures AllSucceed(disk, args, k) <==>
              Succeeds(disk[args[k]]) && AllSucceed(disk[args[k] := FileAfter(disk[args[k]])], args, k + 1)
  {
    var next := disk[args[k] := FileAfter(disk[args[k]])];
    assert Named(args, k, k, args[k]) == 0;
    forall j | k < j < |args| && args[j] in disk
      ensures After(disk[args[j]], Named(args, k, j, args[j])) == After(next[args[j]], Named(args, k + 1, j, args[j]))
    {
      if args[j] == args[k] {
        AfterNext(disk[args[k]], Named(args, k + 1, j, args[j]));
      }
    }
  }

  /** The exit status is that at the start exactly if every named file succeeds, and 1 otherwise. */
  lemma {:induction false} ScriptStatus(disk: Disk, args: seq<string>, k: nat, status: int)
    requires k <= |args|
    ensures RunAll(disk, args, k, status).1 == if AllSucceed(disk, args, k) then status else 1
    decreases |args| - k
  {
    if k < |args| && args[k] in disk {
      var data := disk[args[k]];
      var o := Decide(data, 0);
      AllSucceedNext(disk, args, k);
      SucceedsExactly(data);
      ScriptStatus(disk[args[k] := FileAfter(data)], args, k + 1, if o.Refused? || o.NotFound? then 1 else status);
    }
  }

  ghost predicate HasNew(data: seq<Byte>) {
    exists i :: IsAt(data, NEW86, i) || IsAt(data, NEWARM, i)
  }

  /** A replacement, once there, stays. */
  lemma {:induction false} NewStays(data: seq<Byte>)
    requires HasNew(data) || Decide(data, 0).Already? || Decide(data, 0).Patched?
    ensures HasNew(FileAfter(data))
  {
    var o := Decide(data, 0);
    if o.Patched? {
      PatchOk(o.which);
      SpliceSwaps(data, o.at, PATCHES[o.which].vendor, PATCHES[o.which].fixed);
    } else if o.Already? {
      AlreadyHasNew(data, 0);
    }
  }

  lemma {:induction false} AlreadyHasNew(data: seq<Byte>, k: nat)
    requires k <= |PATCHES| && Decide(data, k).Already?
    ensures HasNew(data)
    decreases |PATCHES| - k
  {
    var h := Hits(data, PATCHES[k].fixed, 0);
    if |h| == 1 && |Hits(data, PATCHES[k].vendor, 0)| == 0 {
      assert h[0] in h;
    } else {
      AlreadyHasNew(data, k + 1);
    }
  }

  /** The script touches no file it is not given, keeps every length, and reports success only if all files it was
      given are there and hold a replacement. */
  lemma {:induction false} ScriptMeans(disk: Disk, args: seq<string>, k: nat, status: int, f: string)
    requires k <= |args|
    ensures var (after, s) := RunAll(disk, args, k, status);
      && after.Keys == disk.Keys
      && (f in disk ==> |after[f]| == |disk[f]|)
      && (f in disk && f !in args[k..] ==> after[f] == disk[f])
      && (f in disk && HasNew(disk[f]) ==> HasNew(after[f]))
      && (s == 0 ==> status == 0 && (f in args[k..] ==> f in disk && HasNew(after[f])))
    decreases |args| - k
  {
    if k < |args| {
      assert args[k..] == [args[k]] + args[k + 1..];
      if args[k] in disk {
        var data := disk[args[k]];
        var o := Decide(data, 0);
        OneWindow(data);
        if HasNew(data) || o.Already? || o.Patched? {
          NewStays(data);
        }
        ScriptMeans(disk[args[k] := FileAfter(data)], args, k + 1, if o.Refused? || o.NotFound? then 1 else status, f);
      }
    }
  }
}

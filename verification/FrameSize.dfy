/**
 The receive frame size the driver uses for a requested one. The two limits are parameters: multiples of 8 but
 not of 1024, the lower one below 1008.
 */
module FrameSize {

  const MAX_TRANSFER := 1024

  predicate Limits(min: int, max: int) {
    && 0 < min <= max && min < 1008
    && min % 8 == 0 && max % 8 == 0 && min % MAX_TRANSFER != 0 && max % MAX_TRANSFER != 0
  }

  /** The size used for a request. */
  function Coerced(size: int, min: int, max: int): int {
    if size < min then min
    else if size > max then max
    else if size % MAX_TRANSFER == 0 || size % 8 != 0 then Realigned(NextWord(size))
    else size
  }

  /** The next multiple of 8, strictly above. */
  function NextWord(size: int): int {
    size + 8 - size % 8
  }

  function Realigned(size: int): int {
    if size % MAX_TRANSFER == 0 then (size - 16) / 24 * 24 + 16 else size
  }

  /** The coercion as the constructor does it, one reassignment after the other. */
  method CoerceRecvFrameSize(requested: int, min: int, max: int) returns (recvFrameSize: int)
    requires Limits(min, max)
    ensures recvFrameSize == Coerced(requested, min, max)
  {
    recvFrameSize := requested;
    if recvFrameSize < min {
      recvFrameSize := min;
    } else if recvFrameSize > max {
      recvFrameSize := max;
    } else if recvFrameSize % MAX_TRANSFER == 0 || recvFrameSize % 8 != 0 {
      recvFrameSize := recvFrameSize + 8 - recvFrameSize % 8;
      if recvFrameSize % MAX_TRANSFER == 0 {
        recvFrameSize := (recvFrameSize - 16) / 24 * 24 + 16;
      }
    }
  }

  /** A request within the limits that is no multiple of 8 and rounds up to 1024 m with m = 1 modulo 3. */
  predicate Slips(size: int, min: int, max: int) {
    && min <= size <= max && size % 8 != 0
    && NextWord(size) % MAX_TRANSFER == 0 && NextWord(size) / MAX_TRANSFER % 3 == 1
  }

  lemma {:induction false} Quotient24(a: int, b: int)
    requires 0 <= b < 24
    ensures (24 * a + b) / 24 == a
  {
  }

  /** Realigning 1024 m takes away 0, 16 or 8 bytes, by the remainder of m modulo 3. */
  lemma {:induction false} RealignedBy(m: int)
    requires m >= 1
    ensures Realigned(1024 * m) == 1024 * m - (if m % 3 == 1 then 0 else if m % 3 == 2 then 16 else 8)
  {
    RealignedByRest(m / 3, m % 3);
  }

  lemma {:induction false} RealignedByRest(q: int, r: int)
    requires 0 <= r < 3
    ensures Realigned(3072 * q + 1024 * r) == 3072 * q + 1024 * r - (if r == 1 then 0 else if r == 2 then 16 else 8)
  {
    Quotient24(128 * q - 1, 8);
    Quotient24(128 * q + 42, 0);
    Quotient24(128 * q + 84, 16);
    assert (3072 * q + 1024 * r) % 1024 == 0;
  }

  lemma {:induction false} NextWordWithin(size: int, max: int)
    requires max % 8 == 0 && size < max
    ensures NextWord(size) % 8 == 0 && size < NextWord(size) <= max && NextWord(size) <= size + 8
  {
  }

  /**
   The result always keeps to the limits and to whole words; it is the limit a request exceeds, and close to a request
   that exceeds neither.
   */
  lemma {:induction false} CoercedFits(size: int, min: int, max: int)
    requires Limits(min, max)
    ensures size < min ==> Coerced(size, min, max) == min
    ensures size > max ==> Coerced(size, min, max) == max
    ensures min <= Coerced(size, min, max) <= max && Coerced(size, min, max) % 8 == 0
    ensures min <= size <= max ==> size - 15 <= Coerced(size, min, max) <= size + 8
  {
    if min <= size < max {
      NextWordWithin(size, max);
      RealignedFits(size, NextWord(size));
    }
  }

  lemma {:induction false} RealignedFits(size: int, word: int)
    requires 0 < size < word <= size + 8 && word % 8 == 0
    ensures Realigned(word) % 8 == 0 && word - 16 <= Realigned(word) <= word
    ensures word % MAX_TRANSFER == 0 ==> Realigned(word) >= 1008
  {
    if word % MAX_TRANSFER == 0 {
      RealignedFitsMultiple(word / MAX_TRANSFER);
    }
  }

  lemma {:induction false} RealignedFitsMultiple(m: int)
    requires m >= 1
    ensures Realigned(1024 * m) % 8 == 0 && 1024 * m - 16 <= Realigned(1024 * m) <= 1024 * m
  {
    hide Realigned;
    RealignedBy(m);
    assert Realigned(1024 * m) == 8 * (128 * m - (if m % 3 == 1 then 0 else if m % 3 == 2 then 2 else 1));
  }

  /** The result is a multiple of 1024, which the constructor says it never is, exactly for the requests that slip. */
  lemma {:induction false} MultipleExactly(size: int, min: int, max: int)
    requires Limits(min, max)
    ensures Coerced(size, min, max) % MAX_TRANSFER == 0 <==> Slips(size, min, max)
  {
    if min <= size <= max && NextWord(size) % MAX_TRANSFER == 0 {
      var m := NextWord(size) / MAX_TRANSFER;
      assert NextWord(size) == 1024 * m;
      RealignedBy(m);
    }
  }

  /** A result in order is left as it is. */
  lemma {:induction false} FineIsKept(size: int, min: int, max: int)
    requires Limits(min, max) && min <= size <= max && size % 8 == 0
    ensures size % MAX_TRANSFER != 0 ==> Coerced(size, min, max) == size
    ensures size % MAX_TRANSFER == 0 ==> Coerced(size, min, max) == size + 8
  {
  }

  /** Coercing the result again changes it exactly for the requests that slip. */
  lemma {:induction false} StableExactly(size: int, min: int, max: int)
    requires Limits(min, max)
    ensures Coerced(Coerced(size, min, max), min, max) == Coerced(size, min, max) <==> !Slips(size, min, max)
  {
    CoercedFits(size, min, max);
    MultipleExactly(size, min, max);
    FineIsKept(Coerced(size, min, max), min, max);
  }

  /** Coercing twice is always enough: the result then is no multiple of 1024 and stays. */
  lemma {:induction false} TwiceIsEnough(size: int, min: int, max: int)
    requires Limits(min, max)
    ensures var twice := Coerced(Coerced(size, min, max), min, max);
      twice % MAX_TRANSFER != 0 && Coerced(twice, min, max) == twice
  {
    var once := Coerced(size, min, max);
    CoercedFits(size, min, max);
    MultipleExactly(once, min, max);
    StableExactly(once, min, max);
  }

  /** The realignment to 24 bytes is reached only by requests that round up to a multiple of 1024. */
  lemma {:induction false} RealignedExactly(size: int, min: int, max: int)
    requires Limits(min, max) && min <= size <= max && size % 8 != 0
    ensures NextWord(size) % MAX_TRANSFER == 0 ==> (Coerced(size, min, max) - 16) % 24 == 0
    ensures NextWord(size) % MAX_TRANSFER != 0 ==> Coerced(size, min, max) == NextWord(size)
  {
  }

  /** Such a request: 4090 becomes 4096. */
  lemma {:induction false} SlipExists(min: int, max: int)
    requires Limits(min, max) && max >= 4096
    ensures Slips(4090, min, max) && Coerced(4090, min, max) == 4096
  {
  }
}

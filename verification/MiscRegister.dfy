/**
 The shadow of the FPGA's MISC register: single bits kept in a record, packed into one word and written
 whenever one of them may have changed.
 */
module MiscRegister {

  datatype Product = B200 | B210 | B200Mini | B205Mini

  datatype TimeSource = GpsdoTime | ExternalTime | InternalTime | NoTime | UnknownTime

  datatype Exception = NoException | ValueError | KeyError | RuntimeError | InvalidCodePath

  type Bit = b: int | 0 <= b <= 1

  datatype Gpio = Gpio(swapAtr: Bit, txBandselA: Bit, txBandselB: Bit,
                       rxBandselA: Bit, rxBandselB: Bit, rxBandselC: Bit,
                       codecArst: Bit, mimo: Bit, refSel: Bit)

  const ALL_LOW := Gpio(0, 0, 0, 0, 0, 0, 0, 0, 0)

  // ---------------------------------------------------------------- the word

  /** A bit as the 32-bit word the driver keeps it in. */
  function Word(b: Bit): bv32 {
    if b == 1 then 1 else 0
  }

  /** The word that is written. */
  function Pack(g: Gpio): bv32 {
    (Word(g.swapAtr) << 8) | (Word(g.txBandselA) << 7) | (Word(g.txBandselB) << 6)
    | (Word(g.rxBandselA) << 5) | (Word(g.rxBandselB) << 4) | (Word(g.rxBandselC) << 3)
    | (Word(g.codecArst) << 2) | (Word(g.mimo) << 1) | Word(g.refSel)
  }

  function BitAt(w: bv32, k: nat): Bit
    requires k < 32
  {
    if (w >> k) & 1 == 1 then 1 else 0
  }

  /** What the FPGA reads off the word, bit by bit. */
  function Unpack(w: bv32): Gpio {
    Gpio(BitAt(w, 8), BitAt(w, 7), BitAt(w, 6), BitAt(w, 5), BitAt(w, 4), BitAt(w, 3),
         BitAt(w, 2), BitAt(w, 1), BitAt(w, 0))
  }

  /** The FPGA reads off exactly the bits that were packed. */
  lemma {:induction false} UnpackPack(g: Gpio)
    ensures Unpack(Pack(g)) == g && Pack(g) < 512
  {
    PackBits(Word(g.swapAtr), Word(g.txBandselA), Word(g.txBandselB), Word(g.rxBandselA), Word(g.rxBandselB),
             Word(g.rxBandselC), Word(g.codecArst), Word(g.mimo), Word(g.refSel));
  }

  lemma {:induction false} PackBits(a: bv32, b: bv32, c: bv32, d: bv32, e: bv32, f: bv32, x: bv32, y: bv32, z: bv32)
    requires a <= 1 && b <= 1 && c <= 1 && d <= 1 && e <= 1 && f <= 1 && x <= 1 && y <= 1 && z <= 1
    ensures var w := (a << 8) | (b << 7) | (c << 6) | (d << 5) | (e << 4) | (f << 3) | (x << 2) | (y << 1) | z;
      && w < 512 && (w >> 8) & 1 == a && (w >> 7) & 1 == b && (w >> 6) & 1 == c && (w >> 5) & 1 == d
      && (w >> 4) & 1 == e && (w >> 3) & 1 == f && (w >> 2) & 1 == x && (w >> 1) & 1 == y && (w >> 0) & 1 == z
  {
  }

  lemma {:induction false} PackUnpack(w: bv32)
    requires w < 512
    ensures Pack(Unpack(w)) == w
  {
  }

  /** Which bit of the word is which. */
  lemma {:induction false} Layout(g: Gpio)
    ensures Pack(g) & 0x100 != 0 <==> g.swapAtr == 1
    ensures Pack(g) & 0x80 != 0 <==> g.txBandselA == 1
    ensures Pack(g) & 0x40 != 0 <==> g.txBandselB == 1
    ensures Pack(g) & 0x20 != 0 <==> g.rxBandselA == 1
    ensures Pack(g) & 0x10 != 0 <==> g.rxBandselB == 1
    ensures Pack(g) & 0x08 != 0 <==> g.rxBandselC == 1
    ensures Pack(g) & 0x04 != 0 <==> g.codecArst == 1
    ensures Pack(g) & 0x02 != 0 <==> g.mimo == 1
    ensures Pack(g) & 0x01 != 0 <==> g.refSel == 1
  {
    MaskedBits(Word(g.swapAtr), Word(g.txBandselA), Word(g.txBandselB), Word(g.rxBandselA), Word(g.rxBandselB),
               Word(g.rxBandselC), Word(g.codecArst), Word(g.mimo), Word(g.refSel));
  }

  lemma {:induction false} MaskedBits(a: bv32, b: bv32, c: bv32, d: bv32, e: bv32, f: bv32, x: bv32, y: bv32, z: bv32)
    requires a <= 1 && b <= 1 && c <= 1 && d <= 1 && e <= 1 && f <= 1 && x <= 1 && y <= 1 && z <= 1
    ensures var w := (a << 8) | (b << 7) | (c << 6) | (d << 5) | (e << 4) | (f << 3) | (x << 2) | (y << 1) | z;
      && (w & 0x100 != 0 <==> a == 1) && (w & 0x80 != 0 <==> b == 1) && (w & 0x40 != 0 <==> c == 1)
      && (w & 0x20 != 0 <==> d == 1) && (w & 0x10 != 0 <==> e == 1) && (w & 0x08 != 0 <==> f == 1)
      && (w & 0x04 != 0 <==> x == 1) && (w & 0x02 != 0 <==> y == 1) && (w & 0x01 != 0 <==> z == 1)
  {
  }

  /** Different states give different words. */
  lemma {:induction false} PackInjective(g: Gpio, h: Gpio)
    requires Pack(g) == Pack(h)
    ensures g == h
  {
    UnpackPack(g);
    UnpackPack(h);
  }

  // ---------------------------------------------------------------- the bands

  predicate IsMini(p: Product) {
    p == B200Mini || p == B205Mini
  }

  /** The receive band selects are one-hot and fit the frequency. */
  predicate RxBand(g: Gpio, freq: real) {
    && g.rxBandselA == (if 4000000000.0 <= freq <= 6000000000.0 then 1 else 0)
    && g.rxBandselB == (if 2200000000.0 <= freq < 4000000000.0 then 1 else 0)
    && g.rxBandselC == (if freq < 2200000000.0 then 1 else 0)
  }

  predicate TxBand(g: Gpio, freq: real) {
    && g.txBandselA == (if 2500000000.0 <= freq <= 6000000000.0 then 1 else 0)
    && g.txBandselB == (if freq < 2500000000.0 then 1 else 0)
  }

  predicate NoSelect(g: Gpio) {
    && g.rxBandselA == 0 && g.rxBandselB == 0 && g.rxBandselC == 0
    && g.txBandselA == 0 && g.txBandselB == 0
  }

  /** No two selects of one direction are high, and one of them is. */
  predicate OneSelect(g: Gpio) {
    g.rxBandselA + g.rxBandselB + g.rxBandselC == 1 && g.txBandselA + g.txBandselB == 1
  }

  /** Exactly one select is high in each direction, and the written word alone tells the bands. */
  lemma {:induction false} WordTellsBands(g: Gpio, rxFreq: real, txFreq: real)
    requires RxBand(g, rxFreq) && TxBand(g, txFreq) && rxFreq <= 6000000000.0 && txFreq <= 6000000000.0
    ensures OneSelect(g)
    ensures (Pack(g) >> 3) & 7 == (if rxFreq < 2200000000.0 then 1 else if rxFreq < 4000000000.0 then 2 else 4)
    ensures (Pack(g) >> 6) & 3 == (if txFreq < 2500000000.0 then 1 else 2)
  {
    BandBits(Word(g.swapAtr), Word(g.txBandselA), Word(g.txBandselB), Word(g.rxBandselA), Word(g.rxBandselB),
             Word(g.rxBandselC), Word(g.codecArst), Word(g.mimo), Word(g.refSel));
  }

  lemma {:induction false} BandBits(a: bv32, b: bv32, c: bv32, d: bv32, e: bv32, f: bv32, x: bv32, y: bv32, z: bv32)
    requires a <= 1 && b <= 1 && c <= 1 && d <= 1 && e <= 1 && f <= 1 && x <= 1 && y <= 1 && z <= 1
    ensures var w := (a << 8) | (b << 7) | (c << 6) | (d << 5) | (e << 4) | (f << 3) | (x << 2) | (y << 1) | z;
      (w >> 3) & 7 == (d << 2) | (e << 1) | f && (w >> 6) & 3 == (b << 1) | c
  {
  }

  // ---------------------------------------------------------------- the device

  /** A radio's streamers, as far as they matter here: whether they exist. */
  datatype Radio = Radio(tx: bool, rx: bool)

  datatype Chains = Chains(tx1: bool, tx2: bool, rx1: bool, rx2: bool)

  function Count(a: bool, b: bool): nat {
    (if a then 1 else 0) + (if b then 1 else 0)
  }

  /** How many of the two radios receive. */
  function Receiving(radios: seq<Radio>): nat {
    Count(|radios| > 0 && radios[0].rx, |radios| > 1 && radios[1].rx)
  }

  function Sending(radios: seq<Radio>): nat {
    Count(|radios| > 0 && radios[0].tx, |radios| > 1 && radios[1].tx)
  }

  /** Which chains of the codec the radios use: front end 1 is radio 0 on unswapped boards and radio 1 on others. */
  function ChainsOf(radios: seq<Radio>, unswapped: bool): Chains {
    var first := if |radios| > 0 then radios[0] else Radio(false, false);
    var second := if |radios| > 1 then radios[1] else Radio(false, false);
    if unswapped then Chains(first.tx, second.tx, first.rx, second.rx)
    else Chains(second.tx, first.tx, second.rx, first.rx)
  }

  /** Which clock sources are accepted; `gps` says that a GPSDO was made and is detected. */
  function ClockAnswer(mini: bool, source: string, time: TimeSource, gps: bool): Exception {
    if mini && source == "external" && time == ExternalTime then ValueError
    else if source == "internal" || source == "external" || (source == "gpsdo" && !mini && gps) then NoException
    else KeyError
  }

  /** The reference select after a source has been accepted; only the small boards touch it for the internal one. */
  function RefSelFor(mini: bool, source: string, was: Bit): Bit {
    if source == "external" then (if mini then 1 else 0)
    else if source == "gpsdo" then 1
    else if mini then 0
    else was
  }

  /** Which time sources are accepted; for the GPSDO it is enough that one was made. */
  function TimeAnswer(mini: bool, source: string, refSel: Bit, gpsMade: bool): Exception {
    if mini && source == "external" && refSel == 1 then ValueError
    else if source == "none" || source == "internal" || source == "external" then NoException
    else if source == "gpsdo" && gpsMade then NoException
    else KeyError
  }

  function TimeOf(source: string): TimeSource {
    if source == "none" then NoTime
    else if source == "internal" then InternalTime
    else if source == "external" then ExternalTime
    else GpsdoTime
  }

  /** Radio 0 works on the first chains of an unswapped board and on the second of the others, radio 1 the other way. */
  lemma {:induction false} ChainOfRadio(radios: seq<Radio>, unswapped: bool, r: nat)
    requires r < 2
    ensures var c := ChainsOf(radios, unswapped);
            var radio := if r < |radios| then radios[r] else Radio(false, false);
            radio == if unswapped == (r == 0) then Radio(c.tx1, c.rx1) else Radio(c.tx2, c.rx2)
    ensures var c := ChainsOf(radios, unswapped);
            && (Receiving(radios) == 2 <==> c.rx1 && c.rx2) && (Sending(radios) == 2 <==> c.tx1 && c.tx2)
            && (Receiving(radios) + Sending(radios) == 0 <==> c == Chains(false, false, false, false))
  {
  }

  /** The values of CORE_SYNC that the source names stand for. */
  lemma {:induction false} TimeNames()
    ensures TimeOf("gpsdo") == GpsdoTime && TimeOf("external") == ExternalTime
    ensures TimeOf("internal") == InternalTime && TimeOf("none") == NoTime
  {
    assert "external"[0] != "internal"[0] && "external"[0] != "none"[0] && "internal"[0] != "none"[0];
    assert "gpsdo"[0] != "internal"[0] && "gpsdo"[0] != "none"[0] && "gpsdo"[0] != "external"[0];
  }

  class Board {
    const product: Product
    const unswapped: bool   // radio 0 is front end 1
    const gpsMade: bool     // a GPSDO object exists
    const gpsDetected: bool // and reports a GPSDO

    var gpio: Gpio
    var timeSource: TimeSource
    var lockToExtRef: bool // set in the ADF4001
    var chains: Chains     // last set in the codec

    ghost var pokes: seq<bv32>     // the words written to the MISC register
    ghost var rxFreq: real         // last frequency accepted for reception
    ghost var txFreq: real         // last frequency accepted for transmission
    ghost var clockSource: string  // last clock source accepted

    ghost predicate Valid()
      reads this
    {
      && gpio.codecArst == 0 && gpio.swapAtr == (if unswapped then 0 else 1)
      && pokes != [] && pokes[|pokes| - 1] == Pack(gpio)
      && BandsOk() && ClockOk()
    }

    ghost predicate BandsOk()
      reads this
    {
      if IsMini(product) then NoSelect(gpio)
      else rxFreq <= 6000000000.0 && txFreq <= 6000000000.0 && RxBand(gpio, rxFreq) && TxBand(gpio, txFreq)
    }

    /** The reference select fits the clock source; on the small boards one input never serves both purposes. */
    ghost predicate ClockOk()
      reads this
    {
      if IsMini(product) then
        && !(gpio.refSel == 1 && timeSource == ExternalTime)
        && (gpio.refSel == 1 <==> clockSource == "external")
      else
        && (lockToExtRef <==> clockSource == "external" || clockSource == "gpsdo")
        && (clockSource == "external" ==> gpio.refSel == 0)
        && (clockSource == "gpsdo" ==> gpio.refSel == 1 && gpsMade && gpsDetected)
    }

    /** Everything but the register, its shadow and the ghosts that go with it. */
    twostate predicate SameRest()
      reads this
    {
      timeSource == old(timeSource) && lockToExtRef == old(lockToExtRef) && chains == old(chains)
    }

    twostate predicate Same()
      reads this
    {
      && SameRest() && gpio == old(gpio) && pokes == old(pokes)
      && rxFreq == old(rxFreq) && txFreq == old(txFreq) && clockSource == old(clockSource)
    }

    constructor (product: Product, revision: nat, gpsMade: bool, gpsDetected: bool)
      ensures Valid() && this.product == product && this.gpsMade == gpsMade && this.gpsDetected == gpsDetected
      ensures unswapped == (IsMini(product) || (product == B200 && revision >= 5))
      ensures !IsMini(product) ==> rxFreq == 800000000.0 && txFreq == 850000000.0
      ensures product == B210 ==> RxBand(gpio, 800000000.0) && TxBand(gpio, 850000000.0) && gpio.swapAtr == 1
      ensures gpio.mimo == 0 && gpio.refSel == 0 && timeSource == UnknownTime && clockSource == ""
    {
      this.product, this.gpsMade, this.gpsDetected := product, gpsMade, gpsDetected;
      unswapped := IsMini(product) || (product == B200 && revision >= 5);
      gpio := ALL_LOW.(swapAtr := 1);
      timeSource, lockToExtRef, chains := UnknownTime, false, Chains(false, false, false, false);
      pokes, clockSource := [], "";
      rxFreq, txFreq := 0.0, 0.0;
      new;
      hide Pack;
      if IsMini(product) || (product == B200 && revision >= 5) {
        gpio := gpio.(swapAtr := 0);
      }
      var ex := UpdateBandsel("RX", 800000000.0);
      ex := UpdateBandsel("TX", 850000000.0);
      ResetCodec();
    }

    /** update_gpio_state. */
    method UpdateGpioState()
      modifies this`pokes
      ensures pokes == old(pokes) + [Pack(gpio)]
    {
      var miscWord: bv32 :=
        0 | (Word(gpio.swapAtr) << 8) | (Word(gpio.txBandselA) << 7)
        | (Word(gpio.txBandselB) << 6) | (Word(gpio.rxBandselA) << 5)
        | (Word(gpio.rxBandselB) << 4) | (Word(gpio.rxBandselC) << 3)
        | (Word(gpio.codecArst) << 2) | (Word(gpio.mimo) << 1)
        | (Word(gpio.refSel) << 0);
      Poke(miscWord);
    }

    method Poke(word: bv32)
      modifies this`pokes
      ensures pokes == old(pokes) + [word]
    {
      pokes := pokes + [word];
    }

    predicate Accepts(which: string, freq: real) {
      |which| > 0 && (which[0] == 'R' || which[0] == 'T') && freq <= 6000000000.0
    }

    /** update_bandsel. */
    method UpdateBandsel(which: string, freq: real) returns (ex: Exception)
      modifies this`gpio, this`pokes, this`rxFreq, this`txFreq
      ensures old(Valid()) ==> Valid()
      ensures ex == (if IsMini(product) || Accepts(which, freq) then NoException else InvalidCodePath)
      ensures IsMini(product) || ex != NoException ==> Same()
      ensures !IsMini(product) && ex == NoException ==>
                && pokes == old(pokes) + [Pack(gpio)]
                && if which[0] == 'R'
                   then rxFreq == freq && txFreq == old(txFreq) && RxBand(gpio, freq)
                        && gpio == old(gpio).(rxBandselA := gpio.rxBandselA, rxBandselB := gpio.rxBandselB,
                                              rxBandselC := gpio.rxBandselC)
                   else txFreq == freq && rxFreq == old(rxFreq) && TxBand(gpio, freq)
                        && gpio == old(gpio).(txBandselA := gpio.txBandselA, txBandselB := gpio.txBandselB)
    {
      hide Pack;
      if product == B200Mini || product == B205Mini {
        return NoException;
      }
      if |which| > 0 && which[0] == 'R' {
        if freq < 2200000000.0 {
          gpio := gpio.(rxBandselA := 0, rxBandselB := 0, rxBandselC := 1);
        } else if freq >= 2200000000.0 && freq < 4000000000.0 {
          gpio := gpio.(rxBandselA := 0, rxBandselB := 1, rxBandselC := 0);
        } else if freq >= 4000000000.0 && freq <= 6000000000.0 {
          gpio := gpio.(rxBandselA := 1, rxBandselB := 0, rxBandselC := 0);
        } else {
          return InvalidCodePath;
        }
        rxFreq := freq;
      } else if |which| > 0 && which[0] == 'T' {
        if freq < 2500000000.0 {
          gpio := gpio.(txBandselA := 0, txBandselB := 1);
        } else if freq >= 2500000000.0 && freq <= 6000000000.0 {
          gpio := gpio.(txBandselA := 1, txBandselB := 0);
        } else {
          return InvalidCodePath;
        }
        txFreq := freq;
      } else {
        return InvalidCodePath;
      }
      UpdateGpioState();
      return NoException;
    }

    /** reset_codec: a pulse on the reset bit. */
    method ResetCodec()
      modifies this`gpio, this`pokes
      ensures old(Valid()) ==> Valid() && gpio == old(gpio)
      ensures gpio == old(gpio).(codecArst := 0)
      ensures pokes == old(pokes) + [Pack(old(gpio).(codecArst := 1)), Pack(gpio)]
    {
      hide Pack;
      gpio := gpio.(codecArst := 1);
      UpdateGpioState();
      gpio := gpio.(codecArst := 0);
      UpdateGpioState();
    }

    method SetRefSel(value: Bit)
      requires pokes != [] && pokes[|pokes| - 1] == Pack(gpio)
      modifies this`gpio, this`pokes
      ensures gpio == old(gpio).(refSel := value)
      ensures pokes == if old(gpio.refSel) != value then old(pokes) + [Pack(gpio)] else old(pokes)
    {
      hide Pack;
      if gpio.refSel != value {
        gpio := gpio.(refSel := value);
        UpdateGpioState();
      }
    }

    /** What update_clock_source leaves behind when it accepts a source. */
    twostate predicate Selected(source: string)
      reads this
    {
      && gpio == old(gpio).(refSel := RefSelFor(IsMini(product), source, old(gpio.refSel)))
      && pokes == (if gpio != old(gpio) then old(pokes) + [Pack(gpio)] else old(pokes))
      && clockSource == source
    }

    /** The part of update_clock_source for the small boards. */
    method SelectClockMini(source: string) returns (ex: Exception)
      requires Valid() && IsMini(product)
      modifies this`gpio, this`pokes, this`clockSource
      ensures Valid()
      ensures ex == ClockAnswer(true, source, timeSource, gpsMade && gpsDetected)
      ensures if ex == NoException then Selected(source) else Same()
    {
      hide Pack;
      if source == "external" && timeSource == ExternalTime {
        return ValueError;
      }
      if source == "internal" {
        SetRefSel(0);
      } else if source == "external" {
        SetRefSel(1);
      } else {
        return KeyError;
      }
      clockSource := source;
      return NoException;
    }

    /** The part of update_clock_source for the other boards. */
    method SelectClock(source: string) returns (ex: Exception)
      requires Valid() && !IsMini(product)
      modifies this`gpio, this`pokes, this`lockToExtRef, this`clockSource
      ensures Valid()
      ensures ex == ClockAnswer(false, source, timeSource, gpsMade && gpsDetected)
      ensures if ex == NoException then Selected(source) else Same()
    {
      hide Pack;
      if source == "internal" {
        lockToExtRef := false;
      } else if source == "external" {
        SetRefSel(0);
        lockToExtRef := true;
      } else if source == "gpsdo" {
        if !gpsMade || !gpsDetected {
          return KeyError;
        }
        SetRefSel(1);
        lockToExtRef := true;
      } else {
        return KeyError;
      }
      clockSource := source;
      return NoException;
    }

    /** update_clock_source; that the new state fits the source is part of Valid. */
    method UpdateClockSource(source: string) returns (ex: Exception)
      requires Valid()
      modifies this`gpio, this`pokes, this`lockToExtRef, this`clockSource
      ensures Valid()
      ensures ex == ClockAnswer(IsMini(product), source, timeSource, gpsMade && gpsDetected)
      ensures if ex == NoException then Selected(source) else Same()
    {
      if product == B200Mini || product == B205Mini {
        ex := SelectClockMini(source);
      } else {
        ex := SelectClock(source);
      }
    }

    /** update_time_source, as far as the clock source depends on it; it writes another register. */
    method UpdateTimeSource(source: string) returns (ex: Exception)
      requires Valid()
      modifies this`timeSource
      ensures Valid()
      ensures ex == TimeAnswer(IsMini(product), source, gpio.refSel, gpsMade)
      ensures timeSource == if ex == NoException then TimeOf(source) else old(timeSource)
      ensures IsMini(product) ==> !(gpio.refSel == 1 && timeSource == ExternalTime)
    {
      hide Pack;
      if (product == B200Mini || product == B205Mini) && source == "external" && gpio.refSel == 1 {
        return ValueError;
      }
      var value;
      if source == "none" {
        value := NoTime;
      } else if source == "internal" {
        value := InternalTime;
      } else if source == "external" {
        value := ExternalTime;
      } else if gpsMade && source == "gpsdo" {
        value := GpsdoTime;
      } else {
        return KeyError;
      }
      if timeSource != value {
        timeSource := value;
      }
      return NoException;
    }

    /** update_enables. */
    method UpdateEnables(radios: seq<Radio>) returns (ex: Exception)
      requires Valid()
      modifies this`gpio, this`pokes, this`chains
      ensures Valid()
      ensures ex == if Receiving(radios) + Sending(radios) == 3 then RuntimeError else NoException
      ensures ex != NoException ==> Same()
      ensures ex == NoException ==>
                && gpio == old(gpio).(mimo := if Receiving(radios) == 2 || Sending(radios) == 2 then 1 else 0)
                && pokes == old(pokes) + [Pack(gpio)]
      ensures ex == NoException ==> chains.tx1 || chains.tx2 || chains.rx1 || chains.rx2
      ensures ex == NoException ==>
                chains == if Receiving(radios) + Sending(radios) == 0 then Chains(true, false, true, false)
                          else ChainsOf(radios, unswapped)
    {
      hide Pack;
      var fe1, fe2 := if unswapped then 0 else 1, if unswapped then 1 else 0;
      var enbTx1 := |radios| > fe1 && radios[fe1].tx;
      var enbRx1 := |radios| > fe1 && radios[fe1].rx;
      var enbTx2 := |radios| > fe2 && radios[fe2].tx;
      var enbRx2 := |radios| > fe2 && radios[fe2].rx;
      var numRx := Count(enbRx1, enbRx2);
      var numTx := Count(enbTx1, enbTx2);
      var mimo := numRx == 2 || numTx == 2;
      if numRx + numTx == 3 {
        return RuntimeError;
      }
      chains := Chains(enbTx1, enbTx2, enbRx1, enbRx2);
      if numRx + numTx == 0 {
        chains := Chains(true, false, true, false);
      }
      gpio := gpio.(mimo := if mimo then 1 else 0);
      UpdateGpioState();
      return NoException;
    }
  }

  // ---------------------------------------------------------------- any run

  datatype Op =
    | Bandsel(which: string, freq: real)
    | ClockSource(clock: string)
    | TimeSourceOp(time: string)
    | Enables(radios: seq<Radio>)
    | Reset

  /** The last frequency accepted for one direction ('R' or 'T') among the first k operations. */
  function LastFreq(ops: seq<Op>, k: nat, direction: char, default_: real): real
    requires k <= |ops|
  {
    if k == 0 then default_
    else if ops[k - 1].Bandsel? && Tunes(ops[k - 1].which, direction) && ops[k - 1].freq <= 6000000000.0
    then ops[k - 1].freq
    else LastFreq(ops, k - 1, direction, default_)
  }

  predicate Tunes(which: string, direction: char) {
    |which| > 0 && which[0] == direction
  }

  /** Whether the last accepted set of streamers among the first k operations had two of a kind. */
  function LastMimo(ops: seq<Op>, k: nat): bool
    requires k <= |ops|
  {
    if k == 0 then false
    else if ops[k - 1].Enables? && Receiving(ops[k - 1].radios) + Sending(ops[k - 1].radios) != 3
    then Receiving(ops[k - 1].radios) == 2 || Sending(ops[k - 1].radios) == 2
    else LastMimo(ops, k - 1)
  }

  /** The clock and time source last accepted, and the reference select that follows. */
  datatype Sources = Sources(clock: string, time: TimeSource, refSel: Bit)

  function LastSources(mini: bool, gpsMade: bool, gpsDetected: bool, ops: seq<Op>, k: nat): Sources
    requires k <= |ops|
  {
    if k == 0 then Sources("", UnknownTime, 0)
    else
      var last := LastSources(mini, gpsMade, gpsDetected, ops, k - 1);
      match ops[k - 1]
      case ClockSource(clock) =>
        if ClockAnswer(mini, clock, last.time, gpsMade && gpsDetected) != NoException then last
        else Sources(clock, last.time, RefSelFor(mini, clock, last.refSel))
      case TimeSourceOp(time) =>
        if TimeAnswer(mini, time, last.refSel, gpsMade) != NoException then last
        else last.(time := TimeOf(time))
      case _ => last
  }

  /** On the small boards the select shows the clock source, and the external input never serves both purposes. */
  lemma {:induction false} OneExternalUse(gpsMade: bool, gpsDetected: bool, ops: seq<Op>, k: nat)
    requires k <= |ops|
    ensures var last := LastSources(true, gpsMade, gpsDetected, ops, k);
      && (last.refSel == 1 <==> last.clock == "external")
      && !(last.clock == "external" && last.time == ExternalTime)
  {
    if k > 0 {
      OneExternalUse(gpsMade, gpsDetected, ops, k - 1);
    }
  }

  /** On the other boards the select tells the external from the GPSDO reference, and the latter needs a GPSDO. */
  lemma {:induction false} SelectFollowsSource(gpsMade: bool, gpsDetected: bool, ops: seq<Op>, k: nat)
    requires k <= |ops|
    ensures var last := LastSources(false, gpsMade, gpsDetected, ops, k);
      && (last.clock == "external" ==> last.refSel == 0)
      && (last.clock == "gpsdo" ==> last.refSel == 1 && gpsMade && gpsDetected)
  {
    if k > 0 {
      SelectFollowsSource(gpsMade, gpsDetected, ops, k - 1);
    }
  }

  /**
   The external input can always change its use: from clock to time by way of the internal clock source, and from
   time to clock by way of the internal time source.
   */
  lemma {:induction false} ExternalUseCanChange(mini: bool, gpsMade: bool, gpsDetected: bool, ops: seq<Op>)
    ensures var more := ops + [ClockSource("internal"), TimeSourceOp("external")];
            var last := LastSources(mini, gpsMade, gpsDetected, more, |more|);
            last.clock == "internal" && last.time == ExternalTime && (mini ==> last.refSel == 0)
    ensures var more := ops + [TimeSourceOp("internal"), ClockSource("external")];
            var last := LastSources(mini, gpsMade, gpsDetected, more, |more|);
            last.clock == "external" && last.time == InternalTime && last.refSel == if mini then 1 else 0
  {
    var more := ops + [ClockSource("internal"), TimeSourceOp("external")];
    assert more[|ops|] == ClockSource("internal") && more[|ops| + 1] == TimeSourceOp("external");
    var back := ops + [TimeSourceOp("internal"), ClockSource("external")];
    assert back[|ops|] == TimeSourceOp("internal") && back[|ops| + 1] == ClockSource("external");
  }

  /** Exactly which clock and time sources are accepted. */
  lemma {:induction false} SourcesAccepted(mini: bool, source: string, time: TimeSource, refSel: Bit, made: bool,
                                           detected: bool)
    ensures ClockAnswer(mini, source, time, made && detected) == NoException <==>
              || source == "internal"
              || (source == "external" && !(mini && time == ExternalTime))
              || (source == "gpsdo" && !mini && made && detected)
    ensures TimeAnswer(mini, source, refSel, made) == NoException <==>
              || source == "none" || source == "internal"
              || (source == "external" && !(mini && refSel == 1))
              || (source == "gpsdo" && made)
  {
    assert "internal" != "external" && "none" != "external";
    assert "gpsdo"[0] != "external"[0] && "gpsdo"[0] != "internal"[0];
  }

  /** The board is as the first k operations have left it. */
  ghost predicate TellsOf(board: Board, ops: seq<Op>, k: nat)
    requires k <= |ops|
    reads board
  {
    var src := LastSources(IsMini(board.product), board.gpsMade, board.gpsDetected, ops, k);
    && board.Valid()
    && (!IsMini(board.product) ==>
          board.rxFreq == LastFreq(ops, k, 'R', 800000000.0) && board.txFreq == LastFreq(ops, k, 'T', 850000000.0))
    && board.gpio.mimo == (if LastMimo(ops, k) then 1 else 0)
    && board.clockSource == src.clock && board.timeSource == src.time && board.gpio.refSel == src.refSel
  }

  /** One operation, whether it is accepted or throws. */
  method Perform(board: Board, ops: seq<Op>, k: nat)
    requires k < |ops| && TellsOf(board, ops, k)
    modifies board
    ensures TellsOf(board, ops, k + 1)
  {
    hide Pack;
    hide Board.Valid;
    hide RxBand;
    hide TxBand;
    var ex;
    match ops[k] {
      case Bandsel(which, freq) => ex := board.UpdateBandsel(which, freq);
      case ClockSource(clock) => ex := board.UpdateClockSource(clock);
      case TimeSourceOp(time) => ex := board.UpdateTimeSource(time);
      case Enables(radios) => ex := board.UpdateEnables(radios);
      case Reset => board.ResetCodec();
    }
  }

  /**
   After any operations, failing ones included, the register holds the packed bits, and every bit follows from
   the operations: the bands from the last frequency accepted in each direction, the reference select from the
   last sources accepted, the mimo bit from the last streamers accepted.
   */
  method Run(product: Product, revision: nat, gpsMade: bool, gpsDetected: bool, ops: seq<Op>) returns (board: Board)
    ensures fresh(board) && board.Valid() && board.product == product
    ensures board.pokes != [] && board.pokes[|board.pokes| - 1] == Pack(board.gpio) && board.gpio.codecArst == 0
    ensures board.gpio.swapAtr == if IsMini(product) || (product == B200 && revision >= 5) then 0 else 1
    ensures !IsMini(product) ==>
              && RxBand(board.gpio, LastFreq(ops, |ops|, 'R', 800000000.0))
              && TxBand(board.gpio, LastFreq(ops, |ops|, 'T', 850000000.0))
              && OneSelect(board.gpio)
    ensures IsMini(product) ==> NoSelect(board.gpio)
    ensures board.gpio.mimo == if LastMimo(ops, |ops|) then 1 else 0
    ensures var src := LastSources(IsMini(product), gpsMade, gpsDetected, ops, |ops|);
      && board.gpio.refSel == src.refSel && board.timeSource == src.time
      && (IsMini(product) ==> !(board.gpio.refSel == 1 && board.timeSource == ExternalTime))
      && (!IsMini(product) ==> (board.lockToExtRef <==> src.clock == "external" || src.clock == "gpsdo"))
  {
    hide Pack;
    board := new Board(product, revision, gpsMade, gpsDetected);
    var k := 0;
    while k < |ops|
      invariant 0 <= k <= |ops| && fresh(board) && TellsOf(board, ops, k)
    {
      Perform(board, ops, k);
      k := k + 1;
    }
  }
}

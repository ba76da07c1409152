/** Per-pin configuration and digital I/O.  A pin's configuration is the
    triple of its bits in PIN_CFG, GPIO_CFG and GPO_DRIVE_CFG; every change
    the driver makes is a single-bit set or clear, so other pins keep theirs. */
module Pins {
  import opened Wire
  import opened Registers

  /** The four configurations, as the triple of bits selects them. */
  datatype Mode = AnalogInput | DigitalInput | PushPullOutput | OpenDrainOutput

  function ModeOf(regs: RegFile, p: Pin): Mode
  {
    if Bit(regs[PIN_CFG], p) == 0 then AnalogInput
    else if Bit(regs[GPIO_CFG], p) == 0 then DigitalInput
    else if Bit(regs[GPO_DRIVE_CFG], p) == 1 then PushPullOutput
    else OpenDrainOutput
  }

  /** `after` differs from `before` at most in pin `p`'s bits of the
      registers in `touched`. */
  ghost predicate OnlyPinChanged(before: RegFile, after: RegFile, p: Pin, touched: set<int>)
  {
    (forall i :: 0 <= i < NUM_REGS && i !in touched ==> after[i] == before[i]) &&
    (forall i, q: Pin :: 0 <= i < NUM_REGS && q != p ==> Bit(after[i], q) == Bit(before[i], q))
  }

  /** A change confined to one pin leaves every other pin's configuration as it was. */
  lemma OthersKeepMode(before: RegFile, after: RegFile, p: Pin, touched: set<int>, q: Pin)
    requires OnlyPinChanged(before, after, p, touched)
    requires q != p
    ensures ModeOf(after, q) == ModeOf(before, q)
  {
    assert Bit(after[PIN_CFG], q) == Bit(before[PIN_CFG], q);
    assert Bit(after[GPIO_CFG], q) == Bit(before[GPIO_CFG], q);
    assert Bit(after[GPO_DRIVE_CFG], q) == Bit(before[GPO_DRIVE_CFG], q);
  }

  // The operations each driver call issues, in the order it issues them.

  function PushPullOps(p: Pin): seq<Op>
  {
    [SetBits(PIN_CFG, PinToBit(p)), SetBits(GPIO_CFG, PinToBit(p)), SetBits(GPO_DRIVE_CFG, PinToBit(p))]
  }

  function OpenDrainOps(p: Pin): seq<Op>
  {
    [SetBits(PIN_CFG, PinToBit(p)), SetBits(GPIO_CFG, PinToBit(p)), ClearBits(GPO_DRIVE_CFG, PinToBit(p))]
  }

  function DigitalInputOps(p: Pin): seq<Op>
  {
    [SetBits(PIN_CFG, PinToBit(p)), ClearBits(GPIO_CFG, PinToBit(p))]
  }

  function AnalogOps(p: Pin): seq<Op>
  {
    [ClearBits(PIN_CFG, PinToBit(p))]
  }

  /** A pin write clears the pin's GPO_VALUE bit for a zero value and sets it otherwise. */
  function WriteOps(p: Pin, val: int): seq<Op>
  {
    if val == 0 then [ClearBits(GPO_VALUE, PinToBit(p))] else [SetBits(GPO_VALUE, PinToBit(p))]
  }

  /** A toggle reads the latch and writes back the inverted bit of `latch`,
      the value that read returns. */
  function ToggleOps(latch: byte, p: Pin): seq<Op>
  {
    [ReadReg(GPO_VALUE)] + WriteOps(p, if Bit(latch, p) == 0 then 1 else 0)
  }

  /** The register file after a toggle of pin `p`. */
  function Toggled(regs: RegFile, p: Pin): RegFile
  {
    StepAll(regs, ToggleOps(regs[GPO_VALUE], p))
  }

  /** One set or clear of pin `p`'s mask, spelled out bit by bit. */
  lemma SetPinBit(regs: RegFile, reg: byte, p: Pin)
    ensures var r := Step(regs, SetBits(reg, PinToBit(p)));
      Bit(r[reg], p) == 1 &&
      OnlyPinChanged(regs, r, p, {reg as int})
  {
    var r := Step(regs, SetBits(reg, PinToBit(p)));
    forall i, q: Pin | 0 <= i < NUM_REGS && q != p
      ensures Bit(r[i], q) == Bit(regs[i], q)
    {
      if i == reg as int {
        BitOfSet(regs[i], p, q);
      }
    }
    BitOfSet(regs[reg], p, p);
  }

  lemma ClearPinBit(regs: RegFile, reg: byte, p: Pin)
    ensures var r := Step(regs, ClearBits(reg, PinToBit(p)));
      Bit(r[reg], p) == 0 &&
      OnlyPinChanged(regs, r, p, {reg as int})
  {
    var r := Step(regs, ClearBits(reg, PinToBit(p)));
    forall i, q: Pin | 0 <= i < NUM_REGS && q != p
      ensures Bit(r[i], q) == Bit(regs[i], q)
    {
      if i == reg as int {
        BitOfClear(regs[i], p, q);
      }
    }
    BitOfClear(regs[reg], p, p);
  }

  /** Configuring push-pull sets pin `p`'s bit in all three configuration
      registers and changes nothing else. */
  lemma PushPullConfigures(regs: RegFile, p: Pin)
    ensures var r := StepAll(regs, PushPullOps(p));
      Bit(r[PIN_CFG], p) == 1 && Bit(r[GPIO_CFG], p) == 1 && Bit(r[GPO_DRIVE_CFG], p) == 1 &&
      ModeOf(r, p) == PushPullOutput &&
      OnlyPinChanged(regs, r, p, {PIN_CFG as int, GPIO_CFG as int, GPO_DRIVE_CFG as int})
  {
    var m := PinToBit(p);
    var r1 := Step(regs, SetBits(PIN_CFG, m));
    var r2 := Step(r1, SetBits(GPIO_CFG, m));
    StepAllTriple(regs, SetBits(PIN_CFG, m), SetBits(GPIO_CFG, m), SetBits(GPO_DRIVE_CFG, m));
    SetPinBit(regs, PIN_CFG, p);
    SetPinBit(r1, GPIO_CFG, p);
    SetPinBit(r2, GPO_DRIVE_CFG, p);
  }

  /** Configuring open-drain is push-pull with pin `p`'s drive bit cleared
      instead of set. */
  lemma OpenDrainConfigures(regs: RegFile, p: Pin)
    ensures var r := StepAll(regs, OpenDrainOps(p));
      Bit(r[PIN_CFG], p) == 1 && Bit(r[GPIO_CFG], p) == 1 && Bit(r[GPO_DRIVE_CFG], p) == 0 &&
      ModeOf(r, p) == OpenDrainOutput &&
      OnlyPinChanged(regs, r, p, {PIN_CFG as int, GPIO_CFG as int, GPO_DRIVE_CFG as int})
  {
    var m := PinToBit(p);
    var r1 := Step(regs, SetBits(PIN_CFG, m));
    var r2 := Step(r1, SetBits(GPIO_CFG, m));
    StepAllTriple(regs, SetBits(PIN_CFG, m), SetBits(GPIO_CFG, m), ClearBits(GPO_DRIVE_CFG, m));
    SetPinBit(regs, PIN_CFG, p);
    SetPinBit(r1, GPIO_CFG, p);
    ClearPinBit(r2, GPO_DRIVE_CFG, p);
  }

  /** Configuring a digital input sets pin `p`'s PIN_CFG bit, clears its
      GPIO_CFG bit and leaves GPO_DRIVE_CFG whole. */
  lemma DigitalInputConfigures(regs: RegFile, p: Pin)
    ensures var r := StepAll(regs, DigitalInputOps(p));
      Bit(r[PIN_CFG], p) == 1 && Bit(r[GPIO_CFG], p) == 0 &&
      r[GPO_DRIVE_CFG] == regs[GPO_DRIVE_CFG] &&
      ModeOf(r, p) == DigitalInput &&
      OnlyPinChanged(regs, r, p, {PIN_CFG as int, GPIO_CFG as int})
  {
    var m := PinToBit(p);
    var r1 := Step(regs, SetBits(PIN_CFG, m));
    var r2 := Step(r1, ClearBits(GPIO_CFG, m));
    StepAllPair(regs, SetBits(PIN_CFG, m), ClearBits(GPIO_CFG, m));
    SetPinBit(regs, PIN_CFG, p);
    ClearPinBit(r1, GPIO_CFG, p);
  }

  /** Configuring an analog input clears pin `p`'s PIN_CFG bit and nothing else. */
  lemma AnalogConfigures(regs: RegFile, p: Pin)
    ensures var r := StepAll(regs, AnalogOps(p));
      Bit(r[PIN_CFG], p) == 0 &&
      ModeOf(r, p) == AnalogInput &&
      OnlyPinChanged(regs, r, p, {PIN_CFG as int})
  {
    var r1 := Step(regs, ClearBits(PIN_CFG, PinToBit(p)));
    assert StepAll(regs, AnalogOps(p)) == r1;
    ClearPinBit(regs, PIN_CFG, p);
  }

  /** After a pin write the pin's latch bit is 1 exactly when the value is
      non-zero; every other latch bit, the input register GPI_VALUE and every
      other register are unchanged. */
  lemma WriteThenReadLatch(regs: RegFile, p: Pin, val: int)
    ensures var r := StepAll(regs, WriteOps(p, val));
      Bit(r[GPO_VALUE], p) == (if val != 0 then 1 else 0) &&
      r[GPI_VALUE] == regs[GPI_VALUE] &&
      OnlyPinChanged(regs, r, p, {GPO_VALUE as int})
  {
    if val == 0 {
      var r1 := Step(regs, ClearBits(GPO_VALUE, PinToBit(p)));
      assert StepAll(regs, WriteOps(p, val)) == r1;
      ClearPinBit(regs, GPO_VALUE, p);
    } else {
      var r1 := Step(regs, SetBits(GPO_VALUE, PinToBit(p)));
      assert StepAll(regs, WriteOps(p, val)) == r1;
      SetPinBit(regs, GPO_VALUE, p);
    }
  }

  /** A toggle inverts exactly pin `p`'s bit of GPO_VALUE. */
  lemma ToggleFlips(regs: RegFile, p: Pin)
    ensures Toggled(regs, p) == regs[GPO_VALUE as int := regs[GPO_VALUE] ^ PinToBit(p)]
  {
    if Bit(regs[GPO_VALUE], p) == 0 {
      ToggleLow(regs, p);
    } else {
      ToggleHigh(regs, p);
    }
  }

  /** A toggle of a low latch bit sets it. */
  lemma ToggleLow(regs: RegFile, p: Pin)
    requires Bit(regs[GPO_VALUE], p) == 0
    ensures Toggled(regs, p) == regs[GPO_VALUE as int := regs[GPO_VALUE] ^ PinToBit(p)]
  {
    var v := regs[GPO_VALUE];
    var op := SetBits(GPO_VALUE, PinToBit(p));
    assert ToggleOps(v, p) == [ReadReg(GPO_VALUE), op];
    StepAllPair(regs, ReadReg(GPO_VALUE), op);
    assert Step(regs, ReadReg(GPO_VALUE)) == regs;
    assert Toggled(regs, p) == Step(regs, op);
    assert Step(regs, op) == regs[GPO_VALUE as int := v | PinToBit(p)];
    FlipByWrite(v, p);
  }

  /** A toggle of a high latch bit clears it. */
  lemma ToggleHigh(regs: RegFile, p: Pin)
    requires Bit(regs[GPO_VALUE], p) == 1
    ensures Toggled(regs, p) == regs[GPO_VALUE as int := regs[GPO_VALUE] ^ PinToBit(p)]
  {
    var v := regs[GPO_VALUE];
    var op := ClearBits(GPO_VALUE, PinToBit(p));
    assert ToggleOps(v, p) == [ReadReg(GPO_VALUE), op];
    StepAllPair(regs, ReadReg(GPO_VALUE), op);
    assert Step(regs, ReadReg(GPO_VALUE)) == regs;
    assert Toggled(regs, p) == Step(regs, op);
    assert Step(regs, op) == regs[GPO_VALUE as int := v & !PinToBit(p)];
    FlipByWrite(v, p);
  }

  /** Two toggles of a pin restore the whole register file. */
  lemma ToggleTwiceRestores(regs: RegFile, p: Pin)
    ensures Toggled(Toggled(regs, p), p) == regs
  {
    var once := Toggled(regs, p);
    ToggleFlips(regs, p);
    ToggleFlips(once, p);
    assert (regs[GPO_VALUE] ^ PinToBit(p)) ^ PinToBit(p) == regs[GPO_VALUE];
  }
}

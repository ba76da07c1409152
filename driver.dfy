/** The ADS7128 driver: one object per chip.  Each register operation goes
    out as one frame on the bus; the chip end of the bus is its register
    file, which every frame acts on in place. */
module Driver {
  import opened Wrappers
  import opened Wire
  import opened Registers
  import opened Pins
  import opened Adc
  import RS = ResetSequence

  /** Concatenation regroups freely. */
  lemma Append3<T>(a: seq<T>, b: seq<T>, c: seq<T>)
    ensures (a + b) + c == a + (b + c)
  {
  }

  class Ads7128 {
    /** The chip's bus address, 0x10 plus the value of its address selector.
        Every exchange goes to this one chip, so frames do not repeat it. */
    const addr: int
    /** The chip's register file. */
    const regs: array<byte>
    /** Every frame sent to the chip, oldest first. */
    var log: seq<Frame>
    /** The register file before the first frame. */
    ghost const power: RegFile

    /** The register file is what the logged frames made of the power-on file. */
    ghost predicate Valid()
      reads this, regs
    {
      regs.Length == NUM_REGS && regs[..] == ApplyAll(power, log)
    }

    ghost function Regs(): RegFile
      reads this, regs
      requires Valid()
    {
      regs[..]
    }

    /** A driver for the chip at `address` (0x10 unless given) whose
        registers hold `initial`. */
    constructor (initial: RegFile, address: int := 0x10)
      ensures Valid() && fresh(regs)
      ensures addr == address && log == [] && Regs() == initial
    {
      addr := address;
      power := initial;
      regs := new byte[NUM_REGS](i requires 0 <= i < NUM_REGS => initial[i]);
      log := [];
      new;
      assert regs[..] == initial;
    }

    // ---- the bus ----

    /** One frame on the bus; the chip applies it to its registers. */
    method Send(f: Frame)
      requires Valid()
      modifies this, regs
      ensures Valid()
      ensures log == old(log) + [f]
      ensures Regs() == Apply(old(Regs()), f)
    {
      ghost var before := Regs();
      var d := Decode(f);
      if d.Some? && Writes(d.value) {
        var r := d.value.reg as int;
        regs[r] := Written(regs[r], d.value);
      }
      assert regs[..] == Apply(before, f);
      log := log + [f];
      ApplyAllAppend(power, old(log), [f]);
      assert [f][1..] == [];
      assert ApplyAll(before, [f]) == ApplyAll(Apply(before, f), []);
    }

    /** One exchange: the write phase `tx`, then, when `rxSize` is not zero,
        a read phase in which the chip sends `incoming`.  Returns the bytes
        read, or None for a write-only exchange. */
    method Transmit(tx: seq<byte>, rxSize: nat, incoming: seq<byte>) returns (rx: Option<seq<byte>>)
      requires Valid() && |incoming| == rxSize
      modifies this, regs
      ensures Valid()
      ensures log == old(log) + [Frame(tx, rxSize)]
      ensures Regs() == Apply(old(Regs()), Frame(tx, rxSize))
      ensures rx == if rxSize == 0 then None else Some(incoming)
    {
      Send(Frame(tx, rxSize));
      if rxSize != 0 {
        rx := Some(incoming);
      } else {
        rx := None;
      }
    }

    // ---- register operations ----

    method BitSet(reg: byte, mask: byte)
      requires Valid()
      modifies this, regs
      ensures Valid()
      ensures log == old(log) + [Encode(SetBits(reg, mask))]
      ensures Regs() == Step(old(Regs()), SetBits(reg, mask))
    {
      var _ := Transmit([Code(Opcode.SetBit), reg, mask], 0, []);
      ApplyEncode(old(Regs()), SetBits(reg, mask));
    }

    method BitClear(reg: byte, mask: byte)
      requires Valid()
      modifies this, regs
      ensures Valid()
      ensures log == old(log) + [Encode(ClearBits(reg, mask))]
      ensures Regs() == Step(old(Regs()), ClearBits(reg, mask))
    {
      var _ := Transmit([Code(Opcode.ClearBit), reg, mask], 0, []);
      ApplyEncode(old(Regs()), ClearBits(reg, mask));
    }

    method RegWrite(reg: byte, val: byte)
      requires Valid()
      modifies this, regs
      ensures Valid()
      ensures log == old(log) + [Encode(WriteReg(reg, val))]
      ensures Regs() == Step(old(Regs()), WriteReg(reg, val))
    {
      var _ := Transmit([Code(Opcode.RegWrite), reg, val], 0, []);
      ApplyEncode(old(Regs()), WriteReg(reg, val));
    }

    /** A register read; the chip answers with the register's content. */
    method RegRead(reg: byte) returns (v: byte)
      requires Valid()
      modifies this, regs
      ensures Valid()
      ensures log == old(log) + [Encode(ReadReg(reg))]
      ensures Regs() == old(Regs())
      ensures v == old(Regs())[reg]
    {
      var rx := Transmit([Code(Opcode.RegRead), reg], 1, [regs[reg as int]]);
      ApplyEncode(old(Regs()), ReadReg(reg));
      v := rx.value[0];
    }

    /** A block write; the payload goes into the frame as a single byte. */
    method BlockWrite(reg: byte, buff: byte)
      requires Valid()
      modifies this, regs
      ensures Valid()
      ensures log == old(log) + [Encode(WriteBlock(reg, buff))]
      ensures Regs() == Step(old(Regs()), WriteBlock(reg, buff))
    {
      var b := [Code(Opcode.BlockWrite), reg];
      b := b + [buff];
      assert b == Encode(WriteBlock(reg, buff)).tx;
      var _ := Transmit(b, 0, []);
      ApplyEncode(old(Regs()), WriteBlock(reg, buff));
    }

    /** A block read of `size` bytes, which the chip sends as `incoming`;
        None when `size` is zero, as no read phase takes place. */
    method BlockRead(size: nat, incoming: seq<byte>) returns (r: Option<seq<byte>>)
      requires Valid() && |incoming| == size
      modifies this, regs
      ensures Valid()
      ensures log == old(log) + [Encode(ReadBlock(size))]
      ensures Regs() == old(Regs())
      ensures r == if size == 0 then None else Some(incoming)
    {
      r := Transmit([Code(Opcode.BlockRead)], size, incoming);
      ApplyEncode(old(Regs()), ReadBlock(size));
    }

    /** A poll read inside the reset sequence: either the chip answers
        `reply`, or (None) the transport raises and the read yields nothing.
        The status flags change under the chip's own control, so the answer
        comes from `reply` and not from the register file. */
    method PollRead(reg: byte, reply: Option<byte>) returns (r: Option<byte>)
      requires Valid()
      modifies this, regs
      ensures Valid()
      ensures log == old(log) + [RS.ReadFrame(reg)]
      ensures Regs() == old(Regs())
      ensures r == reply
    {
      ApplyEncode(Regs(), ReadReg(reg));
      if reply.Some? {
        var rx := Transmit([Code(Opcode.RegRead), reg], 1, [reply.value]);
        r := Some(rx.value[0]);
      } else {
        Send(Frame([Code(Opcode.RegRead), reg], 1));
        r := None;
      }
    }

    // ---- reset ----

    /** The reset handshake.  `o(k)` is the outcome of the k-th poll read.
        Returns 0 on success and 1 on a timeout in either phase. */
    method Reset(o: RS.Oracle) returns (code: int)
      requires Valid()
      modifies this, regs
      ensures Valid()
      ensures log == old(log) + RS.Reset(o).frames
      ensures Regs() == ApplyAll(old(Regs()), RS.Reset(o).frames)
      ensures code == RS.ExitCode(RS.Reset(o).outcome)
    {
      ghost var ack := RS.AckPoll(o, RS.ACK_TRIES, 0);
      ghost var run := RS.Reset(o);
      ghost var start := [RS.ResetCommand()] + ack.frames;
      BitSet(GENERAL_CFG, 1);
      ghost var commanded := log;
      assert commanded == old(log) + [RS.ResetCommand()];
      var acked, k := AwaitAck(o, RS.ACK_TRIES, 0);
      Append3(old(log), [RS.ResetCommand()], ack.frames);
      assert log == old(log) + start;
      if !acked {
        code := 1;
        assert run == RS.Run(RS.AckTimeout, start);
      } else {
        ghost var clear := RS.ClearPoll(o, RS.CLEAR_TRIES, ack.next);
        BitSet(SYS_STATUS, 1);
        ghost var acknowledged := log;
        assert acknowledged == old(log) + start + [RS.ClearCommand()];
        var cleared := AwaitClear(o, RS.CLEAR_TRIES, k);
        code := if cleared then 0 else 1;
        assert run.frames == start + [RS.ClearCommand()] + clear.frames;
        assert log == old(log) + start + [RS.ClearCommand()] + clear.frames;
        Append3(old(log), start, [RS.ClearCommand()]);
        Append3(old(log), start + [RS.ClearCommand()], clear.frames);
      }
      ApplyAllAppend(power, old(log), run.frames);
    }

    /** Phase 1 of the reset: up to `tries` attempts, each reading SYS_STATUS
        and then GENERAL_CFG, with poll reads numbered from `k0`.  A read that
        raises ends the attempt.  Returns whether the chip acknowledged and
        the number of the next poll read. */
    method AwaitAck(o: RS.Oracle, tries: nat, k0: nat) returns (acked: bool, k: nat)
      requires Valid()
      modifies this, regs
      ensures Valid()
      ensures log == old(log) + RS.AckPoll(o, tries, k0).frames
      ensures acked == RS.AckPoll(o, tries, k0).success && k == RS.AckPoll(o, tries, k0).next
    {
      ghost var done: seq<Frame> := [];
      k := k0;
      acked := false;
      var i := 0;
      while i < tries
        invariant Valid()
        invariant 0 <= i <= tries
        invariant log == old(log) + done
        invariant RS.AckPoll(o, tries, k0) == RS.Later(done, RS.AckPoll(o, tries - i, k))
      {
        RS.AckAttempt(o, tries - i, k);
        var status := PollRead(SYS_STATUS, o(k));
        Append3(old(log), done, [RS.ReadFrame(SYS_STATUS)]);
        if status.None? {
          RS.LaterLater(done, [RS.ReadFrame(SYS_STATUS)], RS.AckPoll(o, tries - i - 1, k + 1));
          done := done + [RS.ReadFrame(SYS_STATUS)];
          k := k + 1;
        } else {
          var general := PollRead(GENERAL_CFG, o(k + 1));
          ghost var sent := [RS.ReadFrame(SYS_STATUS), RS.ReadFrame(GENERAL_CFG)];
          Append3(old(log), done + [RS.ReadFrame(SYS_STATUS)], [RS.ReadFrame(GENERAL_CFG)]);
          Append3(done, [RS.ReadFrame(SYS_STATUS)], [RS.ReadFrame(GENERAL_CFG)]);
          assert [RS.ReadFrame(SYS_STATUS)] + [RS.ReadFrame(GENERAL_CFG)] == sent;
          if general.Some? && status.value & 1 == 1 && general.value & 1 == 0 {
            done := done + sent;
            k := k + 2;
            acked := true;
            return;
          }
          RS.LaterLater(done, sent, RS.AckPoll(o, tries - i - 1, k + 2));
          done := done + sent;
          k := k + 2;
        }
        i := i + 1;
      }
      assert done + [] == done;
    }

    /** Phase 2 of the reset: up to `tries` reads of SYS_STATUS, numbered from
        `k0`, until one finds the status flag down.  Returns whether one did. */
    method AwaitClear(o: RS.Oracle, tries: nat, k0: nat) returns (cleared: bool)
      requires Valid()
      modifies this, regs
      ensures Valid()
      ensures log == old(log) + RS.ClearPoll(o, tries, k0).frames
      ensures cleared == RS.ClearPoll(o, tries, k0).success
    {
      ghost var polled: seq<Frame> := [];
      var k := k0;
      var j := 0;
      while j < tries
        invariant Valid()
        invariant 0 <= j <= tries
        invariant log == old(log) + polled
        invariant RS.ClearPoll(o, tries, k0) == RS.Later(polled, RS.ClearPoll(o, tries - j, k))
      {
        RS.ClearAttempt(o, tries - j, k);
        var status := PollRead(SYS_STATUS, o(k));
        Append3(old(log), polled, [RS.ReadFrame(SYS_STATUS)]);
        if status.Some? && status.value & 1 == 0 {
          polled := polled + [RS.ReadFrame(SYS_STATUS)];
          return true;
        }
        RS.LaterLater(polled, [RS.ReadFrame(SYS_STATUS)], RS.ClearPoll(o, tries - j - 1, k + 1));
        polled := polled + [RS.ReadFrame(SYS_STATUS)];
        k := k + 1;
        j := j + 1;
      }
      assert polled + [] == polled;
      cleared := false;
    }

    // ---- pin configuration ----

    /** Configure pin `p` as a push-pull output. */
    method GpoPushPull(p: Pin)
      requires Valid()
      modifies this, regs
      ensures Valid()
      ensures log == old(log) + EncodeAll(PushPullOps(p))
      ensures Regs() == StepAll(old(Regs()), PushPullOps(p))
    {
      var bit := PinToBit(p);
      BitSet(PIN_CFG, bit);
      BitSet(GPIO_CFG, bit);
      BitSet(GPO_DRIVE_CFG, bit);
      StepAllTriple(old(Regs()), SetBits(PIN_CFG, bit), SetBits(GPIO_CFG, bit), SetBits(GPO_DRIVE_CFG, bit));
    }

    /** Configure pin `p` as an open-drain output. */
    method GpoOpenDrain(p: Pin)
      requires Valid()
      modifies this, regs
      ensures Valid()
      ensures log == old(log) + EncodeAll(OpenDrainOps(p))
      ensures Regs() == StepAll(old(Regs()), OpenDrainOps(p))
    {
      var bit := PinToBit(p);
      BitSet(PIN_CFG, bit);
      BitSet(GPIO_CFG, bit);
      BitClear(GPO_DRIVE_CFG, bit);
      StepAllTriple(old(Regs()), SetBits(PIN_CFG, bit), SetBits(GPIO_CFG, bit), ClearBits(GPO_DRIVE_CFG, bit));
    }

    /** Configure pin `p` as a digital input without pull. */
    method Gpi(p: Pin)
      requires Valid()
      modifies this, regs
      ensures Valid()
      ensures log == old(log) + EncodeAll(DigitalInputOps(p))
      ensures Regs() == StepAll(old(Regs()), DigitalInputOps(p))
    {
      var bit := PinToBit(p);
      BitSet(PIN_CFG, bit);
      BitClear(GPIO_CFG, bit);
      StepAllPair(old(Regs()), SetBits(PIN_CFG, bit), ClearBits(GPIO_CFG, bit));
    }

    /** Configure pin `p` as an analog input.  The oversampling ratio is a
        separate call (SetOsr) that the caller makes afterwards. */
    method Analog(p: Pin)
      requires Valid()
      modifies this, regs
      ensures Valid()
      ensures log == old(log) + EncodeAll(AnalogOps(p))
      ensures Regs() == StepAll(old(Regs()), AnalogOps(p))
    {
      var bit := PinToBit(p);
      BitClear(PIN_CFG, bit);
      StepAllSingle(old(Regs()), ClearBits(PIN_CFG, bit));
    }

    // ---- digital I/O ----

    /** Drive pin `p` low for a zero value and high for any other. */
    method PinWrite(p: Pin, val: int)
      requires Valid()
      modifies this, regs
      ensures Valid()
      ensures log == old(log) + EncodeAll(WriteOps(p, val))
      ensures Regs() == StepAll(old(Regs()), WriteOps(p, val))
    {
      var bit := PinToBit(p);
      if val == 0 {
        BitClear(GPO_VALUE, bit);
      } else {
        BitSet(GPO_VALUE, bit);
      }
      StepAllSingle(old(Regs()), WriteOps(p, val)[0]);
    }

    /** The value last written to output pin `p`: its bit of GPO_VALUE. */
    method PinReadLatch(p: Pin) returns (b: int)
      requires Valid()
      modifies this, regs
      ensures Valid()
      ensures log == old(log) + [Encode(ReadReg(GPO_VALUE))]
      ensures Regs() == old(Regs())
      ensures b == Bit(old(Regs())[GPO_VALUE], p)
    {
      var v := RegRead(GPO_VALUE);
      b := ((v >> p) & 1) as int;
    }

    /** The sampled level of input pin `p`: its bit of GPI_VALUE. */
    method PinRead(p: Pin) returns (b: int)
      requires Valid()
      modifies this, regs
      ensures Valid()
      ensures log == old(log) + [Encode(ReadReg(GPI_VALUE))]
      ensures Regs() == old(Regs())
      ensures b == Bit(old(Regs())[GPI_VALUE], p)
    {
      var v := RegRead(GPI_VALUE);
      b := ((v >> p) & 1) as int;
    }

    /** Invert output pin `p`: read its latch bit, write back the opposite. */
    method PinToggle(p: Pin)
      requires Valid()
      modifies this, regs
      ensures Valid()
      ensures log == old(log) + EncodeAll(ToggleOps(old(Regs())[GPO_VALUE], p))
      ensures Regs() == Toggled(old(Regs()), p)
    {
      var ret := PinReadLatch(p);
      // The latch bit is 0 or 1, so this guard always holds.
      if ret >= 0 {
        PinWrite(p, if ret == 0 then 1 else 0);
      }
      ghost var ops := ToggleOps(old(Regs())[GPO_VALUE], p);
      assert ops == [ops[0], ops[1]];
      StepAllPair(old(Regs()), ops[0], ops[1]);
    }

    // ---- analog conversion ----

    /** Set the oversampling ratio. */
    method SetOsr(osr: byte)
      requires Valid()
      modifies this, regs
      ensures Valid()
      ensures log == old(log) + [Encode(WriteReg(OSR_CFG, osr))]
      ensures Regs() == old(Regs())[OSR_CFG as int := osr]
    {
      RegWrite(OSR_CFG, osr);
    }

    /** Convert on channel `p`: select the channel, block-read `size` bytes
        (which the chip sends as `incoming`) and decode the 12-bit sample from
        the first two.  None when fewer than two bytes come back. */
    method AdcRead(p: Pin, incoming: seq<byte>, size: nat := 2) returns (v: Option<nat>)
      requires Valid() && |incoming| == size
      modifies this, regs
      ensures Valid()
      ensures log == old(log) + [Encode(WriteReg(CHANNEL_SEL, p as byte)), Encode(ReadBlock(size))]
      ensures Regs() == old(Regs())[CHANNEL_SEL as int := p as byte]
      ensures v == if size < 2 then None else Some(Sample12(incoming[0], incoming[1]))
    {
      RegWrite(CHANNEL_SEL, p as byte);
      var blocks := BlockRead(size, incoming);
      Append3(old(log), [Encode(WriteReg(CHANNEL_SEL, p as byte))], [Encode(ReadBlock(size))]);
      if blocks.None? || |blocks.value| < 2 {
        v := None;
      } else {
        v := Some((blocks.value[0] as int) * 16 + (blocks.value[1] as int) / 16);
      }
    }
  }
}

/** The chip's register file and what each frame does to it.  Register
    addresses are bytes, so the file has 256 entries; the driver uses the nine
    named below.  In the per-pin registers bit i belongs to pin i. */
module Registers {
  import opened Wrappers
  import opened Wire

  const SYS_STATUS: byte := 0x00
  const GENERAL_CFG: byte := 0x01
  const OSR_CFG: byte := 0x03
  const PIN_CFG: byte := 0x05
  const GPIO_CFG: byte := 0x07
  const GPO_DRIVE_CFG: byte := 0x09
  const GPO_VALUE: byte := 0x0B
  const GPI_VALUE: byte := 0x0D
  const CHANNEL_SEL: byte := 0x11

  /** The nine registers the driver uses, in address order. */
  const NAMED: seq<byte> := [SYS_STATUS, GENERAL_CFG, OSR_CFG, PIN_CFG, GPIO_CFG, GPO_DRIVE_CFG, GPO_VALUE, GPI_VALUE, CHANNEL_SEL]

  /** The named registers have nine distinct addresses, so an operation on
      one of them never touches another. */
  lemma NamedRegistersDistinct()
    ensures |NAMED| == 9
    ensures forall i, j :: 0 <= i < j < |NAMED| ==> NAMED[i] < NAMED[j]
  {
  }

  const NUM_REGS: nat := 256

  type RegFile = s: seq<byte> | |s| == NUM_REGS witness seq(NUM_REGS, _ => 0)

  /** A pin of the chip.  The driver computes its mask as `1 << pin` and
      does not check the range; the model admits the eight pins whose mask
      is one byte. */
  type Pin = p: int | 0 <= p < 8

  /** Bit `p` of a register value, as the integer 0 or 1 (`(v >> p) & 1`). */
  function Bit(v: byte, p: Pin): (b: nat)
    ensures b <= 1
    ensures b == 1 <==> v & (1 << p) != 0
  {
    ((v >> p) & 1) as nat
  }

  /** The one-bit mask of a pin: its own bit is set and every other pin's is clear. */
  function PinToBit(p: Pin): (m: byte)
    ensures forall q: Pin :: Bit(m, q) == if q == p then 1 else 0
  {
    1 << p
  }

  /** Setting a pin's mask raises that pin's bit and no other. */
  lemma BitOfSet(v: byte, p: Pin, q: Pin)
    ensures Bit(v | PinToBit(p), q) == if q == p then 1 else Bit(v, q)
  {
  }

  /** Clearing a pin's mask lowers that pin's bit and no other. */
  lemma BitOfClear(v: byte, p: Pin, q: Pin)
    ensures Bit(v & !PinToBit(p), q) == if q == p then 0 else Bit(v, q)
  {
  }

  /** Inverting a pin's bit is setting it when it is clear and clearing it when it is set. */
  lemma FlipByWrite(v: byte, p: Pin)
    ensures Bit(v, p) == 0 ==> v | PinToBit(p) == v ^ PinToBit(p)
    ensures Bit(v, p) == 1 ==> v & !PinToBit(p) == v ^ PinToBit(p)
  {
  }

  /** The operations that write a register: all but the two reads. */
  predicate Writes(op: Op)
  {
    !(op.ReadReg? || op.ReadBlock?)
  }

  /** The new content of the register a writing operation targets, given its
      current content: SET_BIT ORs the mask in, CLEAR_BIT ANDs its complement,
      a register or block write overwrites. */
  function Written(cur: byte, op: Op): byte
    requires Writes(op)
  {
    match op
    case WriteReg(_, v) => v
    case SetBits(_, m) => cur | m
    case ClearBits(_, m) => cur & !m
    case WriteBlock(_, d) => d
  }

  /** What the chip does with one operation: a writing operation replaces
      its target register, reads change nothing. */
  function Step(regs: RegFile, op: Op): (r: RegFile)
    ensures forall i :: 0 <= i < NUM_REGS && (!Writes(op) || i != op.reg as int) ==> r[i] == regs[i]
  {
    if Writes(op) then regs[op.reg as int := Written(regs[op.reg], op)] else regs
  }

  /** A frame acts through the operation it encodes; a frame of no known
      shape leaves the registers alone. */
  function Apply(regs: RegFile, f: Frame): RegFile
  {
    match Decode(f)
    case None => regs
    case Some(op) => Step(regs, op)
  }

  /** The register file after a sequence of frames, in order. */
  function ApplyAll(regs: RegFile, fs: seq<Frame>): RegFile
    decreases |fs|
  {
    if fs == [] then regs else ApplyAll(Apply(regs, fs[0]), fs[1..])
  }

  /** Transmitting `a` and then `b` leaves the file as transmitting `a + b` does. */
  lemma {:induction false} ApplyAllAppend(regs: RegFile, a: seq<Frame>, b: seq<Frame>)
    ensures ApplyAll(regs, a + b) == ApplyAll(ApplyAll(regs, a), b)
    decreases |a|
  {
    if a == [] {
      assert a + b == b;
    } else {
      assert (a + b)[0] == a[0];
      assert (a + b)[1..] == a[1..] + b;
      ApplyAllAppend(Apply(regs, a[0]), a[1..], b);
    }
  }

  /** The encoding of an operation acts on the file as that operation does. */
  lemma ApplyEncode(regs: RegFile, op: Op)
    ensures Apply(regs, Encode(op)) == Step(regs, op)
  {
    DecodeEncode(Encode(op), op);
  }

  /** Frames that only read leave the register file as it was. */
  lemma {:induction false} ApplyAllReads(regs: RegFile, fs: seq<Frame>)
    requires forall i :: 0 <= i < |fs| ==> IsRead(fs[i])
    ensures ApplyAll(regs, fs) == regs
    decreases |fs|
  {
    if fs != [] {
      assert fs[0].tx == [Code(RegRead), fs[0].tx[1]];
      assert Decode(fs[0]) == Some(ReadReg(fs[0].tx[1]));
      ApplyAllReads(regs, fs[1..]);
    }
  }

  /** The frames of a sequence of operations, in order. */
  function EncodeAll(ops: seq<Op>): (fs: seq<Frame>)
    ensures |fs| == |ops|
    ensures forall i :: 0 <= i < |ops| ==> fs[i] == Encode(ops[i])
  {
    if ops == [] then [] else [Encode(ops[0])] + EncodeAll(ops[1..])
  }

  /** The register file after a sequence of operations, in order. */
  function StepAll(regs: RegFile, ops: seq<Op>): RegFile
    decreases |ops|
  {
    if ops == [] then regs else StepAll(Step(regs, ops[0]), ops[1..])
  }

  /** A sequence of one operation performs it. */
  lemma StepAllSingle(regs: RegFile, a: Op)
    ensures StepAll(regs, [a]) == Step(regs, a)
  {
    assert [a][1..] == [];
  }

  /** A sequence of two operations performs them in order. */
  lemma StepAllPair(regs: RegFile, a: Op, b: Op)
    ensures StepAll(regs, [a, b]) == Step(Step(regs, a), b)
  {
    assert [a, b][1..] == [b];
    StepAllSingle(Step(regs, a), b);
  }

  /** A sequence of three operations performs them in order. */
  lemma StepAllTriple(regs: RegFile, a: Op, b: Op, c: Op)
    ensures StepAll(regs, [a, b, c]) == Step(Step(Step(regs, a), b), c)
  {
    assert [a, b, c][1..] == [b, c];
    StepAllPair(Step(regs, a), b, c);
  }

  /** Transmitting the encodings of operations performs those operations. */
  lemma {:induction false} ApplyAllEncode(regs: RegFile, ops: seq<Op>)
    ensures ApplyAll(regs, EncodeAll(ops)) == StepAll(regs, ops)
    decreases |ops|
  {
    if ops != [] {
      var fs := EncodeAll(ops);
      assert fs[0] == Encode(ops[0]);
      assert fs[1..] == EncodeAll(ops[1..]);
      ApplyEncode(regs, ops[0]);
      ApplyAllEncode(Step(regs, ops[0]), ops[1..]);
    }
  }
}

/** The chip's I2C transaction format.  Every register operation is one bus
    exchange: a write phase that starts with an opcode byte, and an optional
    read phase of a fixed length. */
module Wire {
  import opened Wrappers

  type byte = bv8

  /** The six register operations of the chip, a closed set. */
  datatype Opcode = RegRead | RegWrite | SetBit | ClearBit | BlockRead | BlockWrite

  /** The opcode byte that selects each operation. */
  function Code(k: Opcode): byte
  {
    match k
    case RegRead => 0x10     // 0b00010000
    case RegWrite => 0x08    // 0b00001000
    case SetBit => 0x18      // 0b00011000
    case ClearBit => 0x20    // 0b00100000
    case BlockRead => 0x30   // 0b00110000
    case BlockWrite => 0x28  // 0b00101000
  }

  /** The operation an opcode byte selects, if any. */
  function OpcodeOf(b: byte): (r: Option<Opcode>)
    ensures r.Some? ==> Code(r.value) == b
    ensures r.None? ==> forall k :: Code(k) != b
  {
    if b == 0x10 then Some(RegRead)
    else if b == 0x08 then Some(RegWrite)
    else if b == 0x18 then Some(SetBit)
    else if b == 0x20 then Some(ClearBit)
    else if b == 0x30 then Some(BlockRead)
    else if b == 0x28 then Some(BlockWrite)
    else None
  }

  /** Distinct operations have distinct opcode bytes, and the byte names its operation. */
  lemma OpcodeRoundTrip(k: Opcode, j: Opcode)
    ensures OpcodeOf(Code(k)) == Some(k)
    ensures Code(k) == Code(j) <==> k == j
  {
  }

  /** One register operation with its operands.  A block write carries a
      single payload byte: the driver appends its buffer argument to the
      frame as one element. */
  datatype Op =
    | ReadReg(reg: byte)
    | WriteReg(reg: byte, val: byte)
    | SetBits(reg: byte, mask: byte)
    | ClearBits(reg: byte, mask: byte)
    | WriteBlock(reg: byte, data: byte)
    | ReadBlock(size: nat)

  /** One bus exchange: the bytes written and the number of bytes read back
      (0 for a write-only exchange). */
  datatype Frame = Frame(tx: seq<byte>, rxLen: nat)

  function Kind(op: Op): Opcode
  {
    match op
    case ReadReg(_) => RegRead
    case WriteReg(_, _) => RegWrite
    case SetBits(_, _) => SetBit
    case ClearBits(_, _) => ClearBit
    case WriteBlock(_, _) => BlockWrite
    case ReadBlock(_) => BlockRead
  }

  /** The frame the driver transmits for an operation.  Only register reads
      and block reads have a read phase. */
  function Encode(op: Op): (f: Frame)
    ensures |f.tx| > 0 && f.tx[0] == Code(Kind(op))
    ensures f.rxLen > 0 ==> op.ReadReg? || op.ReadBlock?
  {
    match op
    case ReadReg(r) => Frame([Code(RegRead), r], 1)
    case WriteReg(r, v) => Frame([Code(RegWrite), r, v], 0)
    case SetBits(r, m) => Frame([Code(SetBit), r, m], 0)
    case ClearBits(r, m) => Frame([Code(ClearBit), r, m], 0)
    case WriteBlock(r, d) => Frame([Code(BlockWrite), r, d], 0)
    case ReadBlock(n) => Frame([Code(BlockRead)], n)
  }

  /** How the chip reads a frame: the operation it encodes, or None for a
      frame of no known shape. */
  function Decode(f: Frame): Option<Op>
  {
    if |f.tx| == 0 then None
    else
      match OpcodeOf(f.tx[0])
      case None => None
      case Some(RegRead) =>
        if |f.tx| == 2 && f.rxLen == 1 then Some(ReadReg(f.tx[1])) else None
      case Some(RegWrite) =>
        if |f.tx| == 3 && f.rxLen == 0 then Some(WriteReg(f.tx[1], f.tx[2])) else None
      case Some(SetBit) =>
        if |f.tx| == 3 && f.rxLen == 0 then Some(SetBits(f.tx[1], f.tx[2])) else None
      case Some(ClearBit) =>
        if |f.tx| == 3 && f.rxLen == 0 then Some(ClearBits(f.tx[1], f.tx[2])) else None
      case Some(BlockWrite) =>
        if |f.tx| == 3 && f.rxLen == 0 then Some(WriteBlock(f.tx[1], f.tx[2])) else None
      case Some(BlockRead) =>
        if |f.tx| == 1 then Some(ReadBlock(f.rxLen)) else None
  }

  /** A frame of the register-read shape: opcode and register, one byte back. */
  predicate IsRead(f: Frame)
  {
    |f.tx| == 2 && f.rxLen == 1 && f.tx[0] == Code(RegRead)
  }

  /** The encoding is exact both ways: a frame decodes to an operation if and
      only if it is that operation's encoding. */
  lemma DecodeEncode(f: Frame, op: Op)
    ensures Decode(f) == Some(op) <==> f == Encode(op)
  {
    if Decode(f) == Some(op) {
      var n := |f.tx|;
      if n == 1 {
        assert f.tx == [f.tx[0]];
      } else if n == 2 {
        assert f.tx == [f.tx[0], f.tx[1]];
      } else {
        assert f.tx == [f.tx[0], f.tx[1], f.tx[2]];
      }
    }
  }

  /** Encoding never maps two operations to the same frame. */
  lemma EncodeInjective(a: Op, b: Op)
    ensures Encode(a) == Encode(b) <==> a == b
  {
    if Encode(a) == Encode(b) {
      DecodeEncode(Encode(a), a);
      DecodeEncode(Encode(a), b);
    }
  }
}

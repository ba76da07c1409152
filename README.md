# ADS7128 I2C expander driver, modelled in Dafny

This project models the `ADS7128` driver class of `ads7128.py`. The ADS7128
is an eight-pin analog/digital expander that sits on an I2C bus. The driver
talks to it through six fixed register opcodes. On top of those it builds:

- per-pin configuration and digital I/O, as single-bit set and clear
  operations on shared 8-bit registers (bit *i* belongs to pin *i*);
- a 12-bit analog read;
- a two-phase reset handshake with bounded retries.

The model is split by concern:

- `wire.dfy` (module `Wire`): the opcodes, the register operations and the
  frames they become on the bus, with an exact decoder.
- `registers.dfy` (module `Registers`): the register map, and what each
  operation does to the chip's 256-entry register file.
  - SET_BIT ORs the mask in.
  - CLEAR_BIT ANDs in the mask's complement.
  - A register write or a block write overwrites the register.
  - Reads change nothing.
- `pins.dfy` (module `Pins`): the operation sequences the pin calls issue.
  Lemmas prove which bits they change and which pin mode results. A pin's
  mode is read off its bits in PIN_CFG, GPIO_CFG and GPO_DRIVE_CFG:
  - analog input;
  - digital input;
  - push-pull output;
  - open-drain output.
- `adc.dfy` (module `Adc`): decoding the two-byte conversion result.
- `reset.dfy` (module `ResetSequence`): the reset handshake as a pure
  function of what each poll read returns.
- `driver.dfy` (module `Driver`): the class `Ads7128`.
  - It holds the chip's register file as an array and a log of every frame
    sent.
  - Its invariant `Valid()` says the array is what the logged frames made of
    the power-on contents.
  - Every driver method keeps that invariant.
  - Each method states the frames it appends and the new register file, in
    terms of the functions above.

The bus is abstract. `Ads7128.Send` is the one place where a frame reaches
the chip: it appends the frame to the log and applies it to the register
file in place. The bytes the chip sends back come from three places:

- A register read answers from the register file.
- A block read's answer is a parameter.
- A reset's poll reads come from an oracle. The oracle gives the outcome of
  the k-th poll read: a byte, or `None` when the transport raised.

Two choices of the model go beyond what the code itself exposes:

- The driver returns 1 for a timeout in either reset phase.
  `ResetSequence.Outcome` still records which phase timed out
  (`AckTimeout` or `ClearTimeout`). `Driver.Ads7128.Reset` returns the
  driver's 0/1 through `ResetSequence.ExitCode`.
- The code never checks a pin number. The type `Registers.Pin` admits only
  pins 0..7, the ones whose mask `1 << pin` fits in one byte.

## Model

| member | source | states |
|---|---|---|
| Wire.Code | ads7128.py:5-10 | Definition: the opcode byte of each of the six operations. Its properties are in `Wire.OpcodeOf` and `Wire.OpcodeRoundTrip`. |
| Wire.OpcodeOf | ads7128.py:5-10 | When a byte is one of the six opcodes, the opcode returned has that byte as its code. When the result is None, no opcode has that byte. |
| Wire.OpcodeRoundTrip | ads7128.py:5-10 | The six opcode bytes are pairwise distinct, and each one decodes back to its own operation. |
| Wire.Encode | ads7128.py:75-93 | Every frame starts with its operation's opcode byte. Only register reads and block reads have a read phase. |
| Wire.DecodeEncode | ads7128.py:64-93 | A frame decodes to an operation if and only if it is exactly that operation's encoding. This covers the opcode, the operand bytes and the read length. |
| Wire.EncodeInjective | ads7128.py:75-93 | Two operations have the same frame exactly when they are the same operation. |
| Registers.NamedRegistersDistinct | ads7128.py:12-20 | The nine register addresses the driver uses (`Registers.SYS_STATUS` through `Registers.CHANNEL_SEL`) are distinct and in increasing order, so an operation on one never touches another. |
| Registers.Bit | ads7128.py:164 | `(v >> p) & 1` is 0 or 1. It is 1 exactly when the pin's mask bit is set in `v`. |
| Registers.PinToBit | ads7128.py:125-126 | The mask `1 << p` has pin p's bit set and every other pin's bit clear. |
| Registers.BitOfSet | ads7128.py:75-76 | ORing in a pin's mask raises that pin's bit and keeps every other bit. |
| Registers.BitOfClear | ads7128.py:78-79 | ANDing in the complement of a pin's mask lowers that pin's bit and keeps every other bit. |
| Registers.FlipByWrite | ads7128.py:171-174 | Setting a clear bit, or clearing a set bit, is the same as XOR with the mask. |
| Registers.Step | ads7128.py:75-93 | An operation changes at most the one register it names. A read changes no register. |
| Registers.ApplyEncode | ads7128.py:64-93 | The frame an operation is encoded as acts on the chip's registers exactly as that operation does. |
| Registers.ApplyAllAppend | ads7128.py:64-73 | Sending two frame sequences one after the other acts as sending their concatenation. |
| Registers.ApplyAllReads | ads7128.py:84-85 | Any run of register-read frames leaves the register file unchanged. |
| Registers.ApplyAllEncode | ads7128.py:75-93 | Sending the encodings of a list of operations performs those operations in order. |
| Registers.EncodeAll | ads7128.py:75-93 | The frames of an operation list match it in length, and each frame is the encoding of the operation at its position. |
| Pins.ModeOf | ads7128.py:128-151 | Definition: a pin's mode, read off its PIN_CFG, GPIO_CFG and GPO_DRIVE_CFG bits. Its properties are in `Pins.OthersKeepMode` and the four `Configures` lemmas. |
| Pins.PushPullOps | ads7128.py:128-133 | Definition: the three operations `_gpo_pp` issues, in order. Its properties are in `Pins.PushPullConfigures`. |
| Pins.OpenDrainOps | ads7128.py:135-140 | Definition: the three operations `_gpo_od` issues, in order. Its properties are in `Pins.OpenDrainConfigures`. |
| Pins.DigitalInputOps | ads7128.py:142-146 | Definition: the two operations `_gpi` issues, in order. Its properties are in `Pins.DigitalInputConfigures`. |
| Pins.AnalogOps | ads7128.py:148-151 | Definition: the single operation `_analog` issues. Its properties are in `Pins.AnalogConfigures`. |
| Pins.WriteOps | ads7128.py:153-159 | Definition: the operation `pin_write` issues for a zero and for a nonzero value. Its properties are in `Pins.WriteThenReadLatch`. |
| Pins.ToggleOps | ads7128.py:171-174 | Definition: the latch read and the write of the inverted bit that `pin_toggle` issues. Its properties are in `Pins.ToggleFlips`. |
| Pins.Toggled | ads7128.py:171-174 | Definition: the register file after a toggle. Its properties are in `Pins.ToggleFlips` and `Pins.ToggleTwiceRestores`. |
| Pins.OthersKeepMode | ads7128.py:128-151 | A change confined to pin p's bits leaves every other pin's mode unchanged. |
| Pins.SetPinBit | ads7128.py:75-76 | Setting pin p's mask in a register raises p's bit there. Every other pin's bit in every register is kept, and so is every other register. |
| Pins.ClearPinBit | ads7128.py:78-79 | Clearing pin p's mask lowers p's bit in that register. Every other pin's bit in every register is kept, and so is every other register. |
| Pins.PushPullConfigures | ads7128.py:128-133 | Afterwards pin p's bits in PIN_CFG, GPIO_CFG and GPO_DRIVE_CFG are all 1, and its mode is push-pull output. Only pin p's bits of those three registers change. |
| Pins.OpenDrainConfigures | ads7128.py:135-140 | Afterwards pin p's PIN_CFG and GPIO_CFG bits are 1 and its GPO_DRIVE_CFG bit is 0, so its mode is open-drain output. Only pin p's bits of those three registers change. |
| Pins.DigitalInputConfigures | ads7128.py:142-146 | Afterwards pin p's PIN_CFG bit is 1 and its GPIO_CFG bit is 0, so its mode is digital input. GPO_DRIVE_CFG is untouched, and no other pin's bits change. |
| Pins.AnalogConfigures | ads7128.py:148-151 | Afterwards pin p's PIN_CFG bit is 0, so its mode is analog input. Only that bit changes. |
| Pins.WriteThenReadLatch | ads7128.py:153-164 | After a pin write, pin p's latch bit is 1 when the value is nonzero and 0 when it is zero. GPI_VALUE and every other pin's bits are unchanged. |
| Pins.ToggleFlips | ads7128.py:171-174 | A toggle XORs pin p's mask into GPO_VALUE: exactly bit p of GPO_VALUE is inverted, and every other register is unchanged. |
| Pins.ToggleTwiceRestores | ads7128.py:171-174 | Two toggles of the same pin restore the register file. |
| Adc.Sample12 | ads7128.py:179-185 | The decoded sample is below 4096. Its top eight bits are the first byte, and its low four bits are the high nibble of the second byte. |
| Adc.SampleIsOr | ads7128.py:185 | The driver's sum `(b0 << 4) + (b1 >> 4)` equals the bitwise OR of the two parts. |
| Adc.SampleRoundTrip | ads7128.py:181-185 | Every 12-bit value, sent in the two-byte format, decodes back to itself. |
| Adc.SampleIgnoresLowNibble | ads7128.py:181-185 | Two byte pairs decode to the same sample if and only if their first bytes are equal and their second bytes agree in the high nibble. |
| Adc.SampleExample | ads7128.py:181-185 | [0xAB, 0xC0] decodes to 0xABC = 2748. |
| ResetSequence.Acked | ads7128.py:103 | Definition: the phase-1 condition, status bit 0 up and reset bit 0 down. Its properties are in `ResetSequence.AckPollEndsOnAck` and `ResetSequence.AckPollFirstAck`. |
| ResetSequence.Cleared | ads7128.py:116-117 | Definition: the phase-2 condition, a read that returned with status bit 0 down. Its properties are in `ResetSequence.ClearPollSucceedsIff`. |
| ResetSequence.AckPoll | ads7128.py:99-110 | Definition: phase 1 as a function of the poll replies. Its properties are in `ResetSequence.AckPollEndsOnAck`, `ResetSequence.AckPollFirstAck` and `ResetSequence.AckPollShape`. |
| ResetSequence.ClearPoll | ads7128.py:114-123 | Definition: phase 2 as a function of the poll replies. Its properties are in `ResetSequence.ClearPollSucceedsIff` and `ResetSequence.ClearPollShape`. |
| ResetSequence.Reset | ads7128.py:95-123 | Definition: a whole reset, its outcome and every frame it sends. Its properties are in the lemmas from `ResetSequence.ResetStarts` to `ResetSequence.BusAlwaysFails`. |
| ResetSequence.ExitCode | ads7128.py:109-123 | The reset returns 0 exactly on success and 1 otherwise. |
| ResetSequence.AckAttempt | ads7128.py:99-108 | Gives each outcome of one phase-1 attempt. A raising SYS_STATUS read sends one frame. Otherwise two reads are sent. The phase stops only when both reads succeed with status bit 0 up and reset bit 0 down. |
| ResetSequence.ClearAttempt | ads7128.py:114-121 | Gives both outcomes of one phase-2 attempt. It stops on a successful read with status bit 0 down. A raising read or a set bit tries again. |
| ResetSequence.AckPollEndsOnAck | ads7128.py:99-104 | Phase 1 succeeds only on an acknowledgement: its last two poll reads both returned, the first with status bit 0 up and the second with reset bit 0 down. A raising read never counts as an acknowledgement. |
| ResetSequence.AckPollFirstAck | ads7128.py:99-106 | Phase 1 stops at the first acknowledgement. Read j of its frames is poll read k + j. No SYS_STATUS-then-GENERAL_CFG attempt before the last one saw an acknowledgement, and on a timeout none did. Its first frame is a SYS_STATUS read. |
| ResetSequence.AckPollShape | ads7128.py:99-108 | Phase 1 sends only reads of SYS_STATUS and GENERAL_CFG: at most two per attempt, at least one per attempt when it times out. |
| ResetSequence.ClearPollShape | ads7128.py:114-121 | Phase 2 sends only SYS_STATUS reads: at least one and at most one per attempt. It uses all of its attempts when it times out. |
| ResetSequence.ClearPollSucceedsIff | ads7128.py:114-123 | Phase 2 succeeds if and only if one of its reads finds the flag down. It stops at the first such read. |
| ResetSequence.ResetStarts | ads7128.py:95-108 | Every reset first sends the reset command (set GENERAL_CFG bit 0), then the phase-1 reads. A phase-1 timeout sends at least 1 + 5 frames. |
| ResetSequence.AckTimeoutNeverClears | ads7128.py:99-110 | The reset times out in phase 1 exactly when phase 1 fails. It then never sends the acknowledgement (set SYS_STATUS bit 0), and it makes between 5 and 10 reads. |
| ResetSequence.AckedThenClear | ads7128.py:111-123 | After phase 1 succeeds, the acknowledgement and the reset command are each sent exactly once. The reset succeeds if and only if one of the next ten reads finds the flag down. Phase 2 makes 1 to 10 reads. |
| ResetSequence.ResetReadBound | ads7128.py:95-123 | Whatever the chip answers, a reset makes at most 5×2 + 10 = 20 poll reads and sends at most 22 frames. |
| ResetSequence.AckedAtFirstPoll | ads7128.py:99-123 | A chip that acknowledges at the first attempt gets exactly: the reset command, one read of each register, then the acknowledgement. |
| ResetSequence.NeverAcknowledged | ads7128.py:99-110 | A chip that answers every read but whose GENERAL_CFG reads (the odd-numbered poll reads) always have bit 0 set gets five two-read attempts and a phase-1 timeout. The status values do not matter. |
| ResetSequence.BusAlwaysFails | ads7128.py:99-110 | When every read raises, the failures are swallowed. Each attempt makes one read, and the reset times out in phase 1. |
| Driver.Ads7128.constructor | ads7128.py:58-62 | The new driver has the given address (0x10 by default) and an empty log. The register file is the power-on contents. |
| Driver.Ads7128.Send | ads7128.py:64-73 | The frame is appended to the log and applied to the register file in place. |
| Driver.Ads7128.Transmit | ads7128.py:64-73 | One exchange: the frame is logged and applied. The bytes read come back when the read length is nonzero, and None otherwise. |
| Driver.Ads7128.BitSet | ads7128.py:75-76 | Sends exactly `[0x18, reg, mask]` with no read phase. The register gets the mask ORed in. |
| Driver.Ads7128.BitClear | ads7128.py:78-79 | Sends exactly `[0x20, reg, mask]` with no read phase. The register gets the mask's complement ANDed in. |
| Driver.Ads7128.RegWrite | ads7128.py:81-82 | Sends exactly `[0x08, reg, val]` with no read phase. The register is overwritten. |
| Driver.Ads7128.RegRead | ads7128.py:84-85 | Sends `[0x10, reg]` with one byte to read. Returns the register's content and changes nothing. |
| Driver.Ads7128.BlockWrite | ads7128.py:87-90 | Sends `[0x28, reg, buff]` with `buff` as one byte. The register is overwritten. |
| Driver.Ads7128.BlockRead | ads7128.py:92-93 | Sends `[0x30]` with `size` bytes to read. Returns them, or None when `size` is 0. Changes nothing. |
| Driver.Ads7128.Reset | ads7128.py:95-123 | Sends exactly the frames of `ResetSequence.Reset` for the oracle, and returns its exit code. The register file is what those frames make of it. |
| Driver.Ads7128.AwaitAck | ads7128.py:99-110 | The phase-1 loop sends exactly the frames of `ResetSequence.AckPoll`. It reports whether the chip acknowledged, and where the poll reads stand. |
| Driver.Ads7128.AwaitClear | ads7128.py:114-123 | The phase-2 loop sends exactly the frames of `ResetSequence.ClearPoll` and reports its success. |
| Driver.Ads7128.PollRead | ads7128.py:100-101 | A poll read is logged as a register read whether or not the transport raises. It yields the oracle's reply and changes no register. |
| Driver.Ads7128.GpoPushPull | ads7128.py:128-133 | Sends the three set-bit frames in order. The register file becomes the one `Pins.PushPullConfigures` describes. |
| Driver.Ads7128.GpoOpenDrain | ads7128.py:135-140 | Sends set, set, clear in order. The register file becomes the one `Pins.OpenDrainConfigures` describes. |
| Driver.Ads7128.Gpi | ads7128.py:142-146 | Sends set PIN_CFG, then clear GPIO_CFG. The register file becomes the one `Pins.DigitalInputConfigures` describes. |
| Driver.Ads7128.Analog | ads7128.py:148-151 | Sends clear PIN_CFG only. The register file becomes the one `Pins.AnalogConfigures` describes. |
| Driver.Ads7128.PinWrite | ads7128.py:153-159 | A zero value clears the pin's GPO_VALUE bit; any other value sets it. |
| Driver.Ads7128.PinReadLatch | ads7128.py:161-164 | Reads GPO_VALUE once and returns pin p's bit of it. Changes nothing. |
| Driver.Ads7128.PinRead | ads7128.py:166-169 | Reads GPI_VALUE once and returns pin p's bit of it. Changes nothing. |
| Driver.Ads7128.PinToggle | ads7128.py:171-174 | Reads the latch, then writes back the inverted bit. The `ret >= 0` guard always holds. The register file becomes `Pins.Toggled`, in which only bit p of GPO_VALUE is flipped. |
| Driver.Ads7128.SetOsr | ads7128.py:176-177 | Overwrites OSR_CFG with the ratio and changes no other register. |
| Driver.Ads7128.AdcRead | ads7128.py:179-185 | Writes the pin number into CHANNEL_SEL (0x11), then block-reads `size` bytes. Returns the 12-bit sample of the first two bytes. |

## Left out

- The SMBus and `i2c_msg` bus access is not modelled. It is foreign library I/O. The bus is the abstract `Send`/`Transmit` pair, which logs the frame and applies it to the register file.
- The bus number (`nbus`) and opening the bus are left out, for the same reason.
- The bus address is kept in `Driver.Ads7128.addr` but frames do not carry it. Each driver object talks to one chip, so every logged frame goes to that address.
- `time.sleep` delays are left out; they have no effect on the frames or the result. The diagnostic print of the reset is also left out. Only the retry counts are modelled.
- Transport failures outside a reset are not modelled. There the source lets the exception propagate to the caller, so the model's methods assume the exchange succeeds.
- Only a reset's poll reads may fail, through the oracle.
- The chip's own behaviour beyond its register commands is not modelled:
  - the reset it performs;
  - the status flag it raises and clears;
  - the input levels it samples into GPI_VALUE;
  - the conversion data it returns.

  The register file only mirrors what the driver's commands do. The poll reads and the block-read data come from parameters.
- The `__main__` demo is left out. It is example code, not driver behaviour.
- `exp_io.py` is not part of this model: it is a demo script with no driver logic.
- The pin-to-screw wiring notes are left out; they describe the board, not behaviour.
- Pins are restricted to 0..7 by the type `Registers.Pin`. The source computes `1 << pin` without checking, and that mask is one byte only for those eight pins.
- `Driver.Ads7128.AdcRead`: with `size` below 2 the source fails on the index into the reply. The model returns None instead.
- `Driver.Ads7128.PinWrite`: the source tests its value for Python truthiness. The model takes an integer and treats only 0 as false.
- `Driver.Ads7128.BlockWrite`: the source appends its `buff` argument as one element. The model takes a single byte and does not model passing a list.
- `Driver.Ads7128.AwaitAck`, `Driver.Ads7128.AwaitClear`: these do not state that the register file is unchanged. That follows from their log, `Valid()` and `Registers.ApplyAllReads`.

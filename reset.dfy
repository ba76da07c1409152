/** The reset handshake as a pure state machine over the outcomes of the
    poll reads.  Phase 1 polls SYS_STATUS and GENERAL_CFG up to five times
    for "reset done, reset bit cleared"; phase 2 acknowledges with a set of
    SYS_STATUS bit 0 and polls SYS_STATUS up to ten times for that bit to
    fall.  A read that raises is swallowed and counts as "not yet". */
module ResetSequence {
  import opened Wrappers
  import opened Wire
  import opened Registers

  const ACK_TRIES: nat := 5
  const CLEAR_TRIES: nat := 10

  /** What the k-th poll read of a reset returns; None when the transport raised. */
  type Oracle = nat -> Option<byte>

  /** The terminal states: success, or a timeout in one of the two phases. */
  datatype Outcome = Ready | AckTimeout | ClearTimeout

  /** A finished polling phase: whether it saw its condition, the read frames
      it sent, and the number of the next poll read. */
  datatype Poll = Poll(success: bool, frames: seq<Frame>, next: nat)

  function ReadFrame(reg: byte): Frame
  {
    Encode(ReadReg(reg))
  }

  /** The command that starts a reset (bit 0 of GENERAL_CFG). */
  function ResetCommand(): Frame
  {
    Encode(SetBits(GENERAL_CFG, 1))
  }

  /** The command that acknowledges the reset (bit 0 of SYS_STATUS). */
  function ClearCommand(): Frame
  {
    Encode(SetBits(SYS_STATUS, 1))
  }

  function Later(fs: seq<Frame>, p: Poll): Poll
  {
    Poll(p.success, fs + p.frames, p.next)
  }

  /** Phase 1 with `tries` attempts left, the next poll read being number `k`.
      An attempt reads SYS_STATUS and then GENERAL_CFG; when the first read
      raises, the second is not made. */
  function AckPoll(o: Oracle, tries: nat, k: nat): Poll
    decreases tries
  {
    if tries == 0 then Poll(false, [], k)
    else
      match o(k)
      case None => Later([ReadFrame(SYS_STATUS)], AckPoll(o, tries - 1, k + 1))
      case Some(status) =>
        var sent := [ReadFrame(SYS_STATUS), ReadFrame(GENERAL_CFG)];
        match o(k + 1)
        case None => Later(sent, AckPoll(o, tries - 1, k + 2))
        case Some(general) =>
          if Acked(status, general) then Poll(true, sent, k + 2)
          else Later(sent, AckPoll(o, tries - 1, k + 2))
  }

  /** The phase-1 condition: the status flag is up and the reset bit has fallen. */
  predicate Acked(status: byte, general: byte)
  {
    status & 1 == 1 && general & 1 == 0
  }

  /** The phase-2 condition on one read: it succeeded and the status flag is down. */
  predicate Cleared(r: Option<byte>)
  {
    r.Some? && r.value & 1 == 0
  }

  /** Phase 2 with `tries` attempts left, the next poll read being number `k`. */
  function ClearPoll(o: Oracle, tries: nat, k: nat): Poll
    decreases tries
  {
    if tries == 0 then Poll(false, [], k)
    else if Cleared(o(k)) then Poll(true, [ReadFrame(SYS_STATUS)], k + 1)
    else Later([ReadFrame(SYS_STATUS)], ClearPoll(o, tries - 1, k + 1))
  }

  /** A whole reset: its terminal state and every frame it sends, in order. */
  datatype Run = Run(outcome: Outcome, frames: seq<Frame>)

  function Reset(o: Oracle): Run
  {
    var ack := AckPoll(o, ACK_TRIES, 0);
    var start := [ResetCommand()] + ack.frames;
    if !ack.success then Run(AckTimeout, start)
    else
      var clear := ClearPoll(o, CLEAR_TRIES, ack.next);
      Run(if clear.success then Ready else ClearTimeout, start + [ClearCommand()] + clear.frames)
  }

  /** The driver reports 0 for success and 1 for either timeout. */
  function ExitCode(r: Outcome): (code: int)
    ensures code == 0 <==> r == Ready
    ensures code == 0 || code == 1
  {
    if r == Ready then 0 else 1
  }

  /** The number of register reads among some frames. */
  function Reads(fs: seq<Frame>): nat
  {
    if fs == [] then 0
    else (if IsRead(fs[0]) then 1 else 0) + Reads(fs[1..])
  }

  // ---- lemmas about the phases ----

  /** Prepending twice is prepending the concatenation. */
  lemma LaterLater(a: seq<Frame>, b: seq<Frame>, p: Poll)
    ensures Later(a, Later(b, p)) == Later(a + b, p)
  {
    assert a + (b + p.frames) == (a + b) + p.frames;
  }

  /** One phase-1 attempt, case by case: the frames it sends and where the
      phase goes on from. */
  lemma AckAttempt(o: Oracle, tries: nat, k: nat)
    requires tries > 0
    ensures o(k).None? ==>
      AckPoll(o, tries, k) == Later([ReadFrame(SYS_STATUS)], AckPoll(o, tries - 1, k + 1))
    ensures o(k).Some? && o(k + 1).Some? && Acked(o(k).value, o(k + 1).value) ==>
      AckPoll(o, tries, k) == Poll(true, [ReadFrame(SYS_STATUS), ReadFrame(GENERAL_CFG)], k + 2)
    ensures o(k).Some? && !(o(k + 1).Some? && Acked(o(k).value, o(k + 1).value)) ==>
      AckPoll(o, tries, k) == Later([ReadFrame(SYS_STATUS), ReadFrame(GENERAL_CFG)], AckPoll(o, tries - 1, k + 2))
  {
  }

  /** One phase-2 attempt, case by case. */
  lemma ClearAttempt(o: Oracle, tries: nat, k: nat)
    requires tries > 0
    ensures Cleared(o(k)) ==> ClearPoll(o, tries, k) == Poll(true, [ReadFrame(SYS_STATUS)], k + 1)
    ensures !Cleared(o(k)) ==>
      ClearPoll(o, tries, k) == Later([ReadFrame(SYS_STATUS)], ClearPoll(o, tries - 1, k + 1))
  {
  }

  /** Phase 1 only reads, one or two reads per attempt, `k` advancing by one per read. */
  lemma {:induction false} AckPollShape(o: Oracle, tries: nat, k: nat)
    ensures var p := AckPoll(o, tries, k);
      (forall i :: 0 <= i < |p.frames| ==> p.frames[i] == ReadFrame(SYS_STATUS) || p.frames[i] == ReadFrame(GENERAL_CFG)) &&
      |p.frames| <= 2 * tries &&
      (!p.success ==> tries <= |p.frames|) &&
      p.next == k + |p.frames|
    decreases tries
  {
    if tries > 0 {
      match o(k)
      case None =>
        AckPollShape(o, tries - 1, k + 1);
      case Some(status) =>
        AckPollShape(o, tries - 1, k + 2);
    }
  }

  /** Phase 1 succeeds only on an acknowledgement: its last two reads both
      returned, the first with the status flag up and the second with the
      reset bit down. */
  lemma {:induction false} AckPollEndsOnAck(o: Oracle, tries: nat, k: nat)
    ensures var p := AckPoll(o, tries, k);
      p.success ==> k + 2 <= p.next && AckedAt(o, p.next - 2)
    decreases tries
  {
    if tries > 0 {
      match o(k)
      case None =>
        AckPollEndsOnAck(o, tries - 1, k + 1);
      case Some(status) =>
        AckPollEndsOnAck(o, tries - 1, k + 2);
    }
  }

  /** Poll reads i and i + 1 both returned and together acknowledge the reset. */
  predicate AckedAt(o: Oracle, i: nat)
  {
    o(i).Some? && o(i + 1).Some? && Acked(o(i).value, o(i + 1).value)
  }

  /** Frames j and j + 1 are one two-read attempt: SYS_STATUS, then GENERAL_CFG. */
  predicate PairAt(fs: seq<Frame>, j: nat)
  {
    j + 1 < |fs| && fs[j] == ReadFrame(SYS_STATUS) && fs[j + 1] == ReadFrame(GENERAL_CFG)
  }

  /** No two-read attempt among the first `n` frames, the first being poll read
      number `k`, saw an acknowledgement. */
  ghost predicate NoAckBefore(o: Oracle, k: nat, fs: seq<Frame>, n: int)
  {
    forall j: nat :: j < n && PairAt(fs, j) ==> !AckedAt(o, k + j)
  }

  /** Phase 1 stops at the first acknowledgement.  Read number j of its frames
      is poll read k + j, and no attempt before the last one (on a timeout,
      none at all) saw an acknowledgement; an attempt with a raising read
      counts as "not yet".  Its first frame is a SYS_STATUS read. */
  lemma {:induction false} AckPollFirstAck(o: Oracle, tries: nat, k: nat)
    ensures var p := AckPoll(o, tries, k);
      (tries > 0 ==> |p.frames| > 0 && p.frames[0] == ReadFrame(SYS_STATUS)) &&
      NoAckBefore(o, k, p.frames, if p.success then |p.frames| - 2 else |p.frames|)
    decreases tries, 1
  {
    if tries > 0 {
      if o(k).None? {
        FirstAckAfterRaise(o, tries, k);
      } else if !AckedAt(o, k) {
        FirstAckAfterAttempt(o, tries, k);
      }
    }
  }

  lemma {:induction false} FirstAckAfterRaise(o: Oracle, tries: nat, k: nat)
    requires tries > 0 && o(k).None?
    ensures var p := AckPoll(o, tries, k);
      |p.frames| > 0 && p.frames[0] == ReadFrame(SYS_STATUS) &&
      NoAckBefore(o, k, p.frames, if p.success then |p.frames| - 2 else |p.frames|)
    decreases tries, 0
  {
    var rest := AckPoll(o, tries - 1, k + 1);
    AckPollFirstAck(o, tries - 1, k + 1);
    var n := if rest.success then |rest.frames| - 2 else |rest.frames|;
    NoAckAfterRaise(o, k, rest.frames, n);
    assert AckPoll(o, tries, k) == Later([ReadFrame(SYS_STATUS)], rest);
  }

  lemma {:induction false} FirstAckAfterAttempt(o: Oracle, tries: nat, k: nat)
    requires tries > 0 && o(k).Some? && !AckedAt(o, k)
    ensures var p := AckPoll(o, tries, k);
      |p.frames| > 0 && p.frames[0] == ReadFrame(SYS_STATUS) &&
      NoAckBefore(o, k, p.frames, if p.success then |p.frames| - 2 else |p.frames|)
    decreases tries, 0
  {
    var rest := AckPoll(o, tries - 1, k + 2);
    AckPollFirstAck(o, tries - 1, k + 2);
    var n := if rest.success then |rest.frames| - 2 else |rest.frames|;
    NoAckAfterAttempt(o, k, rest.frames, n);
    assert AckPoll(o, tries, k) == Later([ReadFrame(SYS_STATUS), ReadFrame(GENERAL_CFG)], rest);
  }

  /** An attempt whose SYS_STATUS read raised adds no acknowledged attempt. */
  lemma NoAckAfterRaise(o: Oracle, k: nat, rest: seq<Frame>, n: int)
    requires NoAckBefore(o, k + 1, rest, n)
    requires |rest| > 0 ==> rest[0] == ReadFrame(SYS_STATUS)
    ensures NoAckBefore(o, k, [ReadFrame(SYS_STATUS)] + rest, n + 1)
  {
    var fs := [ReadFrame(SYS_STATUS)] + rest;
    forall j: nat | j < n + 1 && PairAt(fs, j)
      ensures !AckedAt(o, k + j)
    {
      if j > 0 {
        assert PairAt(rest, j - 1);
        assert k + j == (k + 1) + (j - 1);
      }
    }
  }

  /** A completed attempt that did not acknowledge adds no acknowledged attempt. */
  lemma NoAckAfterAttempt(o: Oracle, k: nat, rest: seq<Frame>, n: int)
    requires NoAckBefore(o, k + 2, rest, n)
    requires !AckedAt(o, k)
    ensures NoAckBefore(o, k, [ReadFrame(SYS_STATUS), ReadFrame(GENERAL_CFG)] + rest, n + 2)
  {
    var fs := [ReadFrame(SYS_STATUS), ReadFrame(GENERAL_CFG)] + rest;
    forall j: nat | j < n + 2 && PairAt(fs, j)
      ensures !AckedAt(o, k + j)
    {
      if j >= 2 {
        assert PairAt(rest, j - 2);
        assert k + j == (k + 2) + (j - 2);
      }
    }
  }

  /** Phase 2 only reads SYS_STATUS, at most once per attempt, and all
      `tries` times when it times out. */
  lemma {:induction false} ClearPollShape(o: Oracle, tries: nat, k: nat)
    ensures var p := ClearPoll(o, tries, k);
      (forall i :: 0 <= i < |p.frames| ==> p.frames[i] == ReadFrame(SYS_STATUS)) &&
      1 <= |p.frames| + (if tries == 0 then 1 else 0) &&
      |p.frames| <= tries &&
      (!p.success ==> |p.frames| == tries) &&
      p.next == k + |p.frames|
    decreases tries
  {
    if tries > 0 && !Cleared(o(k)) {
      ClearPollShape(o, tries - 1, k + 1);
    }
  }

  /** Phase 2 succeeds exactly when one of its `tries` reads finds the
      status flag down, and it stops at the first such read. */
  lemma {:induction false} ClearPollSucceedsIff(o: Oracle, tries: nat, k: nat)
    ensures ClearPoll(o, tries, k).success <==> exists j :: k <= j < k + tries && Cleared(o(j))
    ensures ClearPoll(o, tries, k).success ==>
      var n := |ClearPoll(o, tries, k).frames|;
      n >= 1 && Cleared(o(k + n - 1)) && forall j :: k <= j < k + n - 1 ==> !Cleared(o(j))
    decreases tries
  {
    if tries > 0 && !Cleared(o(k)) {
      ClearPollSucceedsIff(o, tries - 1, k + 1);
      var rest := ClearPoll(o, tries - 1, k + 1);
      if rest.success {
        assert ClearPoll(o, tries, k).frames == [ReadFrame(SYS_STATUS)] + rest.frames;
      }
      if exists j :: k <= j < k + tries && Cleared(o(j)) {
        var j :| k <= j < k + tries && Cleared(o(j));
        assert j != k;
      }
    }
  }

  // ---- lemmas about a whole reset ----

  /** Every reset starts with the reset command, then phase-1 reads. */
  lemma ResetStarts(o: Oracle)
    ensures Reset(o).outcome == AckTimeout ==> |Reset(o).frames| >= 1 + ACK_TRIES
    ensures Reset(o).frames[0] == ResetCommand()
    ensures Reset(o).frames[1..1 + |AckPoll(o, ACK_TRIES, 0).frames|] == AckPoll(o, ACK_TRIES, 0).frames
  {
    AckPollShape(o, ACK_TRIES, 0);
  }

  /** A phase-1 timeout sends no acknowledgement: the reset command is its
      only write, and it sends exactly that and the phase-1 reads. */
  lemma AckTimeoutNeverClears(o: Oracle)
    ensures Reset(o).outcome == AckTimeout <==> !AckPoll(o, ACK_TRIES, 0).success
    ensures Reset(o).outcome == AckTimeout ==>
      ClearCommand() !in Reset(o).frames &&
      Reset(o).frames == [ResetCommand()] + AckPoll(o, ACK_TRIES, 0).frames &&
      ACK_TRIES <= Reads(Reset(o).frames) <= 2 * ACK_TRIES
  {
    var ack := AckPoll(o, ACK_TRIES, 0);
    AckPollShape(o, ACK_TRIES, 0);
    if !ack.success {
      ReadsOfReads(ack.frames);
      ReadsCons(ResetCommand(), ack.frames);
      DistinctCommands();
    }
  }

  /** After phase 1 succeeds, exactly one acknowledgement is sent, and phase 2's
      outcome decides the reset: success exactly when one of the next ten
      reads finds the status flag down. */
  lemma AckedThenClear(o: Oracle)
    requires AckPoll(o, ACK_TRIES, 0).success
    ensures var ack := AckPoll(o, ACK_TRIES, 0);
      var clear := ClearPoll(o, CLEAR_TRIES, ack.next);
      Reset(o).frames == [ResetCommand()] + ack.frames + [ClearCommand()] + clear.frames &&
      multiset(Reset(o).frames)[ClearCommand()] == 1 &&
      multiset(Reset(o).frames)[ResetCommand()] == 1 &&
      (Reset(o).outcome == Ready <==> exists j :: ack.next <= j < ack.next + CLEAR_TRIES && Cleared(o(j))) &&
      (Reset(o).outcome == ClearTimeout <==> !clear.success) &&
      1 <= Reads(clear.frames) <= CLEAR_TRIES
  {
    var ack := AckPoll(o, ACK_TRIES, 0);
    var clear := ClearPoll(o, CLEAR_TRIES, ack.next);
    AckPollShape(o, ACK_TRIES, 0);
    ClearPollShape(o, CLEAR_TRIES, ack.next);
    ClearPollSucceedsIff(o, CLEAR_TRIES, ack.next);
    ReadsOfReads(clear.frames);
    DistinctCommands();
    var fs := Reset(o).frames;
    assert fs == [ResetCommand()] + ack.frames + [ClearCommand()] + clear.frames;
    NotInReads(ack.frames, ClearCommand());
    NotInReads(clear.frames, ClearCommand());
    NotInReads(ack.frames, ResetCommand());
    NotInReads(clear.frames, ResetCommand());
    assert multiset(fs) == multiset([ResetCommand()]) + multiset(ack.frames) + multiset([ClearCommand()]) + multiset(clear.frames);
  }

  /** However the chip answers, a reset makes at most twenty poll reads:
      ten in phase 1 and ten in phase 2. */
  lemma ResetReadBound(o: Oracle)
    ensures Reads(Reset(o).frames) <= 2 * ACK_TRIES + CLEAR_TRIES
    ensures |Reset(o).frames| <= 2 + 2 * ACK_TRIES + CLEAR_TRIES
  {
    var ack := AckPoll(o, ACK_TRIES, 0);
    AckPollShape(o, ACK_TRIES, 0);
    ReadsOfReads(ack.frames);
    DistinctCommands();
    if ack.success {
      var clear := ClearPoll(o, CLEAR_TRIES, ack.next);
      ClearPollShape(o, CLEAR_TRIES, ack.next);
      ReadsOfReads(clear.frames);
      var fs := Reset(o).frames;
      assert fs == [ResetCommand()] + (ack.frames + ([ClearCommand()] + clear.frames));
      ReadsCons(ResetCommand(), ack.frames + ([ClearCommand()] + clear.frames));
      ReadsAppend(ack.frames, [ClearCommand()] + clear.frames);
      ReadsCons(ClearCommand(), clear.frames);
    } else {
      ReadsCons(ResetCommand(), ack.frames);
    }
  }

  /** A chip that acknowledges at the first poll: the reset sends the reset
      command, one read of each register, the acknowledgement, and then
      polls from read number 2 on. */
  lemma AckedAtFirstPoll(o: Oracle)
    requires o(0).Some? && o(1).Some? && Acked(o(0).value, o(1).value)
    ensures Reset(o).frames[..4] == [ResetCommand(), ReadFrame(SYS_STATUS), ReadFrame(GENERAL_CFG), ClearCommand()]
    ensures Reset(o).outcome == Ready <==> exists j :: 2 <= j < 2 + CLEAR_TRIES && Cleared(o(j))
    ensures |Reset(o).frames| <= 4 + CLEAR_TRIES
  {
    var ack := AckPoll(o, ACK_TRIES, 0);
    assert ack == Poll(true, [ReadFrame(SYS_STATUS), ReadFrame(GENERAL_CFG)], 2);
    ClearPollShape(o, CLEAR_TRIES, 2);
    ClearPollSucceedsIff(o, CLEAR_TRIES, 2);
  }

  /** A chip that answers every read but never lets the reset bit fall (bit 0
      of every GENERAL_CFG read, the odd-numbered poll reads, is set) never
      acknowledges: five attempts of two reads each, then a phase-1 timeout. */
  lemma NeverAcknowledged(o: Oracle)
    requires forall k :: o(k).Some? && (k % 2 == 1 ==> o(k).value & 1 == 1)
    ensures Reset(o).outcome == AckTimeout
    ensures Reset(o).frames == [ResetCommand()] + Repeat([ReadFrame(SYS_STATUS), ReadFrame(GENERAL_CFG)], ACK_TRIES)
  {
    AckPollNever(o, ACK_TRIES, 0);
  }

  /** A bus on which every read raises: each attempt makes only its first
      read, the failures are swallowed, and the reset times out in phase 1. */
  lemma BusAlwaysFails(o: Oracle)
    requires forall k :: o(k).None?
    ensures Reset(o).outcome == AckTimeout
    ensures Reset(o).frames == [ResetCommand()] + Repeat([ReadFrame(SYS_STATUS)], ACK_TRIES)
  {
    AckPollFails(o, ACK_TRIES, 0);
  }

  function Repeat<T>(s: seq<T>, n: nat): seq<T>
  {
    if n == 0 then [] else s + Repeat(s, n - 1)
  }

  lemma {:induction false} AckPollNever(o: Oracle, tries: nat, k: nat)
    requires forall k :: o(k).Some? && (k % 2 == 1 ==> o(k).value & 1 == 1)
    requires k % 2 == 0
    ensures AckPoll(o, tries, k) == Poll(false, Repeat([ReadFrame(SYS_STATUS), ReadFrame(GENERAL_CFG)], tries), k + 2 * tries)
    decreases tries
  {
    if tries > 0 {
      assert (k + 1) % 2 == 1;
      AckPollNever(o, tries - 1, k + 2);
    }
  }

  lemma {:induction false} AckPollFails(o: Oracle, tries: nat, k: nat)
    requires forall k :: o(k).None?
    ensures AckPoll(o, tries, k) == Poll(false, Repeat([ReadFrame(SYS_STATUS)], tries), k + tries)
    decreases tries
  {
    if tries > 0 {
      AckPollFails(o, tries - 1, k + 1);
    }
  }

  // ---- counting reads ----

  lemma DistinctCommands()
    ensures !IsRead(ResetCommand()) && !IsRead(ClearCommand())
    ensures ResetCommand() != ClearCommand()
  {
  }

  lemma ReadsCons(f: Frame, fs: seq<Frame>)
    ensures Reads([f] + fs) == (if IsRead(f) then 1 else 0) + Reads(fs)
  {
    assert ([f] + fs)[1..] == fs;
  }

  lemma {:induction false} ReadsAppend(a: seq<Frame>, b: seq<Frame>)
    ensures Reads(a + b) == Reads(a) + Reads(b)
    decreases |a|
  {
    if a == [] {
      assert a + b == b;
    } else {
      assert a + b == [a[0]] + (a[1..] + b);
      assert a == [a[0]] + a[1..];
      ReadsCons(a[0], a[1..] + b);
      ReadsCons(a[0], a[1..]);
      ReadsAppend(a[1..], b);
    }
  }

  /** A sequence of read frames counts every one of them. */
  lemma {:induction false} ReadsOfReads(fs: seq<Frame>)
    requires forall i :: 0 <= i < |fs| ==> IsRead(fs[i])
    ensures Reads(fs) == |fs|
    decreases |fs|
  {
    if fs != [] {
      assert fs == [fs[0]] + fs[1..];
      ReadsCons(fs[0], fs[1..]);
      ReadsOfReads(fs[1..]);
    }
  }

  lemma NotInReads(fs: seq<Frame>, f: Frame)
    requires forall i :: 0 <= i < |fs| ==> IsRead(fs[i])
    requires !IsRead(f)
    ensures f !in fs
    ensures multiset(fs)[f] == 0
  {
  }
}

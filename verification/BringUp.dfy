/**
 Bring-up of the xHCI controller (`Controller::init` in kernel/src/xhci.rs) as register accesses
 against an arbitrary controller (sections 4.2, 5.4.1 and 5.4.2 of xHCI 1.2).
 */
module BringUp {
  import opened Bits

  const RS: bv32 := 1
  const HCRST: bv32 := 2
  const INTE: bv32 := 4
  const HSEE: bv32 := 8
  const HCH: bv32 := 1
  const CNR: bv32 := 0x800

  predicate Has(v: bv32, bit: bv32) {
    v & bit != 0
  }

  /** The value written to stop the controller. */
  function StopWord(cmd: bv32): bv32 {
    cmd & 0xFFFF_FFFE
  }

  /** The value written to reset it: the command as first read, so Run/Stop is set again if it was set then. */
  function ResetWord(cmd: bv32): bv32 {
    cmd | HCRST
  }

  /** The value written to start it. */
  function StartWord(): bv32 {
    RS | INTE | HSEE
  }

  lemma CommandBits(cmd: bv32)
    ensures !Has(StopWord(cmd), RS) && Has(StopWord(cmd), HCRST) == Has(cmd, HCRST)
    ensures Has(ResetWord(cmd), HCRST) && Has(ResetWord(cmd), RS) == Has(cmd, RS)
    ensures Has(StartWord(), RS) && !Has(StartWord(), HCRST)
  {
  }

  datatype Reg =
    | Config | DcbaapLow | DcbaapHigh | CrcrLow | CrcrHigh
    | ErstbaLow | ErstbaHigh | Erstsz | ErdpLow | ErdpHigh | Iman

  /** What the driver allocated: slot count and physical addresses. */
  datatype Setup = Setup(slots: nat, dcbaa: nat, command: nat, segments: nat, events: nat)

  /** The configuration writes between reset and start, in order. */
  function Program(u: Setup): (p: seq<(Reg, nat)>)
    ensures |p| == 12
  {
    [(Config, u.slots),
     (DcbaapLow, Halves(u.dcbaa).0), (DcbaapHigh, Halves(u.dcbaa).1),
     (CrcrLow, Halves(WithBit0(u.command)).0), (CrcrHigh, Halves(WithBit0(u.command)).1),
     (ErstbaLow, Halves(u.segments).0), (ErstbaHigh, Halves(u.segments).1), (Erstsz, 1),
     (ErdpLow, Halves(u.events).0), (ErdpHigh, Halves(u.events).1),
     (Iman, 2), (Iman, 1)]
  }

  /** One register access. A configuration write also records whether Run/Stop was set at that moment. */
  datatype Access =
    | ReadCmd(v: bv32)
    | ReadSts(v: bv32)
    | WriteCmd(v: bv32)
    | WriteReg(reg: Reg, value: nat, running: bool)

  datatype Pc = Probe | Stop | AwaitHalt | Reset | AwaitReset | AwaitReady | Configure(n: nat) | Go | AwaitRun | Done

  /** The driver, the two controller bits that only writes and the end of a reset change, and the accesses so far. */
  datatype System = System(pc: Pc, run: bool, reset: bool, cmd: bv32, trace: seq<Access>)

  /** Either the driver makes its next access, reading `v` if it reads, or the controller completes a reset. */
  datatype Move = Drive(v: bv32) | ResetDone

  /** A USBCMD read shows the real Run/Stop and reset bits; everything else a read returns is arbitrary. */
  predicate Possible(s: System, m: Move) {
    match m
    case ResetDone => s.reset
    case Drive(v) => s.pc.Probe? || s.pc.AwaitReset? ==> Has(v, RS) == s.run && Has(v, HCRST) == s.reset
  }

  function Written(s: System, pc: Pc, v: bv32): System {
    System(pc, Has(v, RS), s.reset || Has(v, HCRST), s.cmd, s.trace + [WriteCmd(v)])
  }

  function Seen(s: System, pc: Pc, a: Access): System {
    System(pc, s.run, s.reset, s.cmd, s.trace + [a])
  }

  function Step(u: Setup, s: System, m: Move): System {
    match m
    case ResetDone => System(s.pc, false, false, s.cmd, s.trace)
    case Drive(v) =>
      match s.pc
      case Probe => System(Stop, s.run, s.reset, v, s.trace + [ReadCmd(v)])
      case Stop => Written(s, AwaitHalt, StopWord(s.cmd))
      case AwaitHalt => Seen(s, if Has(v, HCH) then Reset else AwaitHalt, ReadSts(v))
      case Reset => Written(s, AwaitReset, ResetWord(s.cmd))
      case AwaitReset => Seen(s, if Has(v, HCRST) then AwaitReset else AwaitReady, ReadCmd(v))
      case AwaitReady => Seen(s, if Has(v, CNR) then AwaitReady else Configure(0), ReadSts(v))
      case Configure(n) =>
        if n < 12 then
          Seen(s, if n < 11 then Configure(n + 1) else Go, WriteReg(Program(u)[n].0, Program(u)[n].1, s.run))
        else s
      case Go => Written(s, AwaitRun, StartWord())
      case AwaitRun => Seen(s, if Has(v, HCH) then AwaitRun else Done, ReadSts(v))
      case Done => s
  }

  /** The state after the moves `ms`. */
  function Run(u: Setup, s: System, ms: seq<Move>): System
    decreases |ms|
  {
    if ms == [] then s else Step(u, Run(u, s, ms[..|ms| - 1]), ms[|ms| - 1])
  }

  /** Could a driver and a controller have made these moves from `s`? */
  ghost predicate Feasible(u: Setup, s: System, ms: seq<Move>)
    decreases |ms|
  {
    ms != [] ==> Feasible(u, s, ms[..|ms| - 1]) && Possible(Run(u, s, ms[..|ms| - 1]), ms[|ms| - 1])
  }

  /** The driver about to start, the controller in any state. */
  ghost predicate Initial(s: System) {
    s.pc == Probe && s.trace == []
  }

  // --- what must be true of an access, given the accesses before it -----------------

  ghost predicate NoCmdWriteAfter(tr: seq<Access>, i: nat) {
    forall k :: i < k < |tr| ==> !tr[k].WriteCmd?
  }

  /** The controller was told to stop, was then seen halted, and was not written to since. */
  ghost predicate HaltSeenAt(tr: seq<Access>, i: nat, j: nat) {
    && i < j < |tr|
    && tr[i].WriteCmd? && !Has(tr[i].v, RS) && tr[j].ReadSts? && Has(tr[j].v, HCH)
    && NoCmdWriteAfter(tr, i)
  }

  ghost predicate HaltSeen(tr: seq<Access>) {
    exists i: nat, j: nat :: HaltSeenAt(tr, i, j)
  }

  ghost predicate ResetSeenAt(tr: seq<Access>, i: nat, j: nat) {
    && i < j < |tr|
    && tr[i].WriteCmd? && Has(tr[i].v, HCRST) && tr[j].ReadCmd? && !Has(tr[j].v, HCRST)
    && NoCmdWriteAfter(tr, i)
  }

  /** A reset was requested, then seen complete, and USBCMD was not written since. */
  ghost predicate ResetSeen(tr: seq<Access>) {
    exists i: nat, j: nat :: ResetSeenAt(tr, i, j)
  }

  /** After that, the controller was seen ready. */
  ghost predicate ReadySeen(tr: seq<Access>) {
    exists k: nat :: k < |tr| && tr[k].ReadSts? && !Has(tr[k].v, CNR) && ResetSeen(tr[..k]) && NoCmdWriteAfter(tr, k)
  }

  /** The last accesses are the first `n` configuration writes, made to a ready controller. */
  ghost predicate Configured(u: Setup, tr: seq<Access>, n: nat) {
    && n <= 12 && n <= |tr|
    && ReadySeen(tr[..|tr| - n])
    && forall i :: 0 <= i < n ==> tr[|tr| - n + i] == WriteReg(Program(u)[i].0, Program(u)[i].1, false)
  }

  ghost predicate ResetRequested(tr: seq<Access>) {
    exists i :: 0 <= i < |tr| && tr[i].WriteCmd? && Has(tr[i].v, HCRST) && HaltSeen(tr[..i])
  }

  /** An access that the sequence of section 4.2 allows after `tr`. */
  ghost predicate Allowed(u: Setup, tr: seq<Access>, a: Access) {
    match a
    case WriteReg(_, _, running) => ReadySeen(tr) && !running
    case WriteCmd(v) =>
      && (Has(v, HCRST) ==> HaltSeen(tr))
      && (ResetRequested(tr) ==> v == StartWord() && Configured(u, tr, 12))
    case _ => true
  }

  ghost predicate Orderly(u: Setup, tr: seq<Access>) {
    forall i :: 0 <= i < |tr| ==> Allowed(u, tr[..i], tr[i])
  }

  // --- the invariant ----------------------------------------------------------------

  ghost predicate NoResetYet(tr: seq<Access>) {
    forall i :: 0 <= i < |tr| && tr[i].WriteCmd? ==> !Has(tr[i].v, HCRST)
  }

  /** What the driver has done and seen when it is at each of its steps. */
  ghost predicate Knows(u: Setup, s: System) {
    match s.pc
    case Probe => s.trace == []
    case Stop => s.trace == [ReadCmd(s.cmd)]
    case AwaitHalt => NoResetYet(s.trace) &&
      exists i: nat :: i < |s.trace| && s.trace[i].WriteCmd? && !Has(s.trace[i].v, RS) && NoCmdWriteAfter(s.trace, i)
    case Reset => NoResetYet(s.trace) && HaltSeen(s.trace)
    case AwaitReset => (s.reset || !s.run) &&
      exists i: nat :: i < |s.trace| && s.trace[i].WriteCmd? && Has(s.trace[i].v, HCRST) && NoCmdWriteAfter(s.trace, i)
    case AwaitReady => !s.run && !s.reset && ResetSeen(s.trace)
    case Configure(n) => !s.run && !s.reset && n < 12 && Configured(u, s.trace, n)
    case Go => Configured(u, s.trace, 12)
    case AwaitRun => true
    case Done => true
  }

  ghost predicate Inv(u: Setup, s: System) {
    && Knows(u, s)
    && (s.pc != Probe ==> |s.trace| > 0 && s.trace[0] == ReadCmd(s.cmd))
    && Orderly(u, s.trace)
  }

  lemma OrderlyAppend(u: Setup, tr: seq<Access>, a: Access)
    requires Orderly(u, tr) && Allowed(u, tr, a)
    ensures Orderly(u, tr + [a])
  {
    hide Allowed;
    var tr' := tr + [a];
    forall i | 0 <= i < |tr'| ensures Allowed(u, tr'[..i], tr'[i]) {
      assert tr'[..i] == tr[..i];
    }
    assert tr'[..|tr|] == tr;
  }

  /** Reading a register loses nothing the driver knew. */
  lemma ReadKeeps(tr: seq<Access>, a: Access)
    requires !a.WriteCmd?
    ensures HaltSeen(tr) ==> HaltSeen(tr + [a])
    ensures ResetSeen(tr) ==> ResetSeen(tr + [a])
    ensures NoResetYet(tr) ==> NoResetYet(tr + [a])
    ensures forall i: nat :: NoCmdWriteAfter(tr, i) ==> NoCmdWriteAfter(tr + [a], i)
  {
    if i: nat, j: nat :| HaltSeenAt(tr, i, j) {
      assert HaltSeenAt(tr + [a], i, j);
    }
    if i: nat, j: nat :| ResetSeenAt(tr, i, j) {
      assert ResetSeenAt(tr + [a], i, j);
    }
  }

  lemma NoResetMeansNone(tr: seq<Access>)
    requires NoResetYet(tr)
    ensures !ResetRequested(tr)
  {
  }

  lemma KeptByStop(u: Setup, s: System, v: bv32)
    requires Inv(u, s) && s.pc == Stop && !Has(s.cmd, HCRST)
    ensures Inv(u, Step(u, s, Drive(v)))
  {
    hide Has, StopWord, ResetWord, StartWord, ReadySeen, Configured;
    CommandBits(s.cmd);
    NoResetMeansNone(s.trace);
    OrderlyAppend(u, s.trace, WriteCmd(StopWord(s.cmd)));
    var t := Step(u, s, Drive(v)).trace;
    assert t[1] == WriteCmd(StopWord(s.cmd)) && NoCmdWriteAfter(t, 1);
  }

  lemma KeptByAwaitHalt(u: Setup, s: System, v: bv32)
    requires Inv(u, s) && s.pc == AwaitHalt
    ensures Inv(u, Step(u, s, Drive(v)))
  {
    hide Has, StopWord, ResetWord, StartWord, ReadySeen, Configured, Orderly;
    var t := s.trace + [ReadSts(v)];
    OrderlyAppend(u, s.trace, ReadSts(v));
    ReadKeeps(s.trace, ReadSts(v));
    var i: nat :| i < |s.trace| && s.trace[i].WriteCmd? && !Has(s.trace[i].v, RS) && NoCmdWriteAfter(s.trace, i);
    assert t[i] == s.trace[i] && NoCmdWriteAfter(t, i);
    if Has(v, HCH) {
      assert HaltSeenAt(t, i, |s.trace|);
    }
  }

  lemma KeptByReset(u: Setup, s: System, v: bv32)
    requires Inv(u, s) && s.pc == Reset
    ensures Inv(u, Step(u, s, Drive(v)))
  {
    hide Has, StopWord, ResetWord, StartWord, ReadySeen, Configured, Orderly;
    CommandBits(s.cmd);
    NoResetMeansNone(s.trace);
    OrderlyAppend(u, s.trace, WriteCmd(ResetWord(s.cmd)));
    var t := Step(u, s, Drive(v)).trace;
    assert t[|s.trace|] == WriteCmd(ResetWord(s.cmd)) && NoCmdWriteAfter(t, |s.trace|);
  }

  lemma KeptByAwaitReset(u: Setup, s: System, v: bv32)
    requires Inv(u, s) && s.pc == AwaitReset && Possible(s, Drive(v))
    ensures Inv(u, Step(u, s, Drive(v)))
  {
    hide Has, StopWord, ResetWord, StartWord, ReadySeen, Configured, Orderly;
    var t := s.trace + [ReadCmd(v)];
    OrderlyAppend(u, s.trace, ReadCmd(v));
    ReadKeeps(s.trace, ReadCmd(v));
    var i: nat :| i < |s.trace| && s.trace[i].WriteCmd? && Has(s.trace[i].v, HCRST) && NoCmdWriteAfter(s.trace, i);
    assert t[i] == s.trace[i] && NoCmdWriteAfter(t, i);
    if !Has(v, HCRST) {
      assert ResetSeenAt(t, i, |s.trace|);
    }
  }

  lemma KeptByAwaitReady(u: Setup, s: System, v: bv32)
    requires Inv(u, s) && s.pc == AwaitReady
    ensures Inv(u, Step(u, s, Drive(v)))
  {
    hide Has, StopWord, ResetWord, StartWord, Orderly;
    var t := s.trace + [ReadSts(v)];
    OrderlyAppend(u, s.trace, ReadSts(v));
    ReadKeeps(s.trace, ReadSts(v));
    if !Has(v, CNR) {
      assert t[..|s.trace|] == s.trace && NoCmdWriteAfter(t, |s.trace|);
      assert ReadySeen(t);
      assert t[..|t| - 0] == t;
    }
  }

  lemma KeptByConfigure(u: Setup, s: System, v: bv32)
    requires Inv(u, s) && s.pc.Configure?
    ensures Inv(u, Step(u, s, Drive(v)))
  {
    hide Has, StopWord, ResetWord, StartWord, Orderly, Program;
    hide Configured, ReadySeen;
    var n := s.pc.n;
    var a := WriteReg(Program(u)[n].0, Program(u)[n].1, false);
    ReadyStays(u, s.trace, n);
    OrderlyAppend(u, s.trace, a);
    OneMoreWrite(u, s.trace, n);
  }

  lemma OneMoreWrite(u: Setup, tr: seq<Access>, n: nat)
    requires n < 12 && Configured(u, tr, n)
    ensures Configured(u, tr + [WriteReg(Program(u)[n].0, Program(u)[n].1, false)], n + 1)
  {
    hide ReadySeen, Program;
    var tr' := tr + [WriteReg(Program(u)[n].0, Program(u)[n].1, false)];
    assert tr'[..|tr| - n] == tr[..|tr| - n];
  }

  lemma ReadyStays(u: Setup, tr: seq<Access>, n: nat)
    requires Configured(u, tr, n)
    ensures ReadySeen(tr)
  {
    hide ReadySeen, Program;
    var m := |tr| - n;
    forall i | m <= i < |tr| ensures !tr[i].WriteCmd? {
      assert tr[m + (i - m)] == WriteReg(Program(u)[i - m].0, Program(u)[i - m].1, false);
    }
    ReadyExtends(tr, m);
  }

  lemma ReadyExtends(tr: seq<Access>, m: nat)
    requires m <= |tr| && ReadySeen(tr[..m])
    requires forall i :: m <= i < |tr| ==> !tr[i].WriteCmd?
    ensures ReadySeen(tr)
  {
    hide ResetSeen, Has;
    var base := tr[..m];
    var k: nat :| k < |base| && base[k].ReadSts? && !Has(base[k].v, CNR)
                  && ResetSeen(base[..k]) && NoCmdWriteAfter(base, k);
    assert tr[..k] == base[..k] && tr[k] == base[k];
    forall i | k < i < |tr| ensures !tr[i].WriteCmd? {
      if i < m {
        assert base[i] == tr[i];
      }
    }
  }

  lemma KeptByGo(u: Setup, s: System, v: bv32)
    requires Inv(u, s) && s.pc == Go
    ensures Inv(u, Step(u, s, Drive(v)))
  {
    hide Has, StopWord, ResetWord, StartWord, Orderly, Configured, HaltSeen, ResetRequested;
    CommandBits(0);
    OrderlyAppend(u, s.trace, WriteCmd(StartWord()));
  }

  lemma StepKeepsInv(u: Setup, s: System, m: Move)
    requires Inv(u, s) && Possible(s, m)
    requires s.pc == Stop ==> !Has(s.cmd, HCRST)
    ensures Inv(u, Step(u, s, m))
  {
    hide Has, StopWord, ResetWord, StartWord, Orderly, Program;
    match m
    case ResetDone =>
    case Drive(v) =>
      match s.pc
      case Probe =>
        OrderlyAppend(u, s.trace, ReadCmd(v));
      case Stop => KeptByStop(u, s, v);
      case AwaitHalt => KeptByAwaitHalt(u, s, v);
      case Reset => KeptByReset(u, s, v);
      case AwaitReset => KeptByAwaitReset(u, s, v);
      case AwaitReady => KeptByAwaitReady(u, s, v);
      case Configure(n) => KeptByConfigure(u, s, v);
      case Go => KeptByGo(u, s, v);
      case AwaitRun =>
        OrderlyAppend(u, s.trace, ReadSts(v));
      case Done =>
  }

  lemma {:induction false} InvIfClear(u: Setup, s: System, ms: seq<Move>)
    requires Initial(s) && Feasible(u, s, ms)
    requires Run(u, s, ms).pc != Probe ==> !Has(Run(u, s, ms).cmd, HCRST)
    ensures Inv(u, Run(u, s, ms))
    decreases |ms|
  {
    hide Has, StopWord, ResetWord, StartWord, Program, Orderly, ReadySeen, Configured, HaltSeen, ResetSeen;
    if ms == [] {
      EmptyIsOrderly(u);
    } else {
      InvIfClear(u, s, ms[..|ms| - 1]);
      StepKeepsInv(u, Run(u, s, ms[..|ms| - 1]), ms[|ms| - 1]);
    }
  }

  lemma EmptyIsOrderly(u: Setup)
    ensures Orderly(u, [])
  {
  }

  /** The first access is the USBCMD read and the second the stop. */
  lemma {:induction false} BeginsWithStop(u: Setup, s: System, ms: seq<Move>)
    requires Initial(s)
    ensures var t := Run(u, s, ms);
      match t.pc
      case Probe => t.trace == []
      case Stop => t.trace == [ReadCmd(t.cmd)]
      case _ => |t.trace| >= 2 && t.trace[0] == ReadCmd(t.cmd) && t.trace[1] == WriteCmd(StopWord(t.cmd))
    decreases |ms|
  {
    hide Has, StopWord, ResetWord, StartWord, Program;
    if ms != [] {
      BeginsWithStop(u, s, ms[..|ms| - 1]);
    }
  }

  /**
   In every run against every controller the accesses are orderly: reset is requested only after
   the controller was stopped and seen halted; configuration and pointers are written only after
   the reset and not-ready have both been seen clear, while Run/Stop is 0; and after the reset
   only the final write sets Run/Stop. The one exception is a controller found in the middle of a
   reset, whose HCRST bit the stop write repeats: past that write, the run is orderly exactly
   when the bit was clear in the first read.
   */
  lemma BringUpIsOrderlyIff(u: Setup, s: System, ms: seq<Move>)
    requires Initial(s) && Feasible(u, s, ms)
    ensures var t := Run(u, s, ms);
      Orderly(u, t.trace) <==> t.pc == Probe || t.pc == Stop || !Has(t.cmd, HCRST)
  {
    hide Has, StopWord, ResetWord, StartWord, Program, Orderly, Allowed, Knows;
    var t := Run(u, s, ms);
    BeginsWithStop(u, s, ms);
    if t.pc == Probe {
      EmptyIsOrderly(u);
    } else if t.pc == Stop {
      EmptyIsOrderly(u);
      ReadAllowed(u, [], t.cmd);
      OrderlyAppend(u, [], ReadCmd(t.cmd));
      assert [] + [ReadCmd(t.cmd)] == t.trace;
    } else if !Has(t.cmd, HCRST) {
      InvIfClear(u, s, ms);
    } else {
      StopWhileResetting(u, t.trace, t.cmd);
    }
  }

  lemma ReadAllowed(u: Setup, tr: seq<Access>, v: bv32)
    ensures Allowed(u, tr, ReadCmd(v))
  {
  }

  lemma StopWhileResetting(u: Setup, tr: seq<Access>, cmd: bv32)
    requires |tr| >= 2 && tr[0] == ReadCmd(cmd) && tr[1] == WriteCmd(StopWord(cmd)) && Has(cmd, HCRST)
    ensures !Orderly(u, tr)
  {
    hide Has, StopWord, Configured, ResetRequested;
    CommandBits(cmd);
    assert tr[..1] == [ReadCmd(cmd)];
    assert !HaltSeen(tr[..1]);
    assert !Allowed(u, tr[..1], tr[1]);
  }

  /** The exception: a controller found resetting is asked to reset again by the stop write, before it has halted. */
  lemma StoppingAResetExample(u: Setup)
    ensures var s, ms := System(Probe, false, true, 0, []), [Drive(HCRST), Drive(0)];
      Initial(s) && Feasible(u, s, ms) && !Orderly(u, Run(u, s, ms).trace)
  {
    hide Orderly, Program;
    var s := System(Probe, false, true, 0, []);
    var m1, m2 := [Drive(HCRST)], [Drive(HCRST), Drive(0)];
    assert m1[..0] == [] && m2[..1] == m1;
    assert Feasible(u, s, []);
    assert Run(u, s, m1) == Step(u, s, Drive(HCRST)) && Feasible(u, s, m1);
    assert Run(u, s, m2) == Step(u, Run(u, s, m1), Drive(0)) && Feasible(u, s, m2);
    StopWhileResetting(u, Run(u, s, m2).trace, HCRST);
  }

  // --- the accesses one by one, in register values --------------------------------------

  /** From position `i` on, the driver only reads USBSTS, with `mask` on or off. */
  ghost predicate PollsSts(tr: seq<Access>, i: nat, mask: bv32, on: bool) {
    forall k :: i < k < |tr| ==> tr[k].ReadSts? && (tr[k].v & mask != 0) == on
  }

  ghost predicate PollsCmd(tr: seq<Access>, i: nat, mask: bv32, on: bool) {
    forall k :: i < k < |tr| ==> tr[k].ReadCmd? && (tr[k].v & mask != 0) == on
  }

  /** USBCMD read, written back with bit 0 clear, and USBSTS read while its bit 0 is clear. */
  ghost predicate Stopping(tr: seq<Access>, cmd: bv32) {
    && |tr| >= 2 && tr[0] == ReadCmd(cmd) && tr[1] == WriteCmd(cmd & 0xFFFF_FFFE)
    && PollsSts(tr, 1, 0x1, false)
  }

  /** Then USBSTS read with bit 0 set. */
  ghost predicate HaltedThen(tr: seq<Access>, cmd: bv32) {
    && |tr| > 0 && Stopping(tr[..|tr| - 1], cmd)
    && tr[|tr| - 1].ReadSts? && tr[|tr| - 1].v & 0x1 != 0
  }

  /** Then the first command written with bit 1 set, and USBCMD read while its bit 1 is set. */
  ghost predicate ResettingFrom(tr: seq<Access>, cmd: bv32, n: nat) {
    n < |tr| && HaltedThen(tr[..n], cmd) && tr[n] == WriteCmd(cmd | 0x2) && PollsCmd(tr, n, 0x2, true)
  }

  ghost predicate Resetting(tr: seq<Access>, cmd: bv32) {
    exists n: nat :: ResettingFrom(tr, cmd, n)
  }

  /** Then USBCMD read with bit 1 clear, and USBSTS read while its bit 11 is set. */
  ghost predicate WasResetAt(tr: seq<Access>, cmd: bv32, n: nat) {
    n < |tr| && Resetting(tr[..n], cmd) && tr[n].ReadCmd? && tr[n].v & 0x2 == 0 && PollsSts(tr, n, 0x800, true)
  }

  ghost predicate WasReset(tr: seq<Access>, cmd: bv32) {
    exists n: nat :: WasResetAt(tr, cmd, n)
  }

  /** Then USBSTS read with bit 11 clear. */
  ghost predicate ReadyThen(tr: seq<Access>, cmd: bv32) {
    && |tr| > 0 && WasReset(tr[..|tr| - 1], cmd)
    && tr[|tr| - 1].ReadSts? && tr[|tr| - 1].v & 0x800 == 0
  }

  /** Then the first `n` configuration writes, with Run/Stop 0. */
  ghost predicate Writing(u: Setup, tr: seq<Access>, cmd: bv32, n: nat) {
    && n <= 12 && n <= |tr| && ReadyThen(tr[..|tr| - n], cmd)
    && forall i :: 0 <= i < n ==> tr[|tr| - n + i] == WriteReg(Program(u)[i].0, Program(u)[i].1, false)
  }

  /** Then 0xD written to USBCMD, and USBSTS read while its bit 0 is set. */
  ghost predicate StartedAt(u: Setup, tr: seq<Access>, cmd: bv32, n: nat) {
    n < |tr| && Writing(u, tr[..n], cmd, 12) && tr[n] == WriteCmd(0xD) && PollsSts(tr, n, 0x1, true)
  }

  ghost predicate Started(u: Setup, tr: seq<Access>, cmd: bv32) {
    exists n: nat :: StartedAt(u, tr, cmd, n)
  }

  /** Last, USBSTS read with bit 0 clear. */
  ghost predicate RunningThen(u: Setup, tr: seq<Access>, cmd: bv32) {
    && |tr| > 0 && Started(u, tr[..|tr| - 1], cmd)
    && tr[|tr| - 1].ReadSts? && tr[|tr| - 1].v & 0x1 == 0
  }

  /** The accesses made when the driver is at each of its steps. */
  ghost predicate Script(u: Setup, s: System) {
    match s.pc
    case Probe => s.trace == []
    case Stop => s.trace == [ReadCmd(s.cmd)]
    case AwaitHalt => Stopping(s.trace, s.cmd)
    case Reset => HaltedThen(s.trace, s.cmd)
    case AwaitReset => (s.reset || !s.run) && Resetting(s.trace, s.cmd)
    case AwaitReady => !s.run && !s.reset && WasReset(s.trace, s.cmd)
    case Configure(n) => !s.run && !s.reset && n < 12 && Writing(u, s.trace, s.cmd, n)
    case Go => Writing(u, s.trace, s.cmd, 12)
    case AwaitRun => Started(u, s.trace, s.cmd)
    case Done => RunningThen(u, s.trace, s.cmd)
  }

  lemma ScriptProbe(u: Setup, s: System, v: bv32)
    requires Script(u, s) && s.pc == Probe
    ensures Script(u, Step(u, s, Drive(v)))
  {
    hide Has;
  }

  lemma ScriptStop(u: Setup, s: System, v: bv32)
    requires Script(u, s) && s.pc == Stop
    ensures Script(u, Step(u, s, Drive(v)))
  {
    hide Has;
    assert Step(u, s, Drive(v)).trace == [ReadCmd(s.cmd), WriteCmd(StopWord(s.cmd))];
  }

  lemma ScriptAwaitHalt(u: Setup, s: System, v: bv32)
    requires Script(u, s) && s.pc == AwaitHalt
    ensures Script(u, Step(u, s, Drive(v)))
  {
    var t := Step(u, s, Drive(v));
    assert t.trace[..|t.trace| - 1] == s.trace;
    if v & 0x1 != 0 {
      hide Stopping;
      assert HaltedThen(t.trace, s.cmd);
    } else {
      StillStopping(s.trace, s.cmd, v);
    }
  }

  lemma StillStopping(tr: seq<Access>, cmd: bv32, v: bv32)
    requires Stopping(tr, cmd) && v & 0x1 == 0
    ensures Stopping(tr + [ReadSts(v)], cmd)
  {
    var word := cmd & 0xFFFF_FFFE;
    assert tr[1] == WriteCmd(word);
  }

  lemma ScriptReset(u: Setup, s: System, v: bv32)
    requires Script(u, s) && s.pc == Reset
    ensures Script(u, Step(u, s, Drive(v)))
  {
    hide HaltedThen;
    var t := Step(u, s, Drive(v));
    assert t.trace[..|s.trace|] == s.trace;
    assert ResettingFrom(t.trace, s.cmd, |s.trace|);
  }

  lemma ScriptAwaitReset(u: Setup, s: System, v: bv32)
    requires Script(u, s) && s.pc == AwaitReset && Possible(s, Drive(v))
    ensures Script(u, Step(u, s, Drive(v)))
  {
    hide HaltedThen;
    var t := Step(u, s, Drive(v));
    assert t.trace[..|s.trace|] == s.trace;
    if v & 0x2 == 0 {
      assert WasResetAt(t.trace, s.cmd, |s.trace|);
    } else {
      var n: nat :| ResettingFrom(s.trace, s.cmd, n);
      assert t.trace[..n] == s.trace[..n];
      assert ResettingFrom(t.trace, s.cmd, n);
    }
  }

  lemma ScriptAwaitReady(u: Setup, s: System, v: bv32)
    requires Script(u, s) && s.pc == AwaitReady
    ensures Script(u, Step(u, s, Drive(v)))
  {
    hide Resetting;
    var t := Step(u, s, Drive(v));
    assert t.trace[..|t.trace| - 1] == s.trace;
    if v & 0x800 == 0 {
      assert t.trace[..|t.trace| - 0] == t.trace;
    } else {
      var n: nat :| WasResetAt(s.trace, s.cmd, n);
      assert t.trace[..n] == s.trace[..n];
      assert WasResetAt(t.trace, s.cmd, n);
    }
  }

  lemma ScriptConfigure(u: Setup, s: System, v: bv32)
    requires Script(u, s) && s.pc.Configure?
    ensures Script(u, Step(u, s, Drive(v)))
  {
    hide ReadyThen, Program;
    var t, n := Step(u, s, Drive(v)), s.pc.n;
    assert t.trace[..|t.trace| - (n + 1)] == s.trace[..|s.trace| - n];
  }

  lemma ScriptLate(u: Setup, s: System, v: bv32)
    requires Script(u, s) && (s.pc == Go || s.pc == AwaitRun)
    ensures Script(u, Step(u, s, Drive(v)))
  {
    hide Writing;
    var t := Step(u, s, Drive(v));
    assert t.trace[..|s.trace|] == s.trace;
    if s.pc == Go {
      assert StartedAt(u, t.trace, s.cmd, |s.trace|);
    } else if v & 0x1 != 0 {
      var n: nat :| StartedAt(u, s.trace, s.cmd, n);
      assert t.trace[..n] == s.trace[..n];
      assert StartedAt(u, t.trace, s.cmd, n);
    }
  }

  /**
   In every run against every controller, the accesses are those of the start-up script and no
   others: at `Done`, stop, seen halted, reset, seen reset, seen ready, the twelve configuration
   writes with Run/Stop 0, start, and seen running.
   */
  lemma {:induction false} AccessesFollowTheScript(u: Setup, s: System, ms: seq<Move>)
    requires Initial(s) && Feasible(u, s, ms)
    ensures Script(u, Run(u, s, ms))
    decreases |ms|
  {
    hide Step, Possible, Stopping, HaltedThen, Resetting, WasReset, Writing, Started, RunningThen;
    if ms != [] {
      var t, m := Run(u, s, ms[..|ms| - 1]), ms[|ms| - 1];
      AccessesFollowTheScript(u, s, ms[..|ms| - 1]);
      ScriptStep(u, t, m);
    }
  }

  lemma ScriptStep(u: Setup, s: System, m: Move)
    requires Script(u, s) && Possible(s, m)
    ensures Script(u, Step(u, s, m))
  {
    hide Stopping, HaltedThen, Resetting, WasReset, Writing, Started, RunningThen, Has;
    match m
    case ResetDone =>
    case Drive(v) =>
      match s.pc
      case Probe => ScriptProbe(u, s, v);
      case Stop => ScriptStop(u, s, v);
      case AwaitHalt => ScriptAwaitHalt(u, s, v);
      case Reset => ScriptReset(u, s, v);
      case AwaitReset => ScriptAwaitReset(u, s, v);
      case AwaitReady => ScriptAwaitReady(u, s, v);
      case Configure(n) => ScriptConfigure(u, s, v);
      case Go => ScriptLate(u, s, v);
      case AwaitRun => ScriptLate(u, s, v);
      case Done =>
  }

  // --- what the registers hold when the controller runs ----------------------------------

  ghost predicate WritesReg(a: Access, reg: Reg) {
    a.WriteReg? && a.reg == reg
  }

  /** The register is written once, with the value. */
  ghost predicate WrittenOnce(tr: seq<Access>, reg: Reg, value: nat) {
    exists i: nat :: i < |tr| && WrittenAt(tr, reg, value, i)
  }

  ghost predicate WrittenAt(tr: seq<Access>, reg: Reg, value: nat, i: nat)
    requires i < |tr|
  {
    && WritesReg(tr[i], reg) && tr[i].value == value
    && forall j :: 0 <= j < |tr| && WritesReg(tr[j], reg) ==> j == i
  }

  /** A 64-bit register is written once, low half and then at once high half, and the halves make up the value. */
  ghost predicate WrittenInHalves(tr: seq<Access>, low: Reg, high: Reg, value: nat) {
    exists i: nat :: i + 1 < |tr| && HalvesAt(tr, low, high, value, i)
  }

  ghost predicate HalvesAt(tr: seq<Access>, low: Reg, high: Reg, value: nat, i: nat)
    requires i + 1 < |tr|
  {
    && WritesReg(tr[i], low) && WritesReg(tr[i + 1], high)
    && tr[i].value < 0x1_0000_0000 && tr[i].value + 0x1_0000_0000 * tr[i + 1].value == value
    && forall j :: 0 <= j < |tr| ==> (WritesReg(tr[j], low) ==> j == i) && (WritesReg(tr[j], high) ==> j == i + 1)
  }

  /** The interrupter is written twice: its pending bit cleared, then its enable bit set. */
  ghost predicate InterrupterEnabledAt(tr: seq<Access>, i: nat)
    requires i + 1 < |tr|
  {
    && WritesReg(tr[i], Iman) && tr[i].value == 2 && WritesReg(tr[i + 1], Iman) && tr[i + 1].value == 1
    && forall j :: 0 <= j < |tr| && WritesReg(tr[j], Iman) ==> j == i || j == i + 1
  }

  /** Positions `m` to `m + 11` hold the configuration writes, and there are no others. */
  ghost predicate WritesAt(u: Setup, tr: seq<Access>, m: nat) {
    && m + 12 <= |tr|
    && (forall i :: 0 <= i < 12 ==> tr[m + i] == WriteReg(Program(u)[i].0, Program(u)[i].1, false))
    && forall j :: 0 <= j < |tr| && tr[j].WriteReg? ==> m <= j < m + 12
  }

  ghost predicate NoRegWrites(tr: seq<Access>) {
    forall j :: 0 <= j < |tr| ==> !tr[j].WriteReg?
  }

  lemma NoWritesBeforeHalt(tr: seq<Access>, cmd: bv32)
    requires HaltedThen(tr, cmd)
    ensures NoRegWrites(tr)
  {
    var a := tr[..|tr| - 1];
    forall j | 0 <= j < |tr| ensures !tr[j].WriteReg? {
      assert j < |a| ==> tr[j] == a[j];
      assert j == 0 || j == 1 || j >= 2;
    }
  }

  lemma NoWritesBeforeReset(tr: seq<Access>, cmd: bv32)
    requires Resetting(tr, cmd)
    ensures NoRegWrites(tr)
  {
    hide HaltedThen;
    var n: nat :| ResettingFrom(tr, cmd, n);
    NoWritesBeforeHalt(tr[..n], cmd);
    Lengthened(tr, n);
  }

  lemma NoWritesBeforeReady(tr: seq<Access>, cmd: bv32)
    requires ReadyThen(tr, cmd)
    ensures NoRegWrites(tr)
  {
    hide Resetting;
    var a := tr[..|tr| - 1];
    var n: nat :| WasResetAt(a, cmd, n);
    NoWritesBeforeReset(a[..n], cmd);
    Lengthened(a, n);
    Lengthened(tr, |a|);
  }

  lemma Lengthened(tr: seq<Access>, n: nat)
    requires n <= |tr| && NoRegWrites(tr[..n]) && forall j :: n <= j < |tr| ==> !tr[j].WriteReg?
    ensures NoRegWrites(tr)
  {
    forall j | 0 <= j < |tr| ensures !tr[j].WriteReg? {
      if j < n {
        assert tr[..n][j] == tr[j];
      }
    }
  }

  lemma WritesOfARun(u: Setup, tr: seq<Access>, cmd: bv32) returns (m: nat)
    requires RunningThen(u, tr, cmd)
    ensures WritesAt(u, tr, m)
  {
    hide ReadyThen, Program;
    var a := tr[..|tr| - 1];
    var n: nat :| StartedAt(u, a, cmd, n);
    var b := a[..n];
    m := n - 12;
    var c := b[..m];
    NoWritesBeforeReady(c, cmd);
    forall i | 0 <= i < 12 ensures tr[m + i] == WriteReg(Program(u)[i].0, Program(u)[i].1, false) {
      assert b[m + i] == tr[m + i];
    }
    assert forall j :: 0 <= j < m ==> c[j] == tr[j];
    assert forall j :: 0 <= j < |a| ==> a[j] == tr[j];
  }

  lemma EntryIs(u: Setup, tr: seq<Access>, m: nat, i: nat)
    requires WritesAt(u, tr, m) && i < 12
    ensures tr[m + i] == WriteReg(Program(u)[i].0, Program(u)[i].1, false)
  {
  }

  /** The register written at each position of the configuration. */
  lemma RegAt(u: Setup, tr: seq<Access>, m: nat, reg: Reg, j: nat)
    requires WritesAt(u, tr, m) && j < |tr| && WritesReg(tr[j], reg)
    ensures m <= j < m + 12
    ensures match reg
      case Config => j == m
      case DcbaapLow => j == m + 1
      case DcbaapHigh => j == m + 2
      case CrcrLow => j == m + 3
      case CrcrHigh => j == m + 4
      case ErstbaLow => j == m + 5
      case ErstbaHigh => j == m + 6
      case Erstsz => j == m + 7
      case ErdpLow => j == m + 8
      case ErdpHigh => j == m + 9
      case Iman => j == m + 10 || j == m + 11
  {
    hide Halves, WithBit0;
    EntryIs(u, tr, m, j - m);
  }

  lemma HalvesMakeUp(x: nat)
    ensures Halves(x).0 < 0x1_0000_0000 && Halves(x).0 + 0x1_0000_0000 * Halves(x).1 == x
  {
  }

  lemma PairWritten(u: Setup, tr: seq<Access>, m: nat, i: nat, low: Reg, high: Reg, value: nat)
    requires WritesAt(u, tr, m) && i + 1 < 12
    requires Program(u)[i] == (low, Halves(value).0) && Program(u)[i + 1] == (high, Halves(value).1)
    requires low != Iman && high != Iman
    ensures WrittenInHalves(tr, low, high, value)
  {
    hide Halves, Program;
    HalvesMakeUp(value);
    EntryIs(u, tr, m, i);
    EntryIs(u, tr, m, i + 1);
    RegAt(u, tr, m, low, m + i);
    RegAt(u, tr, m, high, m + i + 1);
    forall j: nat | j < |tr|
      ensures (WritesReg(tr[j], low) ==> j == m + i) && (WritesReg(tr[j], high) ==> j == m + i + 1)
    {
      if WritesReg(tr[j], low) {
        RegAt(u, tr, m, low, j);
      }
      if WritesReg(tr[j], high) {
        RegAt(u, tr, m, high, j);
      }
    }
    assert HalvesAt(tr, low, high, value, m + i);
  }

  lemma SingleWritten(u: Setup, tr: seq<Access>, m: nat, i: nat, reg: Reg, value: nat)
    requires WritesAt(u, tr, m) && i < 12 && Program(u)[i] == (reg, value) && reg != Iman
    ensures WrittenOnce(tr, reg, value)
  {
    hide Program;
    EntryIs(u, tr, m, i);
    RegAt(u, tr, m, reg, m + i);
    forall j: nat | j < |tr| && WritesReg(tr[j], reg) ensures j == m + i {
      RegAt(u, tr, m, reg, j);
    }
    assert WrittenAt(tr, reg, value, m + i);
  }

  lemma InterrupterWritten(u: Setup, tr: seq<Access>, m: nat)
    requires WritesAt(u, tr, m)
    ensures exists i: nat :: i + 1 < |tr| && InterrupterEnabledAt(tr, i)
  {
    EntryIs(u, tr, m, 10);
    EntryIs(u, tr, m, 11);
    forall j: nat | j < |tr| && WritesReg(tr[j], Iman) ensures j == m + 10 || j == m + 11 {
      RegAt(u, tr, m, Iman, j);
    }
    var i := m + 10;
    assert InterrupterEnabledAt(tr, i);
  }

  /**
   When bring-up is done, each register has been written once with what belongs in it: the slot
   count, the device context array, the command ring with cycle state 1, the segment table and its
   size 1, and the event ring; and the interrupter has been acknowledged and enabled.
   */
  lemma RegistersAreProgrammed(u: Setup, s: System, ms: seq<Move>)
    requires Initial(s) && Feasible(u, s, ms) && Run(u, s, ms).pc == Done
    ensures var tr := Run(u, s, ms).trace;
      && WrittenOnce(tr, Config, u.slots)
      && WrittenInHalves(tr, DcbaapLow, DcbaapHigh, u.dcbaa)
      && (u.command % 2 == 0 ==> WrittenInHalves(tr, CrcrLow, CrcrHigh, u.command + 1))
      && WrittenInHalves(tr, ErstbaLow, ErstbaHigh, u.segments)
      && WrittenOnce(tr, Erstsz, 1)
      && WrittenInHalves(tr, ErdpLow, ErdpHigh, u.events)
      && exists i: nat :: i + 1 < |tr| && InterrupterEnabledAt(tr, i)
  {
    hide Run, Feasible, RunningThen, WritesAt, Halves, WrittenOnce, WrittenInHalves, InterrupterEnabledAt;
    AccessesFollowTheScript(u, s, ms);
    var tr := Run(u, s, ms).trace;
    var m := WritesOfARun(u, tr, Run(u, s, ms).cmd);
    SingleWritten(u, tr, m, 0, Config, u.slots);
    PairWritten(u, tr, m, 1, DcbaapLow, DcbaapHigh, u.dcbaa);
    PairWritten(u, tr, m, 3, CrcrLow, CrcrHigh, WithBit0(u.command));
    PairWritten(u, tr, m, 5, ErstbaLow, ErstbaHigh, u.segments);
    SingleWritten(u, tr, m, 7, Erstsz, 1);
    PairWritten(u, tr, m, 8, ErdpLow, ErdpHigh, u.events);
    InterrupterWritten(u, tr, m);
  }
}

/**
 The keyboard pipeline as interleaved steps on one processor: boot, the reading main line and the
 two interrupt handlers (kernel/src/interrupts.rs and kernel/src/keyboard.rs), sharing the PICS
 and BUF spin locks. Handlers run with interrupts disabled, so they neither nest nor share the
 processor with the main line.
 */
module Kernel {
  import opened Wrappers
  import opened Keyboard
  import opened KeyBuffer

  datatype Owner = Free | MainLine | Handler

  /** Where the main line is: `init` first, then `read_line` for ever. */
  datatype Main =
    | Boot                            // about to lock PICS
    | InitPics                        // holds PICS
    | Enable                          // about to enable interrupts
    | Poll                            // about to lock BUF
    | Popping                         // holds BUF
    | Unlocking(c: Option<char>)      // has popped `c`, still holds BUF
    | BeforeHlt                       // found the buffer empty
    | Halted

  datatype Isr =
    | NoIsr
    | TimerEntry | TimerEoi | TimerUnlock
    | KeyEntry(code: Byte)
    | KeyPush(c: char)                // about to lock BUF
    | KeyHold(c: char)                // holds BUF
    | KeyEoi | KeyUnlock

  datatype State = State(
    n: nat,
    enabled: bool, ticks: nat, pics: Owner, buf: Owner,
    queue: string, shift: bool, main: Main, isr: Isr,
    codes: seq<Byte>,                 // scancodes handled
    accepted: string, dropped: nat,   // characters that entered the buffer, and how many did not
    popped: string, editor: Editor)   // characters returned to the reader, and its lines

  datatype Event = MainStep | IsrStep | TimerIrq | KeyIrq(code: Byte)

  function Start(n: nat): State {
    State(n, false, 0, Free, Free, [], false, Boot, NoIsr, [], [], 0, [], Editor([], []))
  }

  /** A step that would have to wait for a lock is not possible. */
  predicate Possible(s: State, e: Event) {
    match e
    case MainStep =>
      && s.isr == NoIsr && s.main != Halted
      && (s.main == Boot ==> s.pics == Free)
      && (s.main == Poll ==> s.buf == Free)
    case IsrStep =>
      && s.isr != NoIsr
      && (s.isr == TimerEoi || s.isr == KeyEoi ==> s.pics == Free)
      && (s.isr.KeyPush? ==> s.buf == Free)
    case _ => s.enabled && s.isr == NoIsr
  }

  function MainNext(s: State): State {
    match s.main
    case Boot => s.(main := InitPics, pics := MainLine)
    case InitPics => s.(main := Enable, pics := Free)
    case Enable => s.(main := Poll, enabled := true)
    case Poll => s.(main := Popping, buf := MainLine)
    case Popping =>
      if s.queue == [] then s.(main := Unlocking(None))
      else s.(main := Unlocking(Some(s.queue[0])), queue := s.queue[1..])
    case Unlocking(None) => s.(main := BeforeHlt, buf := Free)
    case Unlocking(Some(c)) => s.(main := Poll, buf := Free, popped := s.popped + [c], editor := Typed(s.editor, c))
    case BeforeHlt => s.(main := Halted)
    case Halted => s
  }

  function IsrNext(s: State): State {
    match s.isr
    case NoIsr => s
    case TimerEntry => s.(isr := TimerEoi, ticks := s.ticks + 1)
    case TimerEoi => s.(isr := TimerUnlock, pics := Handler)
    case TimerUnlock => s.(isr := NoIsr, pics := Free, enabled := true)
    case KeyEntry(code) =>
      var (shift, c) := HandleScancode(s.shift, code);
      s.(isr := if c.Some? then KeyPush(c.value) else KeyEoi, shift := shift, codes := s.codes + [code])
    case KeyPush(c) => s.(isr := KeyHold(c), buf := Handler)
    case KeyHold(c) =>
      var t := s.(isr := KeyEoi, buf := Free, queue := Enqueue(s.n, s.queue, c));
      if |s.queue| + 1 < s.n then t.(accepted := s.accepted + [c]) else t.(dropped := s.dropped + 1)
    case KeyEoi => s.(isr := KeyUnlock, pics := Handler)
    case KeyUnlock => s.(isr := NoIsr, pics := Free, enabled := true)
  }

  /** Delivery of an interrupt; it also ends a `hlt`. */
  function Interrupted(s: State, isr: Isr): State {
    s.(isr := isr, enabled := false, main := if s.main == Halted then Poll else s.main)
  }

  function Step(s: State, e: Event): State {
    match e
    case MainStep => MainNext(s)
    case IsrStep => IsrNext(s)
    case TimerIrq => Interrupted(s, TimerEntry)
    case KeyIrq(code) => Interrupted(s, KeyEntry(code))
  }

  function Run(s: State, es: seq<Event>): State
    decreases |es|
  {
    if es == [] then s else Step(Run(s, es[..|es| - 1]), es[|es| - 1])
  }

  ghost predicate Feasible(s: State, es: seq<Event>)
    decreases |es|
  {
    es != [] ==> Feasible(s, es[..|es| - 1]) && Possible(Run(s, es[..|es| - 1]), es[|es| - 1])
  }

  // --- locks ------------------------------------------------------------------------------

  ghost predicate LockInv(s: State) {
    && (s.pics == MainLine <==> s.main == InitPics)
    && (s.pics == Handler <==> s.isr == TimerUnlock || s.isr == KeyUnlock)
    && (s.buf == MainLine <==> s.main == Popping || s.main.Unlocking?)
    && (s.buf == Handler <==> s.isr.KeyHold?)
    && (s.main == Boot || s.main == InitPics || s.main == Enable ==> !s.enabled && s.isr == NoIsr)
    && (s.main != Boot && s.main != InitPics && s.main != Enable ==> (s.enabled <==> s.isr == NoIsr))
    && (s.isr != NoIsr ==> s.main != Halted)
  }

  lemma StepKeepsLocks(s: State, e: Event)
    requires LockInv(s) && Possible(s, e)
    ensures LockInv(Step(s, e))
  {
    hide MainNext, IsrNext, LockInv;
    match e
    case MainStep => MainKeepsLocks(s);
    case IsrStep => IsrKeepsLocks(s);
    case TimerIrq => InterruptKeepsLocks(s, TimerEntry);
    case KeyIrq(code) => InterruptKeepsLocks(s, KeyEntry(code));
  }

  lemma MainKeepsLocks(s: State)
    requires LockInv(s) && Possible(s, MainStep)
    ensures LockInv(MainNext(s))
  {
    hide Typed;
  }

  lemma IsrKeepsLocks(s: State)
    requires LockInv(s) && Possible(s, IsrStep)
    ensures LockInv(IsrNext(s))
  {
    hide HandleScancode, Enqueue;
  }

  lemma InterruptKeepsLocks(s: State, isr: Isr)
    requires LockInv(s) && s.enabled && s.isr == NoIsr && (isr == TimerEntry || isr.KeyEntry?)
    ensures LockInv(Interrupted(s, isr))
  {
  }

  lemma {:induction false} LocksKept(s: State, es: seq<Event>)
    requires LockInv(s) && Feasible(s, es)
    ensures LockInv(Run(s, es))
    decreases |es|
  {
    hide LockInv, Possible, Step;
    if es != [] {
      LocksKept(s, es[..|es| - 1]);
      StepKeepsLocks(Run(s, es[..|es| - 1]), es[|es| - 1]);
    }
  }

  /** A handler waits for a lock that can no longer be released. */
  ghost predicate Stuck(s: State) {
    s.isr != NoIsr && !Possible(s, IsrStep)
  }

  /**
   In every run, the only stuck state is a key handler with a character to store while the main
   line holds BUF; no handler ever waits on PICS. And a stuck state is final.
   */
  lemma StuckOnlyOnBuf(n: nat, es: seq<Event>)
    requires Feasible(Start(n), es)
    ensures var s := Run(Start(n), es);
      && (Stuck(s) <==> s.isr.KeyPush? && s.buf == MainLine)
      && (s.isr == TimerEoi || s.isr == KeyEoi ==> s.pics == Free)
      && (Stuck(s) ==> forall e :: !Possible(s, e))
  {
    LocksKept(Start(n), es);
  }

  /** The interleaving to avoid: a key that produces a character, taken while the main line holds BUF. */
  ghost predicate Unsafe(s: State, e: Event) {
    e.KeyIrq? && s.buf == MainLine && HandleScancode(s.shift, e.code).1.Some?
  }

  ghost predicate LockSafe(s: State, es: seq<Event>)
    decreases |es|
  {
    es != [] ==> LockSafe(s, es[..|es| - 1]) && !Unsafe(Run(s, es[..|es| - 1]), es[|es| - 1])
  }

  /** While the main line holds BUF, the handler running will not ask for it. */
  ghost predicate NoClash(s: State) {
    s.buf == MainLine ==> !s.isr.KeyPush? && (s.isr.KeyEntry? ==> HandleScancode(s.shift, s.isr.code).1.None?)
  }

  lemma NoClashStep(s: State, e: Event)
    requires LockInv(s) && NoClash(s) && Possible(s, e) && !Unsafe(s, e)
    ensures NoClash(Step(s, e))
  {
    hide HandleScancode, Typed, Enqueue;
  }

  lemma {:induction false} SafeRunsNeverClash(s: State, es: seq<Event>)
    requires LockInv(s) && NoClash(s) && Feasible(s, es) && LockSafe(s, es)
    ensures NoClash(Run(s, es))
    decreases |es|
  {
    hide LockInv, NoClash, Possible, Unsafe, Step;
    if es != [] {
      SafeRunsNeverClash(s, es[..|es| - 1]);
      LocksKept(s, es[..|es| - 1]);
      NoClashStep(Run(s, es[..|es| - 1]), es[|es| - 1]);
    }
  }

  /** In a state of a lock-safe run, whoever has the processor can go on; a halted main line can be interrupted. */
  lemma AlwaysAStep(s: State)
    requires LockInv(s) && NoClash(s)
    ensures !Stuck(s)
    ensures s.isr != NoIsr ==> Possible(s, IsrStep)
    ensures s.isr == NoIsr && s.main != Halted ==> Possible(s, MainStep)
    ensures s.isr == NoIsr && s.main == Halted ==> forall e :: e == TimerIrq || e.KeyIrq? ==> Possible(s, e)
  {
    hide HandleScancode;
  }

  /** With that interleaving excluded, no stuck state is reachable. */
  lemma LockSafeRunsNeverStick(n: nat, es: seq<Event>)
    requires Feasible(Start(n), es) && LockSafe(Start(n), es)
    ensures !Stuck(Run(Start(n), es))
  {
    hide LockSafe, Feasible, Run, Step;
    SafeRunsNeverClash(Start(n), es);
    LocksKept(Start(n), es);
    AlwaysAStep(Run(Start(n), es));
  }

  /** And where it happens, the handler is stuck after its first step. */
  lemma UnsafeInterruptSticks(n: nat, es: seq<Event>, code: Byte)
    requires Feasible(Start(n), es)
    requires Possible(Run(Start(n), es), KeyIrq(code)) && Unsafe(Run(Start(n), es), KeyIrq(code))
    ensures Stuck(Step(Step(Run(Start(n), es), KeyIrq(code)), IsrStep))
  {
    LocksKept(Start(n), es);
  }

  lemma OneMore(s: State, es: seq<Event>, e: Event)
    requires Feasible(s, es) && Possible(Run(s, es), e)
    ensures Feasible(s, es + [e]) && Run(s, es + [e]) == Step(Run(s, es), e)
  {
    hide Possible, Step;
    assert (es + [e])[..|es + [e]| - 1] == es;
  }

  /** Such a run exists: boot, start to read, and press a letter while BUF is held. */
  lemma StuckIsReachable() returns (es: seq<Event>)
    ensures Feasible(Start(256), es) && Stuck(Run(Start(256), es))
  {
    hide Run, Feasible, HandleScancode, Stuck;
    var s := Start(256);
    es := [];
    EmptyRun(s);
    OneMore(s, es, MainStep);
    es := es + [MainStep];
    OneMore(s, es, MainStep);
    es := es + [MainStep];
    OneMore(s, es, MainStep);
    es := es + [MainStep];
    OneMore(s, es, MainStep);
    es := es + [MainStep];
    LetterDecodes();
    UnsafeInterruptSticks(256, es, 0x1E);
    OneMore(s, es, KeyIrq(0x1E));
    es := es + [KeyIrq(0x1E)];
    OneMore(s, es, IsrStep);
    es := es + [IsrStep];
  }

  lemma EmptyRun(s: State)
    ensures Run(s, []) == s && Feasible(s, [])
  {
  }

  lemma LetterDecodes()
    ensures HandleScancode(false, 0x1E) == (false, Some('a'))
  {
  }

  function TimerIrqs(es: seq<Event>): nat {
    if es == [] then 0 else TimerIrqs(es[..|es| - 1]) + if es[|es| - 1] == TimerIrq then 1 else 0
  }

  /** The tick counter counts the timer interrupts, except one whose handler has not yet counted it. */
  lemma {:induction false} TicksCountTimerInterrupts(n: nat, es: seq<Event>)
    requires Feasible(Start(n), es)
    ensures var s := Run(Start(n), es);
      s.ticks + (if s.isr == TimerEntry then 1 else 0) == TimerIrqs(es)
    decreases |es|
  {
    hide Step;
    if es != [] {
      TicksCountTimerInterrupts(n, es[..|es| - 1]);
      TickStep(Run(Start(n), es[..|es| - 1]), es[|es| - 1]);
    }
  }

  lemma TickStep(s: State, e: Event)
    requires Possible(s, e)
    ensures var t := Step(s, e);
      t.ticks + (if t.isr == TimerEntry then 1 else 0)
      == s.ticks + (if s.isr == TimerEntry then 1 else 0) + (if e == TimerIrq then 1 else 0)
  {
    hide HandleScancode, Typed, Enqueue;
  }

  // --- from scancodes to lines ----------------------------------------------------------------

  /** The character the main line has popped but not returned yet. */
  function InHand(s: State): string {
    if s.main.Unlocking? then Optional(s.main.c) else []
  }

  /** The character a handler has decoded but not stored yet. */
  function InFlight(s: State): string {
    if s.isr.KeyPush? || s.isr.KeyHold? then [s.isr.c] else []
  }

  ghost predicate TextInv(s: State) {
    && 0 < s.n && |s.queue| < s.n
    && s.shift == Decode(s.codes).0
    && s.accepted == s.popped + InHand(s) + s.queue
    && (s.dropped == 0 ==> Decode(s.codes).1 == s.accepted + InFlight(s))
    && s.editor == Edited(s.popped)
  }

  lemma KeyEntryKeepsText(s: State)
    requires LockInv(s) && TextInv(s) && s.isr.KeyEntry?
    ensures TextInv(IsrNext(s))
  {
    hide ScancodeToChar, ShiftMake, ShiftBreak, Edited;
    var t := IsrNext(s);
    assert t.codes[..|t.codes| - 1] == s.codes;
    assert InFlight(t) == Optional(HandleScancode(s.shift, s.isr.code).1);
  }

  lemma UnlockKeepsText(s: State)
    requires TextInv(s) && s.main.Unlocking?
    ensures TextInv(MainNext(s))
  {
    hide Decode, Typed;
    var t := MainNext(s);
    match s.main.c
    case None =>
      assert t.editor == Edited(t.popped);
    case Some(c) =>
      assert t.popped[..|t.popped| - 1] == s.popped;
      assert s.popped + [c] + s.queue == (s.popped + [c]) + [] + s.queue;
  }

  lemma PopKeepsText(s: State)
    requires TextInv(s) && s.main == Popping
    ensures TextInv(MainNext(s))
  {
    hide Decode, Edited;
    if s.queue != [] {
      assert s.popped + [] + s.queue == s.popped + [s.queue[0]] + s.queue[1..];
    }
  }

  lemma HoldKeepsText(s: State)
    requires TextInv(s) && s.isr.KeyHold?
    ensures TextInv(IsrNext(s))
  {
    hide Decode, Edited;
    var c := s.isr.c;
    assert s.popped + InHand(s) + s.queue + [c] == s.popped + InHand(s) + (s.queue + [c]);
    assert s.accepted + [c] + [] == s.accepted + [c];
  }

  /** Text, queue and shift are untouched, and nothing changes hands. */
  ghost predicate SameText(s: State, t: State) {
    && t.n == s.n && t.queue == s.queue && t.shift == s.shift && t.codes == s.codes
    && t.accepted == s.accepted && t.dropped == s.dropped && t.popped == s.popped && t.editor == s.editor
    && InHand(t) == InHand(s) && InFlight(t) == InFlight(s)
  }

  /** Every other step leaves the text alone. */
  lemma OthersKeepText(s: State, e: Event)
    requires Possible(s, e)
    requires e == MainStep ==> s.main != Popping && !s.main.Unlocking?
    requires e == IsrStep ==> !s.isr.KeyEntry? && !s.isr.KeyHold?
    ensures SameText(s, Step(s, e))
  {
    hide HandleScancode, Typed, Enqueue;
  }

  lemma SameTextKeepsInv(s: State, t: State)
    requires TextInv(s) && SameText(s, t)
    ensures TextInv(t)
  {
    hide Decode, Edited;
  }

  lemma StepKeepsText(s: State, e: Event)
    requires LockInv(s) && TextInv(s) && Possible(s, e)
    ensures TextInv(Step(s, e))
  {
    hide TextInv, MainNext, IsrNext, Interrupted, SameText;
    if e == IsrStep && s.isr.KeyEntry? {
      KeyEntryKeepsText(s);
    } else if e == IsrStep && s.isr.KeyHold? {
      HoldKeepsText(s);
    } else if e == MainStep && s.main.Unlocking? {
      UnlockKeepsText(s);
    } else if e == MainStep && s.main == Popping {
      PopKeepsText(s);
    } else {
      OthersKeepText(s, e);
      SameTextKeepsInv(s, Step(s, e));
    }
  }

  lemma {:induction false} TextKept(n: nat, es: seq<Event>)
    requires 0 < n && Feasible(Start(n), es)
    ensures TextInv(Run(Start(n), es)) && Run(Start(n), es).n == n
    decreases |es|
  {
    hide LockInv, TextInv, Possible, Step;
    if es == [] {
      StartHasNoText(n);
    } else {
      SameCapacity(Run(Start(n), es[..|es| - 1]), es[|es| - 1]);
      TextKept(n, es[..|es| - 1]);
      LocksAtStart(n);
      LocksKept(Start(n), es[..|es| - 1]);
      StepKeepsText(Run(Start(n), es[..|es| - 1]), es[|es| - 1]);
    }
  }

  lemma SameCapacity(s: State, e: Event)
    ensures Step(s, e).n == s.n
  {
    hide HandleScancode, Typed, Enqueue;
  }

  lemma LocksAtStart(n: nat)
    ensures LockInv(Start(n))
  {
  }

  lemma StartHasNoText(n: nat)
    requires 0 < n
    ensures TextInv(Start(n))
  {
  }

  /** Accepted characters are those returned to the reader followed by those pending, whatever was dropped. */
  lemma NothingAcceptedIsLost(n: nat, es: seq<Event>)
    requires 0 < n && Feasible(Start(n), es)
    ensures var s := Run(Start(n), es);
      s.accepted == s.popped + InHand(s) + s.queue && |s.queue| < n
  {
    hide Decode, Edited;
    TextKept(n, es);
  }

  /**
   End to end: in every run that drops no character, the lines returned by `read_line` are the
   newline-separated, backspace-folded segments of a prefix of the decoded scancode stream, and of
   the whole stream once no character is pending.
   */
  lemma LinesFollowTheKeys(n: nat, es: seq<Event>)
    requires 0 < n && Feasible(Start(n), es) && Run(Start(n), es).dropped == 0
    ensures var s := Run(Start(n), es);
      var segments := Segments(s.popped);
      && s.popped <= TextBefore(s.codes, |s.codes|)
      && (s.queue == [] && InHand(s) == [] && InFlight(s) == [] ==> s.popped == TextBefore(s.codes, |s.codes|))
      && s.editor.lines == FoldedAll(segments[..|segments| - 1])
      && s.editor.line == Folded(segments[|segments| - 1])
  {
    hide Decode, Edited, Segments, Folded, FoldedAll, TextBefore;
    var s := Run(Start(n), es);
    TextKept(n, es);
    DecodeIsPositional(s.codes);
    LinesAreFoldedSegments(s.popped);
  }

  // --- waiting --------------------------------------------------------------------------------

  /** How far the main line is from returning a pending character: its own steps, and one wake-up. */
  function Distance(m: Main): nat {
    match m
    case BeforeHlt => 5
    case Halted => 4
    case Poll => 3
    case Popping => 2
    case Unlocking(_) => 1
    case _ => 0
  }

  /** Is the event an interrupt that ends a `hlt`? */
  predicate Wakes(s: State, e: Event) {
    s.main == Halted && (e == TimerIrq || e.KeyIrq?)
  }

  function WakeUps(s: State, es: seq<Event>): nat
    decreases |es|
  {
    if es == [] then 0 else WakeUps(s, es[..|es| - 1]) + if Wakes(Run(s, es[..|es| - 1]), es[|es| - 1]) then 1 else 0
  }

  function MainSteps(es: seq<Event>): nat {
    if es == [] then 0 else MainSteps(es[..|es| - 1]) + if es[|es| - 1] == MainStep then 1 else 0
  }

  /** `c` is the oldest character not yet returned. */
  ghost predicate Oldest(s: State, c: char) {
    if s.main.Unlocking? then s.main.c == Some(c)
    else
      && (s.main == Poll || s.main == Popping || s.main == BeforeHlt || s.main == Halted)
      && s.queue != [] && s.queue[0] == c
  }

  lemma WaitStep(s: State, e: Event, c: char)
    requires LockInv(s) && Oldest(s, c) && Possible(s, e)
    ensures var t := Step(s, e);
      var near := (if Wakes(s, e) then 1 else 0) + (if e == MainStep then 1 else 0);
      if s.main.Unlocking? && e == MainStep then t.popped == s.popped + [c]
      else t.popped == s.popped && Oldest(t, c) && Distance(t.main) + near == Distance(s.main)
  {
    hide HandleScancode, Typed;
  }

  /**
   Until the character `c` is returned it stays the oldest one, and every step of the main line and
   every wake-up brings it nearer; at most one wake-up is needed.
   */
  lemma {:induction false} NearerUntilReturned(s: State, es: seq<Event>, c: char)
    requires LockInv(s) && Oldest(s, c) && Feasible(s, es)
    requires Run(s, es).popped == s.popped
    ensures var t := Run(s, es);
      && Oldest(t, c)
      && WakeUps(s, es) + MainSteps(es) == Distance(s.main) - Distance(t.main)
      && WakeUps(s, es) + (if t.main == BeforeHlt || t.main == Halted then 1 else 0) <= 1
    decreases |es|
  {
    hide LockInv, Possible, Step;
    if es != [] {
      var r := Run(s, es[..|es| - 1]);
      LocksKept(s, es[..|es| - 1]);
      PoppedOnlyGrows(s, es[..|es| - 1]);
      PoppedStep(r, es[|es| - 1]);
      NearerUntilReturned(s, es[..|es| - 1], c);
      WaitStep(r, es[|es| - 1], c);
    }
  }

  lemma {:induction false} PoppedOnlyGrows(s: State, es: seq<Event>)
    ensures s.popped <= Run(s, es).popped
    decreases |es|
  {
    hide Step;
    if es != [] {
      PoppedOnlyGrows(s, es[..|es| - 1]);
      PoppedStep(Run(s, es[..|es| - 1]), es[|es| - 1]);
    }
  }

  lemma PoppedStep(s: State, e: Event)
    ensures s.popped <= Step(s, e).popped
  {
    hide HandleScancode, Typed, Enqueue;
  }

  /** The first character returned is `c`. */
  lemma {:induction false} OldestComesFirst(s: State, es: seq<Event>, c: char)
    requires LockInv(s) && Oldest(s, c) && Feasible(s, es)
    ensures Run(s, es).popped == s.popped || s.popped + [c] <= Run(s, es).popped
    decreases |es|
  {
    hide LockInv, Possible, Step, Oldest, Wakes, Distance;
    if es != [] {
      var r := Run(s, es[..|es| - 1]);
      OldestComesFirst(s, es[..|es| - 1], c);
      PoppedStep(r, es[|es| - 1]);
      if r.popped == s.popped {
        LocksKept(s, es[..|es| - 1]);
        NearerUntilReturned(s, es[..|es| - 1], c);
        WaitStep(r, es[|es| - 1], c);
      }
    }
  }

  lemma OldestIsSomeStepsAway(s: State, c: char)
    requires Oldest(s, c)
    ensures 1 <= Distance(s.main) <= 5
  {
  }

  /** How many steps a handler still has to take. */
  function IsrLeft(i: Isr): nat {
    match i
    case NoIsr => 0
    case TimerEntry => 3
    case TimerEoi => 2
    case TimerUnlock => 1
    case KeyEntry(_) => 5
    case KeyPush(_) => 4
    case KeyHold(_) => 3
    case KeyEoi => 2
    case KeyUnlock => 1
  }

  /** A handler ends after a bounded number of its own steps, in which nothing else can happen. */
  lemma HandlersEnd(s: State, e: Event)
    requires LockInv(s) && s.isr != NoIsr && Possible(s, e)
    ensures e == IsrStep && IsrLeft(Step(s, e).isr) < IsrLeft(s.isr) && Step(s, e).main == s.main
  {
    hide HandleScancode, Enqueue;
  }

  /**
   No lost wake-up. Suppose `c` is the oldest character pending, as when it arrived after the main
   line had found the buffer empty and before it halted. In every lock-safe continuation `c` is the
   next character returned, and it has been returned once the steps of the main line and the
   interrupts that woke it number `Distance(s.main)`, at most five; until then at most one interrupt
   has been needed to wake it, and a step is always possible: of the handler that is running, else
   of the main line, or, if that is halted, an interrupt.
   */
  lemma NoLostWakeUp(s: State, es: seq<Event>, c: char)
    requires LockInv(s) && NoClash(s) && Oldest(s, c) && Feasible(s, es) && LockSafe(s, es)
    ensures var t := Run(s, es);
      && (WakeUps(s, es) + MainSteps(es) >= Distance(s.main) ==> s.popped + [c] <= t.popped)
      && (t.popped == s.popped || s.popped + [c] <= t.popped)
      && (t.popped == s.popped ==> WakeUps(s, es) + (if t.main == BeforeHlt || t.main == Halted then 1 else 0) <= 1)
      && !Stuck(t)
      && (t.isr != NoIsr ==> Possible(t, IsrStep))
      && (t.isr == NoIsr && t.main != Halted ==> Possible(t, MainStep))
      && (t.isr == NoIsr && t.main == Halted ==> forall e :: e == TimerIrq || e.KeyIrq? ==> Possible(t, e))
  {
    hide Run, Feasible, LockSafe, LockInv, NoClash, Oldest, Possible, Stuck, WakeUps, MainSteps, Distance;
    var t := Run(s, es);
    LocksKept(s, es);
    SafeRunsNeverClash(s, es);
    AlwaysAStep(t);
    OldestComesFirst(s, es, c);
    if t.popped == s.popped {
      NearerUntilReturned(s, es, c);
      OldestIsSomeStepsAway(t, c);
    }
  }

  /**
   The lock-safety is needed: with `BUF` held by the main line and a character still pending, one
   letter key leaves it pending for ever.
   */
  lemma UnsafeRunsCanStarve(s: State, c: char)
    requires LockInv(s) && s.enabled && s.main == Popping && Oldest(s, c) && !s.shift
    ensures var es := [KeyIrq(0x1E), IsrStep];
      Feasible(s, es) && Run(s, es).popped == s.popped && forall e :: !Possible(Run(s, es), e)
  {
    hide Feasible, Run, HandleScancode;
    EmptyRun(s);
    LetterDecodes();
    OneMore(s, [], KeyIrq(0x1E));
    assert [] + [KeyIrq(0x1E)] == [KeyIrq(0x1E)];
    OneMore(s, [KeyIrq(0x1E)], IsrStep);
    assert [KeyIrq(0x1E)] + [IsrStep] == [KeyIrq(0x1E), IsrStep];
  }
}

/**
 * The transmit side of cores/arduino/BufferedSerial.cpp. A thread pushes bytes into the ring
 * buffer and primes the transmitter; `txIrq` runs as the transmit interrupt, which preempts the
 * thread between any two of its memory accesses, or is called by `prime`; the hardware becomes
 * writable again at any time. Every ring access is a step of RingProtocol.
 */
module BufferedSerial {
  import opened Memory
  import opened RingBuffers
  import RP = RingProtocol

  /** Where one activation of `txIrq` stands. */
  datatype Drain =
    | Off
    | Writable          // about to evaluate `serial_writable`
    | Used              // about to evaluate `_txbuf.use() > 0`
    | Getting           // inside `_txbuf.getc()`
    | Sending(data: byte) // about to call `serial_putc`
    | Detaching         // about to detach the interrupt and leave

  /** Where the thread stands. */
  datatype Thread =
    | Outside
    | Pushing(rest: seq<byte>) // inside `putc`, `puts` or `write`: these bytes are still to be pushed
    | PrimeTest                // in `prime`, about to evaluate `serial_writable`
    | PrimeDetach              // in `prime`, about to detach the interrupt
    | PrimeDrain(drain: Drain) // in the call of `txIrq` that `prime` makes
    | PrimeAttach              // in `prime`, about to attach the interrupt

  /**
   * `irq` is the interrupt's own activation of `txIrq`, `attached` whether the TxIrq callback is
   * attached, `writable` the hardware's answer, `sent` the bytes handed to the hardware.
   * `offered` records the bytes passed to `putc`, `puts` and `write`, and `refused` how many of
   * them met a full ring.
   */
  datatype State = State(q: RP.State, thread: Thread, irq: Drain,
                         attached: bool, writable: bool, sent: seq<byte>,
                         offered: seq<byte>, refused: nat)

  datatype Step =
    | Begin(bytes: seq<byte>)   // the thread calls `putc`, `puts` or `write`
    | Push                      // one memory access of `_txbuf.putc`
    | Prime                     // one step of `prime` outside its `txIrq` call
    | PrimeTx(full: bool)       // one step of the `txIrq` call of `prime`
    | IrqEnter                  // the interrupt fires
    | IrqTx(full: bool)         // one step of the interrupt's `txIrq`
    | HwReady                   // the hardware has room again

  predicate Init(s: State) {
    s.q.ring.buf != [] && s.q == RP.Init(|s.q.ring.buf| - 1, s.q.ring.buf) &&
    s.thread == Outside && s.irq == Off && !s.attached && s.writable && s.sent == [] &&
    s.offered == [] && s.refused == 0
  }

  /** The next ring access of a `putc` of `rest[0]`. */
  function PushStep(s: State): RP.Step
    requires s.thread.Pushing? && s.thread.rest != []
  {
    match s.q.writer
    case WIdle => RP.StartPut(s.thread.rest[0])
    case WReadW(_) => RP.ReadW
    case WCheck(_, _) => RP.Check
    case WStore(_, _) => RP.Store
    case WPublish(_, _) => RP.PublishW
  }

  /** The next ring access of a `getc`. */
  function GetStep(s: State): RP.Step {
    match s.q.reader
    case RIdle => RP.StartGet
    case RCheck => RP.Compare
    case RLoad => RP.Load
    case RPublish(_) => RP.PublishR
  }

  predicate DrainEnabled(s: State, d: Drain) {
    s.q.ring.Valid() && !d.Off? && (d.Getting? ==> RP.Enabled(s.q, GetStep(s)))
  }

  /** The thread moves only while the interrupt is not running. */
  predicate Enabled(s: State, step: Step) {
    match step
    case Begin(bytes) => s.irq.Off? && s.thread.Outside? && bytes != []
    case Push => s.irq.Off? && s.thread.Pushing? &&
      (s.thread.rest == [] || RP.Enabled(s.q, PushStep(s)))
    case Prime => s.irq.Off? && (s.thread.PrimeTest? || s.thread.PrimeDetach? || s.thread.PrimeAttach?)
    case PrimeTx(_) => s.irq.Off? && s.thread.PrimeDrain? && DrainEnabled(s, s.thread.drain)
    case IrqEnter => s.irq.Off? && s.attached
    case IrqTx(_) => DrainEnabled(s, s.irq)
    case HwReady => !s.writable
  }

  /** One step of `txIrq`: the new shared state and where this activation stands then. */
  function DrainStep(s: State, d: Drain, full: bool): (State, Drain)
    requires DrainEnabled(s, d)
  {
    match d
    case Off => (s, Off)
    case Writable => (s, if s.writable then Used else Off)
    case Used => (s, if s.q.ring.Use() > 0 then Getting else Detaching)
    case Getting =>
      var t := s.(q := RP.Do(s.q, GetStep(s)));
      if s.q.reader.RPublish? then (t, Sending(s.q.reader.data)) else (t, Getting)
    case Sending(data) => (s.(sent := s.sent + [data], writable := !full), Writable)
    case Detaching => (s.(attached := false), Off)
  }

  function Do(s: State, step: Step): State
    requires Enabled(s, step)
  {
    match step
    case Begin(bytes) => s.(thread := Pushing(bytes), offered := s.offered + bytes)
    case Push =>
      if s.thread.rest == [] then s.(thread := PrimeTest)
      else
        var t := s.(q := RP.Do(s.q, PushStep(s)));
        if !t.q.writer.WIdle? then t
        else t.(thread := Pushing(s.thread.rest[1..]),
                refused := s.refused + if PushStep(s).PublishW? then 0 else 1)
    case Prime =>
      if s.thread.PrimeTest? then s.(thread := if s.writable then PrimeDetach else Outside)
      else if s.thread.PrimeDetach? then s.(attached := false, thread := PrimeDrain(Writable))
      else s.(attached := true, thread := Outside)
    case PrimeTx(full) =>
      var (t, d) := DrainStep(s, s.thread.drain, full);
      t.(thread := if d.Off? then PrimeAttach else PrimeDrain(d))
    case IrqEnter => s.(irq := Writable)
    case IrqTx(full) =>
      var (t, d) := DrainStep(s, s.irq, full);
      t.(irq := d)
    case HwReady => s.(writable := true)
  }

  predicate Reaches(s: State, run: seq<Step>, t: State)
    decreases |run|
  {
    if run == [] then s == t
    else Enabled(s, run[0]) && Reaches(Do(s, run[0]), run[1..], t)
  }

  // --- The invariant ---------------------------------------------------------------------

  /** The activation of `txIrq` that is under way, if any: the interrupt's before the thread's. */
  function Active(s: State): Drain {
    if !s.irq.Off? then s.irq
    else if s.thread.PrimeDrain? then s.thread.drain
    else Off
  }

  /** Between detaching in `prime` and attaching again. */
  predicate Critical(s: State) {
    s.thread.PrimeDrain? || s.thread.PrimeAttach?
  }

  /** The bytes of the current call that are still to be pushed. */
  function Pending(s: State): seq<byte> {
    if s.thread.Pushing? then s.thread.rest else []
  }

  /** The byte that `_txbuf.putc` is working on. */
  function Current(w: RP.Writer): seq<byte> {
    if w.WIdle? then [] else [w.data]
  }

  predicate NothingLost(s: State) {
    Current(s.q.writer) <= Pending(s) &&
    |s.offered| == |s.q.accepted| + s.refused + |Pending(s)| &&
    (s.refused == 0 ==> s.offered == s.q.accepted + Pending(s))
  }

  /** The bytes taken out of the ring and not yet handed to the hardware. */
  function InHand(d: Drain): seq<byte> {
    if d.Sending? then [d.data] else []
  }

  predicate DrainInv(s: State, d: Drain) {
    (s.q.reader.RIdle? || d.Getting?) &&
    (d.Getting? ==> s.q.ring.r != s.q.ring.w) &&
    (d.Detaching? ==> s.q.ring.r == s.q.ring.w) &&
    (d.Used? || d.Getting? || d.Sending? || d.Detaching? ==> s.writable) &&
    s.q.delivered == s.sent + InHand(d)
  }

  predicate Inv(s: State) {
    RP.Inv(s.q) &&
    (s.thread.Pushing? || s.q.writer.WIdle?) &&
    NothingLost(s) &&
    // at most one activation of txIrq
    (Critical(s) ==> !s.attached && s.irq.Off?) &&
    (s.thread.PrimeDrain? ==> !s.thread.drain.Off?) &&
    (!s.irq.Off? ==> s.attached) &&
    DrainInv(s, Active(s)) &&
    // "detached" implies "writable"
    (!s.attached && !Critical(s) ==> s.writable) &&
    // no lost wake-up
    (s.thread.Outside? && s.q.ring.r != s.q.ring.w ==> s.attached)
  }

  lemma DrainStepKeeps(s: State, d: Drain, full: bool)
    requires Inv(s) && d == Active(s) && DrainEnabled(s, d)
    ensures var (t, d') := DrainStep(s, d, full);
      RP.Inv(t.q) && t.q.writer == s.q.writer && t.q.accepted == s.q.accepted &&
      t.offered == s.offered && t.refused == s.refused && t.thread == s.thread && t.irq == s.irq &&
      DrainInv(t, d') &&
      (t.attached == s.attached || (!t.attached && d'.Off? && t.writable && t.q.ring.r == t.q.ring.w)) &&
      (d'.Off? ==> t.writable == s.writable && t.q.ring == s.q.ring)
  {
    if d.Getting? {
      RP.ReaderStepKeepsInv(s.q, GetStep(s));
    } else if d.Used? {
      CountersAgree(s.q.ring);
    }
  }

  lemma PushKeepsNothingLost(s: State)
    requires NothingLost(s) && Enabled(s, Push) && s.thread.rest != []
    ensures NothingLost(Do(s, Push))
  {
    match s.q.writer
    case WPublish(_, _) => PublishKeepsNothingLost(s);
    case WCheck(_, _) => hide Ring.Contents;
    case _ => hide Ring.Contents, Ring.Next;
  }

  lemma PublishKeepsNothingLost(s: State)
    requires NothingLost(s) && Enabled(s, Push) && s.thread.rest != [] && s.q.writer.WPublish?
    ensures NothingLost(Do(s, Push))
  {
    hide Ring.Contents, Ring.Next;
    var data, rest, accepted := s.q.writer.data, s.thread.rest, s.q.accepted;
    assert rest[0] == data && rest == [data] + rest[1..];
    assert accepted + ([data] + rest[1..]) == accepted + [data] + rest[1..];
  }

  lemma PushKeepsInv(s: State)
    requires Inv(s) && Enabled(s, Push)
    ensures Inv(Do(s, Push))
  {
    if s.thread.rest != [] {
      RP.WriterStepKeepsInv(s.q, PushStep(s));
      PushKeepsNothingLost(s);
      hide NothingLost, RP.Inv, Ring.Contents;
    }
  }

  lemma StepKeepsInv(s: State, step: Step)
    requires Inv(s) && Enabled(s, step)
    ensures Inv(Do(s, step))
  {
    hide RP.Inv, Ring.Contents, RP.Do;
    match step
    case PrimeTx(full) => DrainStepKeeps(s, s.thread.drain, full);
    case IrqTx(full) => DrainStepKeeps(s, s.irq, full);
    case IrqEnter =>
    case HwReady =>
    case Begin(_) =>
    case Push => PushKeepsInv(s);
    case Prime =>
  }

  lemma {:induction false} RunKeepsInv(s: State, run: seq<Step>, t: State)
    requires Inv(s) && Reaches(s, run, t)
    ensures Inv(t)
    decreases |run|
  {
    if run != [] {
      StepKeepsInv(s, run[0]);
      RunKeepsInv(Do(s, run[0]), run[1..], t);
    }
  }

  // --- Safety over all runs ----------------------------------------------------------------

  /**
   * In every interleaving: whenever the thread is outside and bytes are queued, the interrupt is
   * attached; `txIrq` is never active twice; the hardware is only written when writable; and the
   * bytes sent, in hand and queued are the bytes accepted, in order. Unless a byte met a full
   * ring, the accepted bytes are all those offered so far.
   */
  lemma NoLostWakeUp(s: State, run: seq<Step>, t: State)
    requires Init(s) && Reaches(s, run, t)
    ensures t.q.ring.Valid()
    ensures t.thread.Outside? && t.q.ring.Contents() != [] ==> t.attached
    ensures t.irq.Off? || !t.thread.PrimeDrain?
    ensures Active(t).Sending? ==> t.writable
    ensures t.q.accepted == t.sent + InHand(Active(t)) + t.q.ring.Contents()
    ensures |t.q.accepted| + t.refused + |Pending(t)| == |t.offered|
    ensures t.refused == 0 ==> t.offered == t.q.accepted + Pending(t)
  {
    InitInv(s);
    RunKeepsInv(s, run, t);
    assert t.sent + InHand(Active(t)) == t.q.delivered;
  }

  lemma InitInv(s: State)
    requires Init(s)
    ensures Inv(s)
  {}

  // --- Progress ------------------------------------------------------------------------------

  /** Steps that need no action of the thread: the hardware, and interrupts that find it ready. */
  predicate Background(s: State, step: Step) {
    Enabled(s, step) &&
    (step.HwReady? || step.IrqTx? || (step.IrqEnter? && s.writable))
  }

  predicate BackgroundRun(s: State, run: seq<Step>, t: State)
    decreases |run|
  {
    if run == [] then s == t
    else Background(s, run[0]) && BackgroundRun(Do(s, run[0]), run[1..], t)
  }

  function Phase(s: State): nat {
    match s.irq
    case Off => if !s.attached then 0 else if s.writable then 13 else 14
    case Writable => if s.writable then 12 else 16
    case Used => 11
    case Getting =>
      (match s.q.reader case RIdle => 10 case RCheck => 9 case RLoad => 8 case RPublish(_) => 7)
    case Sending(_) => 6
    case Detaching => 1
  }

  /** An upper bound on the background steps still to come. */
  function Measure(s: State): nat
    requires s.q.ring.Valid()
  {
    20 * (|s.q.ring.Contents()| + |InHand(s.irq)|) + Phase(s)
  }

  lemma BackgroundStepDecreases(s: State, step: Step)
    requires Inv(s) && Background(s, step) && s.thread.Outside?
    ensures Inv(Do(s, step)) && Do(s, step).thread.Outside? && Do(s, step).q.accepted == s.q.accepted
    ensures Measure(Do(s, step)) < Measure(s)
  {
    StepKeepsInv(s, step);
    if step.IrqTx? {
      DrainStepDecreases(s, s.irq, step.full);
    }
    hide Inv, Ring.Contents, RP.Do;
  }

  /** The step of the interrupt: it takes a byte out of the ring, hands one over, or comes closer to either. */
  lemma DrainStepDecreases(s: State, d: Drain, full: bool)
    requires Inv(s) && d == s.irq && DrainEnabled(s, d) && s.thread.Outside?
    ensures var (t, d') := DrainStep(s, d, full);
      t.q.ring.Valid() && Measure(t.(irq := d')) < Measure(s) &&
      t.thread.Outside? && t.q.accepted == s.q.accepted
  {
    if d.Getting? {
      GettingDecreases(s);
    } else {
      hide Ring.Contents, RP.Do;
    }
  }

  lemma GettingDecreases(s: State)
    requires Inv(s) && s.irq.Getting? && RP.Enabled(s.q, GetStep(s))
    ensures var (t, d') := DrainStep(s, s.irq, false);
      t.q.ring.Valid() && Measure(t.(irq := d')) < Measure(s) &&
      t.thread == s.thread && t.q.accepted == s.q.accepted
  {
    if s.q.reader.RPublish? {
      PublishRemoves(s.q.ring);
    }
    hide Ring.Contents;
  }

  lemma {:induction false} BackgroundRunEnds(s: State, run: seq<Step>, t: State)
    requires Inv(s) && s.thread.Outside? && BackgroundRun(s, run, t)
    ensures Inv(t) && t.thread.Outside? && t.q.accepted == s.q.accepted
    ensures |run| + Measure(t) <= Measure(s)
    decreases |run|
  {
    if run != [] {
      BackgroundStepDecreases(s, run[0]);
      BackgroundRunEnds(Do(s, run[0]), run[1..], t);
    }
  }

  /**
   * Every accepted byte reaches the wire. From any reachable state with the thread outside, the
   * hardware and the interrupt alone can make only boundedly many steps, and when none is left
   * everything accepted has been sent, in order.
   */
  lemma EverythingIsSent(s: State, run: seq<Step>, t: State, background: seq<Step>, u: State)
    requires Init(s) && Reaches(s, run, t) && t.thread.Outside?
    requires BackgroundRun(t, background, u)
    ensures t.q.ring.Valid() && |background| <= Measure(t)
    ensures (forall step :: !Background(u, step)) ==> u.sent == t.q.accepted
  {
    InitInv(s);
    RunKeepsInv(s, run, t);
    BackgroundRunEnds(t, background, u);
    if forall step :: !Background(u, step) {
      assert !Background(u, HwReady) && !Background(u, IrqEnter) && !Background(u, IrqTx(true));
      QuietIsDrained(u);
    }
  }

  lemma QuietIsDrained(u: State)
    requires Inv(u) && u.thread.Outside?
    requires !Background(u, HwReady) && !Background(u, IrqEnter) && !Background(u, IrqTx(true))
    ensures u.sent == u.q.accepted
  {
    assert u.irq.Off?;
    assert !u.attached;
    assert u.q.ring.Contents() == [];
  }

  // --- Nothing is refused without need -----------------------------------------------------------

  /** The check of `_txbuf.putc` for room, on a ring that is full. */
  predicate MeetsFullRing(s: State, step: Step) {
    step.Push? && s.thread.Pushing? && s.thread.rest != [] && s.q.writer.WCheck? &&
    s.q.ring.Valid() && |s.q.ring.Contents()| == |s.q.ring.buf| - 1
  }

  lemma RefusedStep(s: State, step: Step)
    requires Inv(s) && Enabled(s, step)
    ensures Do(s, step).refused == s.refused + if MeetsFullRing(s, step) then 1 else 0
    ensures |Do(s, step).q.ring.buf| == |s.q.ring.buf|
  {
    CountersAgree(s.q.ring);
    hide Ring.Contents, NothingLost, DrainInv;
  }

  /**
   * In every reachable state the next step refuses a byte exactly if it is the check for room of a
   * `putc` on a full ring; then the one byte it works on is refused, and no other step refuses any.
   */
  lemma RefusesExactlyWhenFull(s: State, run: seq<Step>, t: State, step: Step)
    requires Init(s) && Reaches(s, run, t) && Enabled(t, step)
    ensures Do(t, step).refused == t.refused + if MeetsFullRing(t, step) then 1 else 0
  {
    InitInv(s);
    RunKeepsInv(s, run, t);
    RefusedStep(t, step);
  }

  /** The bytes that the calls of a run pass in. */
  function CallBytes(run: seq<Step>): seq<byte> {
    if run == [] then []
    else (if run[0].Begin? then run[0].bytes else []) + CallBytes(run[1..])
  }

  /** What is recorded as offered is what the calls pass in. */
  lemma {:induction false} OfferedByCalls(s: State, run: seq<Step>, t: State)
    requires Reaches(s, run, t)
    ensures t.offered == s.offered + CallBytes(run)
    decreases |run|
  {
    if run != [] {
      OfferedByCalls(Do(s, run[0]), run[1..], t);
      assert s.offered + (if run[0].Begin? then run[0].bytes else []) == Do(s, run[0]).offered;
    }
  }

  /** At no point of the run are more bytes offered than the ring holds on top of those taken out. */
  predicate Roomy(s: State, run: seq<Step>)
    decreases |run|
  {
    |s.offered| < |s.q.ring.buf| + |s.q.delivered| &&
    (run != [] && Enabled(s, run[0]) ==> Roomy(Do(s, run[0]), run[1..]))
  }

  lemma {:induction false} RoomyRefusesNothing(s: State, run: seq<Step>, t: State)
    requires Inv(s) && Reaches(s, run, t) && Roomy(s, run)
    ensures t.refused == s.refused
    decreases |run|
  {
    if run != [] {
      RefusedStep(s, run[0]);
      StepKeepsInv(s, run[0]);
      if MeetsFullRing(s, run[0]) {
        FullRingIsNotRoomy(s, run[0]);
      } else {
        RoomyRefusesNothing(Do(s, run[0]), run[1..], t);
      }
    }
  }

  lemma FullRingIsNotRoomy(s: State, step: Step)
    requires Inv(s) && MeetsFullRing(s, step)
    ensures |s.offered| >= |s.q.ring.buf| + |s.q.delivered|
  {
    hide Ring.Contents;
  }

  /**
   * If the calls never offer more than there is room for, nothing is refused, and once hardware and
   * interrupt come to rest all bytes of all calls have been sent, in order.
   */
  lemma EverythingOfferedIsSent(s: State, run: seq<Step>, t: State, background: seq<Step>, u: State)
    requires Init(s) && Reaches(s, run, t) && t.thread.Outside? && Roomy(s, run)
    requires BackgroundRun(t, background, u) && forall step :: !Background(u, step)
    ensures t.refused == 0 && u.sent == CallBytes(run)
  {
    InitInv(s);
    RunKeepsInv(s, run, t);
    RoomyRefusesNothing(s, run, t);
    OfferedByCalls(s, run, t);
    EverythingIsSent(s, run, t, background, u);
    assert t.refused == 0 && s.offered == [] && Pending(t) == [];
    hide RP.Inv, Ring.Contents, Reaches, BackgroundRun, Roomy, Enabled, DrainInv;
    assert t.offered == t.q.accepted + [];
    assert t.offered == CallBytes(run);
  }

  // --- Calls do something --------------------------------------------------------------------------

  /** The thread may make a call: it is outside, and no interrupt is running. */
  predicate AtRest(s: State) {
    s.thread.Outside? && s.irq.Off?
  }

  lemma {:induction false} ReachesMore(s: State, a: seq<Step>, t: State, b: seq<Step>, u: State)
    requires Reaches(s, a, t) && Reaches(t, b, u)
    ensures Reaches(s, a + b, u)
    decreases |a|
  {
    if a == [] {
      assert a + b == b;
    } else {
      assert (a + b)[1..] == a[1..] + b;
      ReachesMore(Do(s, a[0]), a[1..], t, b, u);
    }
  }

  function FivePushes(): seq<Step> {
    [Push, Push, Push, Push, Push]
  }

  /** `t` is `s` but for the first byte that the thread has to push, which is in the ring now. */
  predicate OnePushed(s: State, t: State) {
    s.thread.Pushing? && s.thread.rest != [] && t == s.(thread := Pushing(s.thread.rest[1..]), q := t.q) &&
    t.q.writer.WIdle? && t.q.reader == s.q.reader && t.q.delivered == s.q.delivered &&
    t.q.accepted == s.q.accepted + [s.thread.rest[0]] && |t.q.ring.buf| == |s.q.ring.buf|
  }

  /** One undisturbed `putc` of the call: its first byte goes into the ring. */
  lemma PushOne(s: State) returns (t: State)
    requires Inv(s) && s.thread.Pushing? && s.thread.rest != [] && s.q.writer.WIdle? && s.irq.Off?
    requires |s.q.ring.Contents()| < |s.q.ring.buf| - 1
    ensures Reaches(s, FivePushes(), t) && Inv(t) && OnePushed(s, t)
  {
    CountersAgree(s.q.ring);
    hide Ring.Contents;
    var s1 := Do(s, Push);
    var s2 := Do(s1, Push);
    var s3 := Do(s2, Push);
    var s4 := Do(s3, Push);
    t := Do(s4, Push);
    assert Reaches(s4, [Push], t);
    assert Reaches(s3, [Push, Push], t);
    assert Reaches(s2, [Push, Push, Push], t);
    assert Reaches(s1, [Push, Push, Push, Push], t);
    assert Reaches(s, FivePushes(), t);
    hide Inv;
    RunKeepsInv(s, FivePushes(), t);
  }


  /** `t` is `s` once the thread has pushed all it has. */
  predicate AllPushed(s: State, t: State) {
    s.thread.Pushing? && t == s.(thread := Pushing([]), q := t.q) && t.q.writer.WIdle? &&
    t.q.accepted == s.q.accepted + s.thread.rest && t.q.delivered == s.q.delivered
  }

  lemma AllPushedLater(s: State, u: State, t: State)
    requires OnePushed(s, u) && AllPushed(u, t)
    ensures AllPushed(s, t)
  {
    var rest := s.thread.rest;
    assert s.q.accepted + rest == s.q.accepted + [rest[0]] + rest[1..];
  }

  lemma {:induction false} PushAll(s: State) returns (run: seq<Step>, t: State)
    requires Inv(s) && s.thread.Pushing? && s.q.writer.WIdle? && s.irq.Off? && s.q.ring.Valid()
    requires |s.q.ring.Contents()| + |s.thread.rest| < |s.q.ring.buf|
    ensures Reaches(s, run, t) && Inv(t) && OnlyPushes(run) && AllPushed(s, t)
    decreases |s.thread.rest|
  {
    if s.thread.rest == [] {
      run, t := [], s;
      assert s.q.accepted + [] == s.q.accepted;
    } else {
      var u := PushOne(s);
      PushGoesOn(s, u);
      OneMoreQueued(s, u, s.thread.rest[0]);
      hide *;
      var more;
      more, t := PushAll(u);
      run := FivePushes() + more;
      MorePushes(more);
      ReachesMore(s, FivePushes(), u, more, t);
      AllPushedLater(s, u, t);
    }
  }

  lemma PushGoesOn(s: State, u: State)
    requires OnePushed(s, u)
    ensures u.thread.Pushing? && u.q.writer.WIdle? && u.irq == s.irq && |u.q.ring.buf| == |s.q.ring.buf|
    ensures |u.thread.rest| + 1 == |s.thread.rest| && u.q.accepted == s.q.accepted + [s.thread.rest[0]]
    ensures u.q.delivered == s.q.delivered
  {}

  predicate OnlyPushes(run: seq<Step>) {
    forall k :: 0 <= k < |run| ==> run[k] == Push
  }

  lemma MorePushes(more: seq<Step>)
    requires OnlyPushes(more)
    ensures OnlyPushes(FivePushes() + more)
  {}

  lemma OneMoreQueued(s: State, u: State, b: byte)
    requires Inv(s) && Inv(u) && u.q.accepted == s.q.accepted + [b] && u.q.delivered == s.q.delivered
    ensures u.q.ring.Valid() && |u.q.ring.Contents()| == |s.q.ring.Contents()| + 1
  {
    hide Ring.Contents;
  }

  /** The call of `bytes` is through with them: all are queued behind what was, and `prime` is due. */
  predicate Queued(s: State, bytes: seq<byte>, t: State) {
    t.thread == PrimeTest && t.q.accepted == s.q.accepted + bytes && t.refused == s.refused &&
    s.q.ring.Valid() && t.q.ring.Valid() && t.q.ring.Contents() == s.q.ring.Contents() + bytes && t.attached == s.attached
  }

  /**
   * An undisturbed call with enough room puts all its bytes into the ring, in order, and comes to
   * `prime`.
   */
  lemma CallQueuesAll(s: State, bytes: seq<byte>) returns (run: seq<Step>, t: State)
    requires Inv(s) && AtRest(s) && bytes != [] && |s.q.ring.Contents()| + |bytes| < |s.q.ring.buf|
    ensures Reaches(s, [Begin(bytes)] + run + [Push], t) && OnlyPushes(run) && Queued(s, bytes, t)
  {
    var begun := Do(s, Begin(bytes));
    StepKeepsInv(s, Begin(bytes));
    var u;
    run, u := PushAll(begun);
    t := Do(u, Push);
    StepKeepsInv(u, Push);
    assert Reaches(u, [Push], t);
    assert Reaches(s, [Begin(bytes)], begun);
    ReachesMore(s, [Begin(bytes)], begun, run, u);
    ReachesMore(s, [Begin(bytes)] + run, u, [Push], t);
    QueuedBehind(s, t, bytes);
  }

  lemma QueuedBehind(s: State, t: State, bytes: seq<byte>)
    requires Inv(s) && Inv(t) && t.q.accepted == s.q.accepted + bytes && t.q.delivered == s.q.delivered
    ensures t.q.ring.Contents() == s.q.ring.Contents() + bytes
  {
    hide Ring.Contents;
    var d, x, y := s.q.delivered, s.q.ring.Contents(), t.q.ring.Contents();
    assert d + y == d + (x + bytes);
    assert y == (d + y)[|d|..] && x + bytes == (d + (x + bytes))[|d|..];
  }

  /** A byte handed to the hardware may be one that fills it, or not. */
  lemma HardwareMayFill(s: State, full: bool)
    requires Inv(s) && s.irq.Sending?
    ensures Enabled(s, IrqTx(full))
    ensures Do(s, IrqTx(full)).writable == !full && Do(s, IrqTx(full)).sent == s.sent + [s.irq.data]
  {}

  predicate ByPrime(run: seq<Step>) {
    forall k :: 0 <= k < |run| ==> run[k].Prime? || run[k].PrimeTx?
  }

  /** `prime` has detached the interrupt and is about to drain. */
  predicate Detached(s: State, t: State) {
    t == s.(attached := false, thread := PrimeDrain(Getting))
  }

  /** `prime` has taken the oldest byte out of the ring. */
  predicate HasOldest(s: State, t: State) {
    s.q.ring.Valid() && t == s.(thread := PrimeDrain(Sending(s.q.ring.buf[s.q.ring.r])), q := t.q)
  }

  predicate HasSent(s: State, t: State, data: byte, full: bool) {
    t == s.(thread := PrimeDrain(Writable), sent := s.sent + [data], writable := !full)
  }

  lemma PrimeEnters(s: State, full: bool) returns (run: seq<Step>, t: State)
    requires Inv(s) && s.thread.PrimeTest? && s.irq.Off? && s.writable && s.q.ring.r != s.q.ring.w
    ensures Reaches(s, run, t) && ByPrime(run)
    ensures Detached(s, t)
  {
    CountersAgree(s.q.ring);
    hide Ring.Contents;
    var tx := PrimeTx(full);
    var s1 := Do(s, Prime);
    var s2 := Do(s1, Prime);
    var s3 := Do(s2, tx);
    t := Do(s3, tx);
    run := [Prime, Prime, tx, tx];
    assert Reaches(s3, [tx], t);
    assert Reaches(s2, [tx, tx], t);
    assert Reaches(s1, [Prime, tx, tx], t);
  }

  lemma PrimeGets(s: State, full: bool) returns (run: seq<Step>, t: State)
    requires s.thread == PrimeDrain(Getting) && s.irq.Off? && s.q.reader.RIdle? && s.q.ring.Valid()
    requires s.q.ring.r != s.q.ring.w
    ensures Reaches(s, run, t) && ByPrime(run) && HasOldest(s, t)
  {
    hide Ring.Contents;
    var tx := PrimeTx(full);
    var s1 := Do(s, tx);
    var s2 := Do(s1, tx);
    var s3 := Do(s2, tx);
    t := Do(s3, tx);
    run := [tx, tx, tx, tx];
    assert Reaches(s3, [tx], t);
    assert Reaches(s2, [tx, tx], t);
    assert Reaches(s1, [tx, tx, tx], t);
  }

  lemma PrimeSends(s: State, full: bool, data: byte) returns (run: seq<Step>, t: State)
    requires s.thread == PrimeDrain(Sending(data)) && s.irq.Off? && s.q.ring.Valid()
    ensures Reaches(s, run, t) && ByPrime(run)
    ensures HasSent(s, t, data, full)
  {
    hide Ring.Contents;
    run := [PrimeTx(full)];
    t := Do(s, PrimeTx(full));
  }

  /**
   * `prime` itself hands the oldest byte to hardware that is ready: the steps of the thread alone,
   * without any interrupt, send it.
   */
  lemma PrimeSendsFirst(s: State, full: bool) returns (run: seq<Step>, t: State)
    requires Inv(s) && s.q.ring.Valid() && s.thread.PrimeTest? && s.irq.Off? && s.writable && s.q.ring.Contents() != []
    ensures Reaches(s, run, t) && ByPrime(run) && t.sent == s.sent + [s.q.ring.Contents()[0]] && t.writable == !full
  {
    CountersAgree(s.q.ring);
    PublishRemoves(s.q.ring);
    assert s.q.reader.RIdle?;
    hide *;
    var first, u := PrimeEnters(s, full);
    var second, v := PrimeGets(u, full);
    RunKeepsValid(u, second, v);
    var third;
    third, t := PrimeSends(v, full, s.q.ring.buf[s.q.ring.r]);
    ReachesMore(s, first, u, second, v);
    ReachesMore(s, first + second, v, third, t);
    run := first + second + third;
    BothByPrime(first, second);
    BothByPrime(first + second, third);
  }

  lemma {:induction false} RunKeepsValid(s: State, run: seq<Step>, t: State)
    requires s.q.ring.Valid() && ByPrime(run) && Reaches(s, run, t)
    ensures t.q.ring.Valid()
    decreases |run|
  {
    if run != [] {
      RunKeepsValid(Do(s, run[0]), run[1..], t);
    }
  }

  lemma BothByPrime(a: seq<Step>, b: seq<Step>)
    requires ByPrime(a) && ByPrime(b)
    ensures ByPrime(a + b)
  {}
}

/**
 * One thread running `putc` and one running `getc` on the same ring buffer, without any lock.
 * Each shared-memory access of the two bodies is a step of its own, and a run is any
 * interleaving of such steps.
 */
module RingProtocol {
  import opened Memory
  import opened RingBuffers

  /** Where the writer stands inside `putc(data)`. */
  datatype Writer =
    | WIdle
    | WReadW(data: byte)               // about to read `addr_w` and compute `next`
    | WCheck(data: byte, next: nat)    // about to compare `next` with `addr_r`
    | WStore(data: byte, next: nat)    // about to store into the slot at `addr_w`
    | WPublish(data: byte, next: nat)  // about to assign `addr_w`

  /** Where the reader stands inside `getc()`. */
  datatype Reader =
    | RIdle
    | RCheck               // about to compare `addr_r` with `addr_w`
    | RLoad                // about to load the slot at `addr_r`
    | RPublish(data: byte) // about to advance `addr_r`

  /** `accepted` and `delivered` record what `putc` queued and `getc` returned so far. */
  datatype State = State(ring: Ring, writer: Writer, reader: Reader,
                         accepted: seq<byte>, delivered: seq<byte>)

  datatype Step =
    | StartPut(data: byte) | ReadW | Check | Store | PublishW
    | StartGet | Compare | Load | PublishR

  function Init(size: nat, buf: seq<byte>): State
    requires |buf| == size + 1
  {
    State(Ring(buf, 0, 0), WIdle, RIdle, [], [])
  }

  predicate Enabled(s: State, step: Step) {
    s.ring.Valid() &&
    match step
    case StartPut(_) => s.writer.WIdle?
    case ReadW => s.writer.WReadW?
    case Check => s.writer.WCheck?
    case Store => s.writer.WStore?
    case PublishW => s.writer.WPublish? && s.writer.next < |s.ring.buf|
    case StartGet => s.reader.RIdle?
    case Compare => s.reader.RCheck?
    case Load => s.reader.RLoad?
    case PublishR => s.reader.RPublish?
  }

  function Do(s: State, step: Step): State
    requires Enabled(s, step)
  {
    var q := s.ring;
    match step
    case StartPut(data) => s.(writer := WReadW(data))
    case ReadW => s.(writer := WCheck(s.writer.data, q.Next(q.w)))
    case Check =>
      if s.writer.next == q.r then s.(writer := WIdle)
      else s.(writer := WStore(s.writer.data, s.writer.next))
    case Store =>
      s.(ring := q.(buf := q.buf[q.w := s.writer.data]),
         writer := WPublish(s.writer.data, s.writer.next))
    case PublishW =>
      s.(ring := q.(w := s.writer.next), writer := WIdle, accepted := s.accepted + [s.writer.data])
    case StartGet => s.(reader := RCheck)
    case Compare => s.(reader := if q.r == q.w then RIdle else RLoad)
    case Load => s.(reader := RPublish(q.buf[q.r]))
    case PublishR =>
      s.(ring := q.(r := q.Next(q.r)), reader := RIdle, delivered := s.delivered + [s.reader.data])
  }

  /** `t` is reached from `s` by the steps of `run`, in order. */
  predicate Reaches(s: State, run: seq<Step>, t: State)
    decreases |run|
  {
    if run == [] then s == t
    else Enabled(s, run[0]) && Reaches(Do(s, run[0]), run[1..], t)
  }

  /** What holds between any two steps. */
  predicate Inv(s: State) {
    var q := s.ring;
    q.Valid() &&
    s.accepted == s.delivered + q.Contents() &&
    (s.writer.WCheck? || s.writer.WStore? || s.writer.WPublish? ==> s.writer.next == q.Next(q.w)) &&
    (s.writer.WStore? || s.writer.WPublish? ==> s.writer.next != q.r) &&
    (s.writer.WPublish? ==> q.buf[q.w] == s.writer.data) &&
    (s.reader.RLoad? || s.reader.RPublish? ==> q.r != q.w) &&
    (s.reader.RPublish? ==> q.buf[q.r] == s.reader.data)
  }

  lemma WriterStepKeepsInv(s: State, step: Step)
    requires Inv(s) && Enabled(s, step)
    requires step.StartPut? || step.ReadW? || step.Check? || step.Store? || step.PublishW?
    ensures Inv(Do(s, step))
  {
    var q := s.ring;
    if step.Store? {
      PublishAppends(q, s.writer.data);
    } else if step.PublishW? {
      PublishAppends(q, s.writer.data);
      assert q.buf[q.w := s.writer.data] == q.buf;
      assert q.(buf := q.buf) == q;
    }
    hide Ring.Contents, Ring.Next;
  }

  lemma ReaderStepKeepsInv(s: State, step: Step)
    requires Inv(s) && Enabled(s, step)
    requires step.StartGet? || step.Compare? || step.Load? || step.PublishR?
    ensures Inv(Do(s, step))
  {
    if step.PublishR? {
      DeliverKeepsInv(s);
    } else {
      hide Ring.Contents, Ring.Next;
    }
  }

  lemma DeliverKeepsInv(s: State)
    requires Inv(s) && Enabled(s, PublishR)
    ensures Inv(Do(s, PublishR))
  {
    var q := s.ring;
    var rest := q.(r := q.Next(q.r));
    PublishRemoves(q);
    hide Ring.Contents;
    assert s.delivered + ([s.reader.data] + rest.Contents()) == s.delivered + [s.reader.data] + rest.Contents();
  }

  lemma StepKeepsInv(s: State, step: Step)
    requires Inv(s) && Enabled(s, step)
    ensures Inv(Do(s, step))
  {
    if step.StartGet? || step.Compare? || step.Load? || step.PublishR? {
      ReaderStepKeepsInv(s, step);
    } else {
      WriterStepKeepsInv(s, step);
    }
  }

  lemma {:induction false} RunKeepsInv(s: State, run: seq<Step>, t: State)
    requires Inv(s) && Reaches(s, run, t)
    ensures Inv(t)
    decreases |run|
  {
    if run != [] {
      StepKeepsInv(s, run[0]);
      RunKeepsInv(Do(s, run[0]), run[1..], t);
    }
  }

  /**
   * FIFO linearity. After any interleaving, what was delivered followed by what is queued is
   * what was accepted, in order; a slot being stored into is not one that is queued or about
   * to be loaded; and the two counters add up to the capacity.
   */
  lemma FifoUnderEveryInterleaving(size: nat, buf: seq<byte>, run: seq<Step>, t: State)
    requires |buf| == size + 1 && Reaches(Init(size, buf), run, t)
    ensures t.ring.Valid() && |t.ring.buf| == size + 1
    ensures t.accepted == t.delivered + t.ring.Contents()
    ensures t.writer.WStore? ==>
      t.ring.(buf := t.ring.buf[t.ring.w := t.writer.data]).Contents() == t.ring.Contents()
    ensures t.writer.WStore? && t.reader.RLoad? ==> t.ring.w != t.ring.r
    ensures t.ring.Use() + t.ring.Available() == size && t.ring.Use() == |t.accepted| - |t.delivered|
  {
    RunKeepsInv(Init(size, buf), run, t);
    RunKeepsSize(Init(size, buf), run, t);
    CountersAgree(t.ring);
    if t.writer.WStore? {
      PublishAppends(t.ring, t.writer.data);
    }
  }

  lemma {:induction false} RunKeepsSize(s: State, run: seq<Step>, t: State)
    requires Reaches(s, run, t)
    ensures |t.ring.buf| == |s.ring.buf|
    decreases |run|
  {
    if run != [] {
      RunKeepsSize(Do(s, run[0]), run[1..], t);
    }
  }

  /**
   * `putc` gives a byte up exactly when the queue is full at the moment of its check, and
   * `getc` reports "nothing" exactly when the queue is empty at the moment of its check.
   */
  lemma RefusalsAreJustified(size: nat, buf: seq<byte>, run: seq<Step>, t: State)
    requires |buf| == size + 1 && Reaches(Init(size, buf), run, t)
    ensures t.ring.Valid()
    ensures t.writer.WCheck? ==> (Do(t, Check).writer.WIdle? <==> |t.ring.Contents()| == size)
    ensures t.reader.RCheck? ==> (Do(t, Compare).reader.RIdle? <==> t.delivered == t.accepted)
  {
    RunKeepsInv(Init(size, buf), run, t);
    RunKeepsSize(Init(size, buf), run, t);
    CountersAgree(t.ring);
    if t.delivered == t.accepted {
      assert |t.ring.Contents()| == 0;
    }
  }

  // --- What is accepted ----------------------------------------------------------------------

  /** The bytes that the calls of `putc` in a run are given. */
  function PutBytes(run: seq<Step>): seq<byte> {
    if run == [] then []
    else (if run[0].StartPut? then [run[0].data] else []) + PutBytes(run[1..])
  }

  /** The byte that `putc` is working on. */
  function AtWork(w: Writer): seq<byte> {
    if w.WIdle? then [] else [w.data]
  }

  predicate FullCheck(s: State, step: Step) {
    step.Check? && s.writer.WCheck? && s.ring.Valid() && |s.ring.Contents()| == |s.ring.buf| - 1
  }

  predicate NeverFull(s: State, run: seq<Step>)
    decreases |run|
  {
    run != [] && Enabled(s, run[0]) ==> !FullCheck(s, run[0]) && NeverFull(Do(s, run[0]), run[1..])
  }

  /** Unless a check meets a full ring, every byte that is put is accepted, unchanged and in order. */
  lemma {:induction false} AcceptedAsPut(s: State, run: seq<Step>, t: State)
    requires Inv(s) && Reaches(s, run, t) && NeverFull(s, run)
    ensures t.accepted + AtWork(t.writer) == s.accepted + AtWork(s.writer) + PutBytes(run)
    decreases |run|
  {
    if run == [] {
      assert PutBytes(run) == [];
    } else {
      var u := Do(s, run[0]);
      StepKeepsInv(s, run[0]);
      AcceptedStep(s, run[0]);
      hide Inv, Enabled, Do;
      AcceptedAsPut(u, run[1..], t);
      Regrouped(s.accepted + AtWork(s.writer), if run[0].StartPut? then [run[0].data] else [], PutBytes(run[1..]));
    }
  }

  lemma AcceptedStep(s: State, step: Step)
    requires Inv(s) && Enabled(s, step) && !FullCheck(s, step)
    ensures var t := Do(s, step);
      t.accepted + AtWork(t.writer) == s.accepted + AtWork(s.writer) + if step.StartPut? then [step.data] else []
  {
    CountersAgree(s.ring);
    hide Ring.Contents;
  }

  lemma Regrouped(a: seq<byte>, b: seq<byte>, c: seq<byte>)
    ensures a + b + c == a + (b + c)
  {}

  // --- Counters read while the other side runs -----------------------------------------------

  predicate ByWriter(step: Step) {
    step.StartPut? || step.ReadW? || step.Check? || step.Store? || step.PublishW?
  }

  predicate WriterOnly(run: seq<Step>) {
    forall k :: 0 <= k < |run| ==> ByWriter(run[k])
  }

  predicate ReaderOnly(run: seq<Step>) {
    forall k :: 0 <= k < |run| ==> !ByWriter(run[k])
  }

  lemma {:induction false} WriterMovesOnlyW(s: State, more: seq<Step>, t: State)
    requires WriterOnly(more) && Reaches(s, more, t)
    ensures t.ring.r == s.ring.r && t.delivered == s.delivered && |t.ring.buf| == |s.ring.buf|
    ensures |t.accepted| >= |s.accepted|
    decreases |more|
  {
    if more != [] {
      assert ByWriter(more[0]);
      WriterMovesOnlyW(Do(s, more[0]), more[1..], t);
    }
  }

  lemma {:induction false} ReaderMovesOnlyR(s: State, more: seq<Step>, t: State)
    requires ReaderOnly(more) && Reaches(s, more, t)
    ensures t.ring.w == s.ring.w && t.accepted == s.accepted && |t.ring.buf| == |s.ring.buf|
    ensures |t.delivered| >= |s.delivered|
    decreases |more|
  {
    if more != [] {
      assert !ByWriter(more[0]);
      ReaderMovesOnlyR(Do(s, more[0]), more[1..], t);
    }
  }

  /**
   * `use()` reads `addr_w` once to choose a branch and once more to subtract. This is its result
   * when the reader calls it at `s` and the writer runs on to `t` between the two reads.
   */
  function TornUse(s: State, t: State): int {
    if s.ring.w < s.ring.r then |t.ring.buf| - (t.ring.r - t.ring.w) else t.ring.w - t.ring.r
  }

  /** The same for `available()`, called by the writer while the reader runs on. */
  function TornAvailable(s: State, t: State): int {
    if s.ring.w < s.ring.r then t.ring.r - t.ring.w - 1 else |t.ring.buf| - t.ring.w + t.ring.r - 1
  }

  /**
   * `use()` is the length at the second read exactly when the bytes queued in between do not take
   * the write index past the end of the array; otherwise it is too small by the array's length.
   */
  lemma TornUseExact(size: nat, buf: seq<byte>, run: seq<Step>, s: State, more: seq<Step>, t: State)
    requires |buf| == size + 1 && Reaches(Init(size, buf), run, s)
    requires WriterOnly(more) && Reaches(s, more, t)
    ensures t.ring.Valid()
    ensures TornUse(s, t) == |t.ring.Contents()| <==> s.ring.w + (|t.accepted| - |s.accepted|) < size + 1
    ensures TornUse(s, t) == |t.ring.Contents()| || TornUse(s, t) == |t.ring.Contents()| - (size + 1) < 0
  {
    RunKeepsInv(Init(size, buf), run, s);
    RunKeepsSize(Init(size, buf), run, s);
    RunKeepsInv(s, more, t);
    WriterMovesOnlyW(s, more, t);
    CountersAgree(s.ring);
    CountersAgree(t.ring);
    hide Reaches, Ring.Contents;
    QueueLengths(s, t);
  }

  /**
   * `available()` is the room at the second read exactly when the bytes taken in between do not
   * take the read index past the end of the array; otherwise it is too small by the array's length.
   */
  lemma TornAvailableExact(size: nat, buf: seq<byte>, run: seq<Step>, s: State, more: seq<Step>, t: State)
    requires |buf| == size + 1 && Reaches(Init(size, buf), run, s)
    requires ReaderOnly(more) && Reaches(s, more, t)
    ensures t.ring.Valid()
    ensures TornAvailable(s, t) == size - |t.ring.Contents()| <==>
      s.ring.r + (|t.delivered| - |s.delivered|) < size + 1
    ensures TornAvailable(s, t) == size - |t.ring.Contents()| ||
      TornAvailable(s, t) == size - |t.ring.Contents()| - (size + 1) < 0
  {
    RunKeepsInv(Init(size, buf), run, s);
    RunKeepsSize(Init(size, buf), run, s);
    RunKeepsInv(s, more, t);
    ReaderMovesOnlyR(s, more, t);
    CountersAgree(s.ring);
    CountersAgree(t.ring);
    hide Reaches, Ring.Contents;
    QueueLengths(s, t);
  }

  lemma QueueLengths(s: State, t: State)
    requires Inv(s) && Inv(t)
    ensures |s.accepted| == |s.delivered| + |s.ring.Contents()|
    ensures |t.accepted| == |t.delivered| + |t.ring.Contents()|
  {
    hide Ring.Contents;
  }

  // --- Undisturbed calls ----------------------------------------------------------------------

  function PutSteps(data: byte): seq<Step> {
    [StartPut(data), ReadW, Check, Store, PublishW]
  }

  const GET: seq<Step> := [StartGet, Compare, Load, PublishR]

  /** Run without interference, the steps of `putc` and of `getc` are one append, one removal. */
  lemma PutAlone(s: State, data: byte)
    requires Inv(s) && s.writer == WIdle && s.ring.Next(s.ring.w) != s.ring.r
    ensures Reaches(s, PutSteps(data),
      s.(ring := Ring(s.ring.buf[s.ring.w := data], s.ring.Next(s.ring.w), s.ring.r),
         accepted := s.accepted + [data]))
  {
    hide Ring.Contents;
    var s1 := Do(s, StartPut(data));
    var s2 := Do(s1, ReadW);
    var s3 := Do(s2, Check);
    var s4 := Do(s3, Store);
    var s5 := Do(s4, PublishW);
    assert Reaches(s4, [PublishW], s5);
    assert Reaches(s3, [Store, PublishW], s5);
    assert Reaches(s2, [Check, Store, PublishW], s5);
    assert Reaches(s1, [ReadW, Check, Store, PublishW], s5);
  }

  lemma GetAlone(s: State)
    requires Inv(s) && s.reader == RIdle && s.ring.w != s.ring.r
    ensures Reaches(s, GET,
      s.(ring := s.ring.(r := s.ring.Next(s.ring.r)), delivered := s.delivered + [s.ring.buf[s.ring.r]]))
  {
    hide Ring.Contents;
    var s1 := Do(s, StartGet);
    var s2 := Do(s1, Compare);
    var s3 := Do(s2, Load);
    var s4 := Do(s3, PublishR);
    assert Reaches(s3, [PublishR], s4);
    assert Reaches(s2, [Load, PublishR], s4);
    assert Reaches(s1, [Compare, Load, PublishR], s4);
  }

  // --- Negative counters -----------------------------------------------------------------------

  /** A buffer of three slots between two calls, with zeros in and out. */
  function Zeros(w: nat, r: nat, accepted: seq<byte>, delivered: seq<byte>): State {
    State(Ring([0, 0, 0], w, r), WIdle, RIdle, accepted, delivered)
  }

  lemma PutZero(w: nat, w': nat, r: nat, accepted: seq<byte>, delivered: seq<byte>)
    requires Inv(Zeros(w, r, accepted, delivered)) && w' == (if w < 2 then w + 1 else 0) && w' != r
    ensures Reaches(Zeros(w, r, accepted, delivered), PutSteps(0), Zeros(w', r, accepted + [0], delivered))
    ensures Inv(Zeros(w', r, accepted + [0], delivered))
  {
    var s, t := Zeros(w, r, accepted, delivered), Zeros(w', r, accepted + [0], delivered);
    assert [0, 0, 0][w := 0] == [0, 0, 0];
    hide Reaches, Ring.Contents;
    PutAlone(s, 0);
    RunKeepsInv(s, PutSteps(0), t);
  }

  lemma GetZero(w: nat, r: nat, r': nat, accepted: seq<byte>, delivered: seq<byte>)
    requires Inv(Zeros(w, r, accepted, delivered)) && r' == (if r < 2 then r + 1 else 0) && w != r
    ensures Reaches(Zeros(w, r, accepted, delivered), GET, Zeros(w, r', accepted, delivered + [0]))
    ensures Inv(Zeros(w, r', accepted, delivered + [0]))
  {
    var s, t := Zeros(w, r, accepted, delivered), Zeros(w, r', accepted, delivered + [0]);
    assert [0, 0, 0][r] == 0;
    hide Reaches, Ring.Contents;
    GetAlone(s);
    RunKeepsInv(s, GET, t);
  }

  /** Two bytes in, two bytes out: both indices are at the last slot. */
  lemma AtLastSlot() returns (run: seq<Step>, s: State)
    ensures Reaches(Init(2, [0, 0, 0]), run, s) && s == Zeros(2, 2, [0, 0], [0, 0]) && Inv(s)
  {
    var s0, s1, s2 := Zeros(0, 0, [], []), Zeros(1, 0, [0], []), Zeros(2, 0, [0, 0], []);
    var s3 := Zeros(2, 1, [0, 0], [0]);
    s := Zeros(2, 2, [0, 0], [0, 0]);
    assert [] + [0] == [0] && [0] + [0] == [0, 0];
    hide Reaches;
    PutZero(0, 1, 0, [], []);
    PutZero(1, 2, 0, [0], []);
    GetZero(2, 0, 1, [0, 0], []);
    GetZero(2, 1, 2, [0, 0], [0]);
    run := PutSteps(0) + PutSteps(0);
    ReachesTrans(s0, PutSteps(0), s1, PutSteps(0), s2);
    ReachesTrans(s0, run, s2, GET, s3);
    run := run + GET;
    ReachesTrans(s0, run, s3, GET, s);
    run := run + GET;
  }

  /** Such a wrap does happen: on a buffer of three slots the reader can be told "-2 bytes". */
  lemma TornUseCanBeNegative() returns (run: seq<Step>, s: State, more: seq<Step>, t: State)
    ensures Reaches(Init(2, [0, 0, 0]), run, s) && WriterOnly(more) && Reaches(s, more, t)
    ensures TornUse(s, t) == -2 && t.ring.Valid() && t.ring.Use() == 1
  {
    run, s := AtLastSlot();
    more, t := PutSteps(0), Zeros(0, 2, [0, 0] + [0], [0, 0]);
    PutZero(2, 0, 2, [0, 0], [0, 0]);
    hide Reaches;
  }

  /** And the writer can be told that there is room for "-1 bytes". */
  lemma TornAvailableCanBeNegative() returns (run: seq<Step>, s: State, more: seq<Step>, t: State)
    ensures Reaches(Init(2, [0, 0, 0]), run, s) && ReaderOnly(more) && Reaches(s, more, t)
    ensures TornAvailable(s, t) == -1 && t.ring.Valid() && t.ring.Available() == 2
  {
    var first, s0 := AtLastSlot();
    s := Zeros(0, 2, [0, 0] + [0], [0, 0]);
    more, t := GET, Zeros(0, 0, [0, 0] + [0], [0, 0] + [0]);
    PutZero(2, 0, 2, [0, 0], [0, 0]);
    GetZero(0, 2, 0, [0, 0] + [0], [0, 0]);
    hide Reaches;
    ReachesTrans(Init(2, [0, 0, 0]), first, s0, PutSteps(0), s);
    run := first + PutSteps(0);
  }

  lemma ReachesTrans(s: State, a: seq<Step>, t: State, b: seq<Step>, u: State)
    requires Reaches(s, a, t) && Reaches(t, b, u)
    ensures Reaches(s, a + b, u)
    decreases |a|
  {
    if a == [] {
      assert a + b == b;
    } else {
      assert (a + b)[1..] == a[1..] + b;
      ReachesTrans(Do(s, a[0]), a[1..], t, b, u);
    }
  }
}

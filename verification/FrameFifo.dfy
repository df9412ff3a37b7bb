/** The frame buffer FIFO of the video transmitter. The capture thread puts a buffer index into a ring
  * before it hands the frame to the encoder and takes it out again if the encoder refuses; the transmit
  * thread takes the oldest index out when the encoder has completed a frame. Nothing tests whether the
  * ring is full or empty.
  */
module FrameFifo {
  import opened Common

  // ---- The ring ---------------------------------------------------------------------------------

  /** The slot i places after a given one, going round once at most. */
  function Slot(from: nat, i: nat, size: nat): (slot: nat)
    requires from < size && i <= size
    ensures slot < size
  {
    if from + i < size then from + i else from + i - size
  }

  /** fifo, fifo_head and fifo_tail. */
  datatype Ring = Ring(slots: seq<int>, head: nat, tail: nat)
  {
    predicate Valid() {
      slots != [] && head < |slots| && tail < |slots|
    }

    function Push(idx: int): Ring
      requires Valid()
    {
      Ring(slots[head := idx], (head + 1) % |slots|, tail)
    }

    function Rollback(): Ring
      requires Valid()
    {
      Ring(slots, (head + |slots| - 1) % |slots|, tail)
    }

    function Popped(): int
      requires Valid()
    {
      slots[tail]
    }

    function Pop(): Ring
      requires Valid()
    {
      Ring(slots, head, (tail + 1) % |slots|)
    }

    /** From tail to head the ring lists exactly these entries. When the ring is full head == tail, just as
      * when it is empty: only the list tells the two apart. */
    ghost predicate Lists(entries: seq<int>)
      requires Valid()
    {
      && |entries| <= |slots|
      && head == Slot(tail, |entries|, |slots|)
      && forall i :: 0 <= i < |entries| ==> slots[Slot(tail, i, |slots|)] == entries[i]
    }
  }

  /** The ring as the program keeps it, each method being the critical section of one thread. */
  class Fifo {
    const fifo: array<int>
    var fifo_head: nat
    var fifo_tail: nat

    constructor (size: nat)
      requires size > 0
      ensures Valid() && fifo.Length == size && fresh(fifo)
      ensures View().Lists([])
    {
      fifo := new int[size];
      fifo_head, fifo_tail := 0, 0;
    }

    predicate Valid()
      reads this
    {
      fifo.Length > 0 && fifo_head < fifo.Length && fifo_tail < fifo.Length
    }

    function View(): (r: Ring)
      requires Valid()
      reads this, fifo
      ensures r.Valid()
    {
      Ring(fifo[..], fifo_head, fifo_tail)
    }

    method Push(idx: int)
      requires Valid()
      modifies this`fifo_head, fifo
      ensures Valid() && View() == old(View()).Push(idx)
    {
      fifo[fifo_head] := idx;
      fifo_head := (fifo_head + 1) % fifo.Length;
    }

    method Rollback()
      requires Valid()
      modifies this`fifo_head
      ensures Valid() && View() == old(View()).Rollback()
    {
      fifo_head := (fifo_head + fifo.Length - 1) % fifo.Length;
    }

    method Pop() returns (idx: int)
      requires Valid()
      modifies this`fifo_tail
      ensures Valid() && idx == old(View()).Popped() && View() == old(View()).Pop()
    {
      idx := fifo[fifo_tail];
      fifo_tail := (fifo_tail + 1) % fifo.Length;
    }
  }

  lemma Scaled(a: int, b: int, n: nat)
    requires a <= b
    ensures a * n <= b * n
  {
    assert (b - a) * n >= 0;
  }

  lemma Quotient(q: int, r: int, x: int, n: int)
    requires 0 <= r < n && x == q * n + r && 0 <= x < 2 * n
    ensures q == if x < n then 0 else 1
  {
    if q >= 2 {
      Scaled(2, q, n);
    } else if q <= -1 {
      Scaled(q, -1, n);
    }
  }

  lemma Wraps(x: nat, n: nat)
    requires 0 < n && x < 2 * n
    ensures x % n == if x < n then x else x - n
  {
    Quotient(x / n, x % n, x, n);
  }

  lemma PushLists(r: Ring, entries: seq<int>, idx: int)
    requires r.Valid() && r.Lists(entries) && |entries| < |r.slots|
    ensures r.Push(idx).Valid() && r.Push(idx).Lists(entries + [idx])
  {
    Wraps(r.head + 1, |r.slots|);
  }

  lemma RollbackLists(r: Ring, entries: seq<int>)
    requires r.Valid() && r.Lists(entries) && entries != []
    ensures r.Rollback().Valid() && r.Rollback().Lists(entries[..|entries| - 1])
  {
    Wraps(r.head + |r.slots| - 1, |r.slots|);
  }

  lemma PopLists(r: Ring, entries: seq<int>)
    requires r.Valid() && r.Lists(entries) && entries != []
    ensures r.Popped() == entries[0] && r.Pop().Valid() && r.Pop().Lists(entries[1..])
  {
    var n := |r.slots|;
    Wraps(r.tail + 1, n);
    assert r.slots[Slot(r.tail, 0, n)] == entries[0];
    forall i | 0 <= i < |entries| - 1 ensures r.slots[Slot(r.Pop().tail, i, n)] == entries[1..][i] {
      assert Slot(r.Pop().tail, i, n) == Slot(r.tail, i + 1, n);
    }
  }

  /** Pushing onto a full ring overwrites the oldest entry. */
  lemma FullPushClobbers(r: Ring, entries: seq<int>, idx: int)
    requires r.Valid() && r.Lists(entries) && |entries| == |r.slots|
    ensures r.head == r.tail && r.Push(idx).Valid() && r.Push(idx).Popped() == idx
  {
    Wraps(r.head + 1, |r.slots|);
  }

  // ---- The two threads, the camera and the encoder ----------------------------------------------

  /** Where the capture thread is in its loop, and the buffer it has in hand. */
  datatype Capture =
    | Waiting
    | Holding(idx: int)      // dequeued from the camera
    | Registered(idx: int)   // in the ring, not yet with the encoder
    | Refused(idx: int)      // the encoder would not take it
    | Withdrawn(idx: int)    // out of the ring again

  /** Where the transmit thread is; frame is the buffer the encoder really has finished with. */
  datatype Transmit =
    | Listening
    | Completed(frame: int)
    | Popped(idx: int, frame: int)

  function One(holds: bool): nat {
    if holds then 1 else 0
  }

  datatype State = State(camera: set<int>, lost: set<int>, ring: Ring, encoder: seq<int>,
                         capture: Capture, transmit: Transmit)
  {
    /** How many of the camera, the lost, the encoder and the two threads hold a buffer. */
    ghost function Owners(idx: int): nat {
      One(idx in camera) + One(idx in lost) + multiset(encoder)[idx]
      + One(!capture.Waiting? && capture.idx == idx)
      + One((transmit.Completed? && transmit.frame == idx) || (transmit.Popped? && transmit.idx == idx))
    }

    /** Every camera buffer has exactly one owner, and nothing else has any. */
    ghost predicate OwnedOnce(buffers: set<int>) {
      forall idx :: Owners(idx) == One(idx in buffers)
    }

    /** The buffers between registration and the pop, oldest first. */
    ghost function InFlight(): seq<int> {
      Leading(transmit) + encoder + Trailing(capture)
    }
  }

  ghost function Leading(transmit: Transmit): seq<int> {
    if transmit.Completed? then [transmit.frame] else []
  }

  ghost function Trailing(capture: Capture): seq<int> {
    if capture.Registered? || capture.Refused? then [capture.idx] else []
  }

  /** The camera buffers and the number of ring slots. */
  datatype Setup = Setup(buffers: set<int>, slots: nat)

  const SOURCE_SETUP := Setup({0, 1, 2, 3}, 4)

  datatype Step =
    | Dequeue(idx: int)
    | Register
    | Accept
    | Refuse
    | Withdraw
    | GiveBack(taken: bool)
    | Complete
    | PopFrame
    | Requeue(taken: bool)
    | Restart

  ghost predicate Enabled(s: State, step: Step) {
    match step
    case Dequeue(idx) => s.capture.Waiting? && idx in s.camera
    case Register => s.capture.Holding?
    case Accept => s.capture.Registered?
    case Refuse => s.capture.Registered?
    case Withdraw => s.capture.Refused?
    case GiveBack(_) => s.capture.Withdrawn?
    case Complete => s.transmit.Listening? && s.encoder != []
    case PopFrame => s.transmit.Completed?
    case Requeue(_) => s.transmit.Popped?
    case Restart => s.capture.Waiting? && s.transmit.Listening?
  }

  ghost function Start(c: Setup): (s: State)
    requires c.slots > 0
    ensures s.ring.Valid()
  {
    State(c.buffers, {}, Ring(seq(c.slots, i => 0), 0, 0), [], Waiting, Listening)
  }

  /** One step of either thread. A requeue the camera does not take loses the buffer; stopping drops what
    * the encoder holds and resets the indices, but leaves the ring's slots as they are. */
  ghost function Do(c: Setup, s: State, step: Step): (t: State)
    requires Enabled(s, step) && s.ring.Valid()
    ensures t.ring.Valid() && |t.ring.slots| == |s.ring.slots|
  {
    match step
    case Dequeue(idx) => s.(camera := s.camera - {idx}, capture := Holding(idx))
    case Register => s.(ring := s.ring.Push(s.capture.idx), capture := Registered(s.capture.idx))
    case Accept => s.(encoder := s.encoder + [s.capture.idx], capture := Waiting)
    case Refuse => s.(capture := Refused(s.capture.idx))
    case Withdraw => s.(ring := s.ring.Rollback(), capture := Withdrawn(s.capture.idx))
    case GiveBack(taken) => Return(s, s.capture.idx, taken).(capture := Waiting)
    case Complete => s.(encoder := s.encoder[1..], transmit := Completed(s.encoder[0]))
    case PopFrame => s.(ring := s.ring.Pop(), transmit := Popped(s.ring.Popped(), s.transmit.frame))
    case Requeue(taken) => Return(s, s.transmit.idx, taken).(transmit := Listening)
    case Restart => State(c.buffers, {}, Ring(s.ring.slots, 0, 0), [], Waiting, Listening)
  }

  ghost function Return(s: State, idx: int, taken: bool): (t: State)
    ensures t.ring == s.ring
  {
    if taken then s.(camera := s.camera + {idx}) else s.(lost := s.lost + {idx})
  }

  ghost predicate Possible(c: Setup, steps: seq<Step>)
    requires c.slots > 0
    decreases |steps|, 0
  {
    steps == [] || (Possible(c, steps[..|steps| - 1])
                    && Enabled(After(c, steps[..|steps| - 1]), steps[|steps| - 1]))
  }

  /** The state a run leads to. */
  ghost function After(c: Setup, steps: seq<Step>): (s: State)
    requires c.slots > 0 && Possible(c, steps)
    ensures s.ring.Valid() && |s.ring.slots| == c.slots
    decreases |steps|, 1
  {
    if steps == [] then Start(c) else Do(c, After(c, steps[..|steps| - 1]), steps[|steps| - 1])
  }

  /** Each buffer has one owner, the ring lists what is in flight, and what was popped is the buffer the
    * encoder has finished with. */
  ghost predicate Safe(c: Setup, s: State)
    requires s.ring.Valid()
  {
    && s.OwnedOnce(c.buffers)
    && s.ring.Lists(s.InFlight())
    && RightBuffer(s)
  }

  ghost predicate RightBuffer(s: State) {
    s.transmit.Popped? ==> s.transmit.idx == s.transmit.frame
  }

  lemma FlightFits(c: Setup, s: State)
    requires s.OwnedOnce(c.buffers)
    ensures |s.InFlight()| <= |c.buffers|
    ensures s.capture.Holding? ==> |s.InFlight()| < |c.buffers|
  {
    var held := if s.capture.Holding? then [s.capture.idx] else [];
    forall idx ensures multiset(s.InFlight() + held)[idx] <= multiset(c.buffers)[idx] {
      assert s.Owners(idx) == One(idx in c.buffers);
      FlightOwned(s, idx);
      if s.capture.Holding? {
        CountOne(s.capture.idx, idx);
      }
      CountTwo(s.InFlight(), held, idx);
    }
    Fewer(multiset(s.InFlight() + held), multiset(c.buffers));
  }

  lemma FlightOwned(s: State, idx: int)
    ensures multiset(s.InFlight())[idx] + One(s.capture.Holding? && s.capture.idx == idx) <= s.Owners(idx)
  {
    CountTwo(Leading(s.transmit) + s.encoder, Trailing(s.capture), idx);
    CountTwo(Leading(s.transmit), s.encoder, idx);
    if s.transmit.Completed? {
      CountOne(s.transmit.frame, idx);
    }
    if !s.capture.Waiting? {
      CountOne(s.capture.idx, idx);
    }
  }

  lemma CountTwo(a: seq<int>, b: seq<int>, idx: int)
    ensures multiset(a + b)[idx] == multiset(a)[idx] + multiset(b)[idx]
  {
  }

  lemma CountOne(x: int, idx: int)
    ensures multiset([x])[idx] == One(x == idx)
  {
  }

  lemma Fewer(a: multiset<int>, b: multiset<int>)
    requires a <= b
    ensures |a| <= |b|
  {
    assert b == a + (b - a);
  }

  predicate ByCapture(step: Step) {
    step.Dequeue? || step.Register? || step.Refuse? || step.Withdraw? || step.GiveBack?
  }

  /** The steps of the capture thread between the camera and itself. */
  lemma CaptureKeeps(c: Setup, s: State, step: Step, idx: int)
    requires s.ring.Valid() && s.Owners(idx) <= 1 && Enabled(s, step) && ByCapture(step)
    ensures Do(c, s, step).Owners(idx) == s.Owners(idx)
  {
  }

  /** The encoder takes a buffer, or hands the oldest one on. */
  lemma EncoderKeeps(c: Setup, s: State, step: Step, idx: int)
    requires s.ring.Valid() && Enabled(s, step) && (step.Accept? || step.Complete?)
    ensures Do(c, s, step).Owners(idx) == s.Owners(idx)
  {
    if step.Complete? {
      assert s.encoder == [s.encoder[0]] + s.encoder[1..];
      CountTwo([s.encoder[0]], s.encoder[1..], idx);
      CountOne(s.encoder[0], idx);
    } else {
      CountTwo(s.encoder, [s.capture.idx], idx);
      CountOne(s.capture.idx, idx);
    }
  }

  lemma OwnersKept(c: Setup, s: State, step: Step, idx: int)
    requires s.ring.Valid() && s.OwnedOnce(c.buffers) && Enabled(s, step) && !step.Restart?
    requires step.PopFrame? ==> s.ring.Popped() == s.transmit.frame
    ensures Do(c, s, step).Owners(idx) == s.Owners(idx)
  {
    assert s.Owners(idx) <= 1;
    if ByCapture(step) {
      CaptureKeeps(c, s, step, idx);
    } else if step.Accept? || step.Complete? {
      EncoderKeeps(c, s, step, idx);
    }
  }

  /** A step that leaves the ring alone leaves what is in flight as it is. */
  lemma FlightKept(c: Setup, s: State, step: Step)
    requires s.ring.Valid() && Enabled(s, step)
    requires !step.Register? && !step.Withdraw? && !step.PopFrame? && !step.Restart?
    ensures Do(c, s, step).InFlight() == s.InFlight() && Do(c, s, step).ring == s.ring
  {
    if step.Complete? {
      assert s.encoder == [s.encoder[0]] + s.encoder[1..];
    }
  }

  /** The steps that change the ring do to what is in flight what they do to the ring. */
  lemma FlightChanged(c: Setup, s: State, step: Step)
    requires s.ring.Valid() && Enabled(s, step)
    requires step.Register? || step.Withdraw? || step.PopFrame?
    ensures var t, flight := Do(c, s, step).InFlight(), s.InFlight();
            && (step.Register? ==> t == flight + [s.capture.idx])
            && (step.Withdraw? ==> flight != [] && t == flight[..|flight| - 1])
            && (step.PopFrame? ==> flight != [] && flight[0] == s.transmit.frame && t == flight[1..])
  {
  }

  lemma RingSafe(c: Setup, s: State, step: Step)
    requires s.ring.Valid() && |s.ring.slots| == c.slots && |c.buffers| <= c.slots
    requires Safe(c, s) && Enabled(s, step)
    ensures Do(c, s, step).ring.Lists(Do(c, s, step).InFlight())
    ensures step.PopFrame? ==> s.ring.Popped() == s.transmit.frame
  {
    if step.Register? {
      FlightChanged(c, s, step);
      FlightFits(c, s);
      PushLists(s.ring, s.InFlight(), s.capture.idx);
    } else if step.Withdraw? {
      FlightChanged(c, s, step);
      RollbackLists(s.ring, s.InFlight());
    } else if step.PopFrame? {
      FlightChanged(c, s, step);
      PopLists(s.ring, s.InFlight());
    } else if step != Restart {
      FlightKept(c, s, step);
    }
  }

  lemma StepSafe(c: Setup, s: State, step: Step)
    requires s.ring.Valid() && |s.ring.slots| == c.slots && |c.buffers| <= c.slots
    requires Safe(c, s) && Enabled(s, step)
    ensures Safe(c, Do(c, s, step))
  {
    RingSafe(c, s, step);
    if step != Restart {
      forall idx ensures Do(c, s, step).Owners(idx) == One(idx in c.buffers) {
        OwnersKept(c, s, step, idx);
      }
    }
  }

  /** With no more buffers than ring slots every run, however the threads interleave and whatever the
    * encoder and the camera answer, keeps each buffer with one owner and pops the completed one. */
  lemma {:induction false} EveryRunSafe(c: Setup, steps: seq<Step>)
    requires 0 < c.slots && |c.buffers| <= c.slots && Possible(c, steps)
    ensures Safe(c, After(c, steps))
    decreases |steps|
  {
    if steps != [] {
      var before := steps[..|steps| - 1];
      EveryRunSafe(c, before);
      StepSafe(c, After(c, before), steps[|steps| - 1]);
    }
  }

  // ---- One buffer too many ----------------------------------------------------------------------

  lemma Extend(c: Setup, steps: seq<Step>, step: Step) returns (longer: seq<Step>)
    requires c.slots > 0 && Possible(c, steps) && Enabled(After(c, steps), step)
    ensures Possible(c, longer) && After(c, longer) == Do(c, After(c, steps), step) && |longer| == |steps| + 1
  {
    longer := steps + [step];
    assert longer[..|longer| - 1] == steps;
  }

  /** The capture thread takes one more buffer and the encoder accepts it. */
  lemma Feed(c: Setup, steps: seq<Step>, idx: int) returns (longer: seq<Step>)
    requires c.slots > 0 && Possible(c, steps)
    requires After(c, steps).capture.Waiting? && idx in After(c, steps).camera
    ensures Possible(c, longer)
    ensures var s := After(c, steps);
            After(c, longer) == s.(camera := s.camera - {idx}, ring := s.ring.Push(idx), encoder := s.encoder + [idx])
  {
    longer := Extend(c, steps, Dequeue(idx));
    longer := Extend(c, longer, Register);
    longer := Extend(c, longer, Accept);
  }

  /** The encoder takes k buffers before it completes any. */
  lemma {:induction false} Fill(c: Setup, k: nat) returns (steps: seq<Step>)
    requires 0 < c.slots && k <= c.slots < |c.buffers|
    ensures Possible(c, steps)
    ensures var s := After(c, steps);
            && s.capture.Waiting? && s.transmit.Listening?
            && |s.encoder| == k && |s.camera| + k == |c.buffers|
            && s.ring.Lists(s.encoder)
            && forall i :: 0 <= i < k ==> s.encoder[i] !in s.camera
  {
    if k == 0 {
      steps := [];
    } else {
      var fewer := Fill(c, k - 1);
      var s := After(c, fewer);
      var idx := Member(s.camera);
      steps := Feed(c, fewer, idx);
      PushLists(s.ring, s.encoder, idx);
    }
  }

  lemma CompleteAndPop(c: Setup, steps: seq<Step>) returns (longer: seq<Step>)
    requires c.slots > 0 && Possible(c, steps)
    requires After(c, steps).transmit.Listening? && After(c, steps).encoder != []
    ensures Possible(c, longer)
    ensures var s, t := After(c, steps), After(c, longer);
            t.transmit == Popped(s.ring.Popped(), s.encoder[0]) && t.encoder == s.encoder[1..]
  {
    longer := Extend(c, steps, Complete);
    longer := Extend(c, longer, PopFrame);
  }

  /** With one buffer more than the ring has slots, the encoder can complete a frame and the transmit
    * thread give a different buffer, one the encoder still reads, back to the camera. */
  lemma Overrun(c: Setup) returns (steps: seq<Step>)
    requires 0 < c.slots < |c.buffers|
    ensures Possible(c, steps) && !RightBuffer(After(c, steps))
    ensures After(c, steps).transmit.idx in After(c, steps).encoder
  {
    var full := Fill(c, c.slots);
    var s := After(c, full);
    var idx := Member(s.camera);
    steps := Feed(c, full, idx);
    FullPushClobbers(s.ring, s.encoder, idx);
    var frame := s.encoder[0];
    assert idx != frame;
    assert (s.encoder + [idx])[1..][|s.encoder| - 1] == idx;
    steps := CompleteAndPop(c, steps);
  }

  /** The exact condition: the popped buffer is always the completed one iff the ring has a slot for every
    * buffer. */
  lemma SafeIffRoomForAll(c: Setup)
    requires c.slots > 0
    ensures (forall steps | Possible(c, steps) :: RightBuffer(After(c, steps))) <==> |c.buffers| <= c.slots
  {
    if |c.buffers| <= c.slots {
      forall steps | Possible(c, steps) ensures RightBuffer(After(c, steps)) {
        EveryRunSafe(c, steps);
      }
    } else {
      var steps := Overrun(c);
      assert Possible(c, steps) && !RightBuffer(After(c, steps));
    }
  }

  // ---- Every buffer finds its way back ----------------------------------------------------------

  function CaptureSteps(capture: Capture): nat {
    match capture
    case Waiting => 0
    case Holding(_) => 4
    case Registered(_) => 3
    case Refused(_) => 2
    case Withdrawn(_) => 1
  }

  function TransmitSteps(transmit: Transmit): nat {
    match transmit
    case Listening => 0
    case Completed(_) => 2
    case Popped(_, _) => 1
  }

  /** The steps until nothing is under way any more, when nothing more is taken from the camera. */
  ghost function StepsHome(s: State): nat {
    3 * |s.encoder| + CaptureSteps(s.capture) + TransmitSteps(s.transmit)
  }

  /** The next of them; the encoder refuses what is offered to it. */
  ghost function HomeStep(s: State): (step: Step)
    requires StepsHome(s) > 0
    ensures Enabled(s, step)
  {
    match s.capture
    case Holding(_) => Register
    case Registered(_) => Refuse
    case Refused(_) => Withdraw
    case Withdrawn(_) => GiveBack(true)
    case Waiting =>
      match s.transmit
      case Completed(_) => PopFrame
      case Popped(_, _) => Requeue(true)
      case Listening => Complete
  }

  /** Every run with room for all buffers can go on until nothing is in the ring or with the encoder; then each
    * buffer that the camera did not reject is with the camera again. */
  lemma {:induction false} AllComeHome(c: Setup, steps: seq<Step>) returns (longer: seq<Step>)
    requires 0 < c.slots && |c.buffers| <= c.slots && Possible(c, steps)
    ensures Possible(c, longer) && |longer| == |steps| + StepsHome(After(c, steps))
    ensures var t := After(c, longer);
            && t.camera == c.buffers - t.lost && t.lost == After(c, steps).lost
            && t.encoder == [] && t.InFlight() == [] && t.capture.Waiting? && t.transmit.Listening?
    decreases StepsHome(After(c, steps))
  {
    var s := After(c, steps);
    EveryRunSafe(c, steps);
    if StepsHome(s) == 0 {
      longer := steps;
      forall idx ensures idx in s.camera <==> idx in c.buffers - s.lost {
        assert s.Owners(idx) == One(idx in c.buffers);
      }
    } else {
      longer := Extend(c, steps, HomeStep(s));
      longer := AllComeHome(c, longer);
    }
  }

  /** The program's own numbers: four buffers, four slots. */
  lemma SourceIsSafe(steps: seq<Step>)
    requires Possible(SOURCE_SETUP, steps)
    ensures Safe(SOURCE_SETUP, After(SOURCE_SETUP, steps))
  {
    EveryRunSafe(SOURCE_SETUP, steps);
  }

  // ---- Writing a frame to the USB endpoint ------------------------------------------------------

  const TX_BUFFER_SIZE: nat := 256 * 1024

  /** What a write of the rest of the buffer comes back with. */
  datatype Answer = Wrote(n: nat) | Interrupted | Busy(ready: bool) | Broken

  /** What goes to the endpoint: a message whose length is a multiple of 512 gets one trailing zero, so that
    * the transfer always ends with a short packet. */
  function Padded(message: seq<bv8>): (r: seq<bv8>)
    ensures message <= r && |r| % 512 != 0
  {
    if |message| % 512 == 0 then message + [0] else message
  }

  /** memcpy of the headers and the slice to the start of the buffer, and the padding. */
  method FillBuffer(buf: array<bv8>, header: seq<bv8>, slice: seq<bv8>) returns (total: nat)
    requires |header| + |slice| <= buf.Length - 2
    modifies buf
    ensures total < buf.Length && buf[..total] == Padded(header + slice)
  {
    total := |header| + |slice|;
    forall i | 0 <= i < |header| {
      buf[i] := header[i];
    }
    forall i | 0 <= i < |slice| {
      buf[|header| + i] := slice[i];
    }
    assert buf[..total] == header + slice;
    if total % 512 == 0 {
      buf[total] := 0;
      total := total + 1;
    }
  }

  /** The write loop. */
  method WriteOut(data: seq<bv8>, answers: seq<Answer>) returns (code: int, sent: seq<bv8>)
    ensures sent <= data && (code == -1 || code == |sent|)
    ensures code == -1 ==> sent != data
  {
    sent := [];
    var written, turn := 0, 0;
    while written < |data| && turn < |answers|
      invariant written <= |data| && sent == data[..written]
    {
      var answer := answers[turn];
      turn := turn + 1;
      match answer
      case Wrote(n) =>
        var taken := if n <= |data| - written then n else |data| - written;
        sent := sent + data[written..written + taken];
        written := written + taken;
      case Interrupted =>
      case Busy(ready) =>
        if !ready {
          return -1, sent;
        }
      case Broken =>
        return -1, sent;
    }
    code := written;
  }

  /** Each answer belongs to one turn of the loop; the threads are stopped after the last one. What the
    * endpoint has taken is always a beginning of the padded message, and the return value is its length, or
    * -1 when the rest is dropped. */
  method BulkWriteFrame(buf: array<bv8>, isOpen: bool, header: seq<bv8>, slice: seq<bv8>, answers: seq<Answer>)
      returns (code: int, sent: seq<bv8>)
    requires buf.Length == TX_BUFFER_SIZE
    modifies buf
    ensures sent <= Padded(header + slice)
    ensures code == -1 || code == |sent|
    ensures code == -1 ==> sent != Padded(header + slice)
    ensures !isOpen || slice == [] ==> code == 0 && sent == [] && buf[..] == old(buf[..])
    ensures isOpen && slice != [] && |header| + |slice| > TX_BUFFER_SIZE - 2 ==> code == -1 && sent == []
    ensures code > 0 ==> |Padded(header + slice)| < TX_BUFFER_SIZE
  {
    if !isOpen || slice == [] {
      return 0, [];
    }
    if |header| + |slice| > buf.Length - 2 {
      return -1, [];
    }
    var total := FillBuffer(buf, header, slice);
    code, sent := WriteOut(buf[..total], answers);
  }
}

/**
 The ring with its producer and its consumer running at the same time, one shared load or
 store per step.  Either side may stop for good at any step, and a fresh one take its place.
 */
module RingSteps {
  import opened Words
  import opened SpscRing

  /** Progress of plc_spsc_push_flagged: the cursor it read and how many stores it has made. */
  datatype Producer =
    | PIdle
    | PHead(frame: Frame, head: uint32)
    | PWriting(frame: Frame, head: uint32, stores: nat)

  /** Progress of plc_spsc_pop and plc_spsc_drain, with the frame copied out so far. */
  datatype Consumer =
    | CIdle
    | CTail(cap: nat, tail: uint32)
    | CReading(cap: nat, tail: uint32, loads: nat, copy: Slot)
    | CDraining(head: uint32)

  datatype State = State(head: uint32, tail: uint32, slots: seq<Slot>, producer: Producer, consumer: Consumer)

  datatype Action =
    | PushCall(frame: Frame)   // load head
    | CheckRoom                // load tail
    | Store                    // one field or payload byte of the slot
    | Publish                  // store head
    | PopCall(cap: nat)        // load tail
    | CheckFrame               // load head
    | Load                     // one field or payload byte of the slot
    | Retire                   // store tail
    | DrainCall                // load head
    | DrainStore               // store tail
    | ProducerStops
    | ConsumerStops

  predicate ValidFrame(f: Frame) {
    f.Frame? && |f.data| <= MAX_FRAME_BYTES
  }

  /** Seqno, length and flags, then the payload byte by byte. */
  function StoreField(slot: Slot, f: Frame, k: nat): (r: Slot)
    requires WellSized(slot) && ValidFrame(f) && k < 3 + |f.data|
    ensures WellSized(r)
  {
    if k == 0 then slot.(seqno := f.seqno)
    else if k == 1 then slot.(len := |f.data|)
    else if k == 2 then slot.(flags := f.flags)
    else slot.(data := slot.data[k - 3 := f.data[k - 3]])
  }

  /** How many loads a pop makes of a slot holding `len`. */
  function Loads(len: uint32, cap: nat): nat {
    if len > MAX_FRAME_BYTES then 3 else 3 + Min(len, cap)
  }

  function LoadField(copy: Slot, slot: Slot, k: nat): Slot
    requires WellSized(slot) && k < 3 + MAX_FRAME_BYTES
  {
    if k == 0 then copy.(seqno := slot.seqno)
    else if k == 1 then copy.(len := slot.len)
    else if k == 2 then copy.(flags := slot.flags)
    else copy.(data := copy.data + [slot.data[k - 3]])
  }

  predicate Enabled(s: State, a: Action) {
    match a
    case PushCall(f) => s.producer.PIdle? && ValidFrame(f)
    case CheckRoom => s.producer.PHead?
    case Store =>
      s.producer.PWriting? && ValidFrame(s.producer.frame) && s.producer.stores < 3 + |s.producer.frame.data|
    case Publish =>
      s.producer.PWriting? && ValidFrame(s.producer.frame) && s.producer.stores == 3 + |s.producer.frame.data|
    case PopCall(cap) => s.consumer.CIdle? && cap <= MAX_FRAME_BYTES
    case CheckFrame => s.consumer.CTail?
    case Load =>
      s.consumer.CReading? && s.consumer.loads < 3 + MAX_FRAME_BYTES
      && (s.consumer.loads < 3 || s.consumer.loads < Loads(s.consumer.copy.len, s.consumer.cap))
    case Retire => s.consumer.CReading? && s.consumer.loads >= 3
                   && s.consumer.loads == Loads(s.consumer.copy.len, s.consumer.cap)
    case DrainCall => s.consumer.CIdle?
    case DrainStore => s.consumer.CDraining?
    case ProducerStops => true
    case ConsumerStops => true
  }

  function Apply(s: State, a: Action): State
    requires Memory(s.slots) && Enabled(s, a)
  {
    match a
    case PushCall(f) => s.(producer := PHead(f, s.head))
    case CheckRoom =>
      if Distance(s.producer.head, s.tail) >= SLOTS then s.(producer := PIdle)
      else s.(producer := PWriting(s.producer.frame, s.producer.head, 0))
    case Store =>
      var PWriting(f, h, k) := s.producer;
      var i := Index(h, 0);
      s.(slots := s.slots[i := StoreField(s.slots[i], f, k)], producer := PWriting(f, h, k + 1))
    case Publish => s.(head := Low32(s.producer.head + 1), producer := PIdle)
    case PopCall(cap) => s.(consumer := CTail(cap, s.tail))
    case CheckFrame =>
      if s.consumer.tail == s.head then s.(consumer := CIdle)
      else s.(consumer := CReading(s.consumer.cap, s.consumer.tail, 0, Slot(0, 0, 0, [])))
    case Load =>
      var CReading(cap, t, k, copy) := s.consumer;
      s.(consumer := CReading(cap, t, k + 1, LoadField(copy, s.slots[Index(t, 0)], k)))
    case Retire => s.(tail := Low32(s.consumer.tail + 1), consumer := CIdle)
    case DrainCall => s.(consumer := CDraining(s.head))
    case DrainStore => s.(tail := s.consumer.head, consumer := CIdle)
    case ProducerStops => s.(producer := PIdle)
    case ConsumerStops => s.(consumer := CIdle)
  }

  /** Either cursor value is a possible start: the ring does not depend on having begun at zero. */
  predicate Init(s: State) {
    s.head == s.tail && Memory(s.slots) && s.producer == PIdle && s.consumer == CIdle
  }

  // ---------------------------------------------------------------- refinement of a FIFO

  /** The queue as the consumer can see it. */
  function Queue(s: State): seq<Frame>
    requires Memory(s.slots)
  {
    Window(s.slots, s.tail, Distance(s.head, s.tail))
  }

  /** What the retired copy amounts to. */
  function Result(c: Consumer): Frame
    requires c.CReading?
  {
    if c.copy.len > MAX_FRAME_BYTES then Malformed else Frame(c.copy.seqno, c.copy.flags, c.copy.data)
  }

  /** The first `k` stores of `f` have reached the slot. */
  predicate Stored(slot: Slot, f: Frame, k: nat) {
    && WellSized(slot) && ValidFrame(f) && k <= 3 + |f.data|
    && (k >= 1 ==> slot.seqno == f.seqno)
    && (k >= 2 ==> slot.len == |f.data|)
    && (k >= 3 ==> slot.flags == f.flags && slot.data[..k - 3] == f.data[..k - 3])
  }

  /** The first `k` loads of the slot have reached the copy. */
  predicate Loaded(copy: Slot, slot: Slot, cap: nat, k: nat) {
    && WellSized(slot)
    && (k >= 1 ==> copy.seqno == slot.seqno)
    && (k >= 2 ==> copy.len == slot.len)
    && (k >= 3 ==> copy.flags == slot.flags && k <= Loads(slot.len, cap) && copy.data == slot.data[..k - 3])
    && (k < 3 ==> copy.data == [])
  }

  ghost predicate Inv(s: State) {
    && Memory(s.slots) && Distance(s.head, s.tail) <= SLOTS
    && (match s.producer
        case PIdle => true
        case PHead(f, h) => h == s.head && ValidFrame(f)
        case PWriting(f, h, k) =>
          h == s.head && Distance(s.head, s.tail) < SLOTS && Stored(s.slots[Index(h, 0)], f, k))
    && (match s.consumer
        case CIdle => true
        case CTail(cap, t) => t == s.tail && cap <= MAX_FRAME_BYTES
        case CReading(cap, t, k, copy) =>
          t == s.tail && cap <= MAX_FRAME_BYTES && Distance(s.head, s.tail) > 0
          && Loaded(copy, s.slots[Index(t, 0)], cap, k)
        case CDraining(h) => Distance(h, s.tail) <= Distance(s.head, s.tail))
  }

  /** The queue step an action stands for: one push, one pop, one drain, or nothing at all. */
  ghost predicate Refines(s: State, a: Action, t: State)
    requires Memory(s.slots) && Memory(t.slots)
  {
    match a
    case Publish => s.producer.PWriting? && |Queue(s)| < SLOTS && Queue(t) == Queue(s) + [s.producer.frame]
    case Retire =>
      s.consumer.CReading? && |Queue(s)| > 0 && Queue(t) == Queue(s)[1..]
      && Result(s.consumer) == Clamped(Queue(s)[0], s.consumer.cap)
    case DrainStore =>
      s.consumer.CDraining? && var k := Distance(s.consumer.head, s.tail); k <= |Queue(s)| && Queue(t) == Queue(s)[k..]
    case CheckRoom => Queue(t) == Queue(s) && (t.producer.PIdle? <==> |Queue(s)| == SLOTS)
    case CheckFrame => Queue(t) == Queue(s) && (t.consumer.CIdle? <==> Queue(s) == [])
    case _ => Queue(t) == Queue(s)
  }

  lemma StepRefines(s: State, a: Action)
    requires Inv(s) && Enabled(s, a)
    ensures Inv(Apply(s, a)) && Refines(s, a, Apply(s, a))
  {
    hide Inv, Refines, Enabled, Apply;
    match a
    case Store => StoreRefines(s);
    case Publish => PublishRefines(s);
    case Load => LoadRefines(s);
    case Retire => RetireRefines(s);
    case DrainStore => DrainRefines(s);
    case _ => CursorStepRefines(s, a);
  }

  /** The other steps only read a cursor or end a call. */
  lemma CursorStepRefines(s: State, a: Action)
    requires Inv(s) && Enabled(s, a) && !a.Store? && !a.Publish? && !a.Load? && !a.Retire? && !a.DrainStore?
    ensures Inv(Apply(s, a)) && Refines(s, a, Apply(s, a))
  {
    hide Window, Index, Meaning;
    EmptyIsEqual(s.head, s.tail);
  }

  lemma EmptyIsEqual(head: uint32, tail: uint32)
    ensures head == tail <==> Distance(head, tail) == 0
  {}

  lemma StoreRefines(s: State)
    requires Inv(s) && Enabled(s, Store)
    ensures Inv(Apply(s, Store)) && Refines(s, Store, Apply(s, Store))
  {
    var PWriting(f, h, k) := s.producer;
    var i := Index(h, 0);
    var slot := StoreField(s.slots[i], f, k);
    WriteKeepsWindow(s.slots, s.head, s.tail, slot);
    HeadIndex(s.head, s.tail);
    if k >= 3 {
      assert slot.data[..k - 2] == slot.data[..k - 3] + [slot.data[k - 3]];
      assert f.data[..k - 2] == f.data[..k - 3] + [f.data[k - 3]];
    }
    assert s.consumer.CReading? ==> Index(s.tail, 0) != i;
  }

  lemma PublishRefines(s: State)
    requires Inv(s) && Enabled(s, Publish)
    ensures Inv(Apply(s, Publish)) && Refines(s, Publish, Apply(s, Publish))
  {
    PublishGrowsWindow(s.slots, s.head, s.tail);
    var f := s.producer.frame;
    assert f.data[..|f.data|] == f.data;
  }

  lemma LoadRefines(s: State)
    requires Inv(s) && Enabled(s, Load)
    ensures Inv(Apply(s, Load)) && Refines(s, Load, Apply(s, Load))
  {}

  lemma RetireRefines(s: State)
    requires Inv(s) && Enabled(s, Retire)
    ensures Inv(Apply(s, Retire)) && Refines(s, Retire, Apply(s, Retire))
  {
    var n := Distance(s.head, s.tail);
    DistanceAfterRetire(s.head, s.tail, 1);
    RetireShrinksWindow(s.slots, s.tail, n, 1);
    var slot := s.slots[Index(s.tail, 0)];
    assert Queue(s)[0] == Meaning(slot);
  }

  lemma DrainRefines(s: State)
    requires Inv(s) && Enabled(s, DrainStore)
    ensures Inv(Apply(s, DrainStore)) && Refines(s, DrainStore, Apply(s, DrainStore))
  {
    var n, h := Distance(s.head, s.tail), s.consumer.head;
    var k := Distance(h, s.tail);
    HeadIsDistanceFromTail(h, s.tail);
    DistanceAfterRetire(s.head, s.tail, k);
    RetireShrinksWindow(s.slots, s.tail, n, k);
  }

  // ---------------------------------------------------------------- whole runs

  ghost predicate IsRun(states: seq<State>, acts: seq<Action>) {
    && |states| == |acts| + 1
    && Init(states[0])
    && forall i :: 0 <= i < |acts| ==> StepAt(states, acts, i)
  }

  ghost predicate StepAt(states: seq<State>, acts: seq<Action>, i: int)
    requires 0 <= i < |acts| < |states|
  {
    Memory(states[i].slots) && Enabled(states[i], acts[i]) && states[i + 1] == Apply(states[i], acts[i])
  }

  /** The frames published in the first `n` steps, in order. */
  function Pushed(states: seq<State>, acts: seq<Action>, n: nat): seq<Frame>
    requires n <= |acts| < |states|
  {
    if n == 0 then []
    else Pushed(states, acts, n - 1) + Pushes(states[n - 1], acts[n - 1])
  }

  /** How many frames one step takes out of the queue. */
  function Removes(s: State, a: Action): nat {
    if a.Retire? then 1
    else if a.DrainStore? && s.consumer.CDraining? then Distance(s.consumer.head, s.tail) else 0
  }

  function Removed(states: seq<State>, acts: seq<Action>, n: nat): nat
    requires n <= |acts| < |states|
  {
    if n == 0 then 0 else Removed(states, acts, n - 1) + Removes(states[n - 1], acts[n - 1])
  }

  /** The queue is always what was published less what was removed: a FIFO of at most four frames. */
  lemma {:induction false} QueueIsFifo(states: seq<State>, acts: seq<Action>, n: nat)
    requires IsRun(states, acts) && n <= |acts|
    ensures Inv(states[n]) && |Queue(states[n])| <= SLOTS
    ensures Removed(states, acts, n) <= |Pushed(states, acts, n)|
    ensures Queue(states[n]) == Pushed(states, acts, n)[Removed(states, acts, n)..]
    ensures forall i :: 0 <= i < |Pushed(states, acts, n)| ==> ValidFrame(Pushed(states, acts, n)[i])
  {
    hide Inv, Apply, Enabled, Queue, Removes, Pushes, Memory, ValidFrame, Init;
    if n == 0 {
      EmptyAtFirst(states[0]);
    } else {
      var s, a := states[n - 1], acts[n - 1];
      assert StepAt(states, acts, n - 1);
      QueueIsFifo(states, acts, n - 1);
      FifoStep(s, a, Pushed(states, acts, n - 1), Removed(states, acts, n - 1));
    }
  }

  lemma EmptyAtFirst(s: State)
    requires Init(s)
    ensures Inv(s) && Queue(s) == []
  {}

  /** The frame one step publishes, if it does. */
  function Pushes(s: State, a: Action): seq<Frame> {
    if a.Publish? && s.producer.PWriting? then [s.producer.frame] else []
  }

  lemma FifoStep(s: State, a: Action, pushed: seq<Frame>, removed: nat)
    requires Inv(s) && Enabled(s, a) && removed <= |pushed| && Queue(s) == pushed[removed..]
    ensures Inv(Apply(s, a)) && |Queue(Apply(s, a))| <= SLOTS
    ensures removed + Removes(s, a) <= |pushed| + |Pushes(s, a)|
    ensures Queue(Apply(s, a)) == (pushed + Pushes(s, a))[removed + Removes(s, a)..]
    ensures forall i :: 0 <= i < |Pushes(s, a)| ==> ValidFrame(Pushes(s, a)[i])
  {
    StepRefines(s, a);
    var t := Apply(s, a);
    assert |Queue(t)| <= SLOTS;
    hide Inv, Apply, Queue, ValidFrame;
    assert pushed + [] == pushed;
  }

  /**
   The frame a pop returns is the next one published, whole up to the room the caller has: none
   torn, lost, repeated or out of order, at every pair of cursor values.
   */
  lemma PopReturnsNextPushed(states: seq<State>, acts: seq<Action>, n: nat)
    requires IsRun(states, acts) && n < |acts| && acts[n].Retire?
    ensures var k := Removed(states, acts, n);
            && states[n].consumer.CReading? && k < |Pushed(states, acts, n)|
            && Result(states[n].consumer) == Clamped(Pushed(states, acts, n)[k], states[n].consumer.cap)
            && Result(states[n].consumer).Frame?
            && (var got, f := Result(states[n].consumer), Pushed(states, acts, n)[k];
                && got.seqno == f.seqno && got.flags == f.flags
                && got.data == f.data[..Min(|f.data|, states[n].consumer.cap)])
            && Removed(states, acts, n + 1) == k + 1
  {
    QueueIsFifo(states, acts, n);
    assert StepAt(states, acts, n);
    StepRefines(states[n], acts[n]);
  }
}

/** The single-producer single-consumer frame ring, as called from one side at a time. */
module SpscRing {
  import opened Words
  import opened Statuses

  /** A slot as it lies in shared memory: the peer may have put anything into `len`. */
  datatype Slot = Slot(seqno: uint32, len: uint32, flags: uint32, data: seq<byte>)

  /** What a slot means: the frame published in it, or one whose length is impossible. */
  datatype Frame = Frame(seqno: uint32, flags: uint32, data: seq<byte>) | Malformed

  const BLANK := Slot(0, 0, 0, Zeros(MAX_FRAME_BYTES))

  predicate WellSized(slot: Slot) {
    |slot.data| == MAX_FRAME_BYTES
  }

  function Meaning(slot: Slot): Frame
    requires WellSized(slot)
  {
    if slot.len > MAX_FRAME_BYTES then Malformed else Frame(slot.seqno, slot.flags, slot.data[..slot.len])
  }

  /** What pop hands out of a frame when the caller has room for `cap` bytes. */
  function Clamped(f: Frame, cap: nat): Frame {
    if f.Malformed? then f else f.(data := f.data[..Min(|f.data|, cap)])
  }

  /** Frames between the cursors, which run freely modulo 2^32. */
  function Distance(head: uint32, tail: uint32): nat {
    (head - tail) % TWO32
  }

  predicate Memory(slots: seq<Slot>) {
    |slots| == SLOTS && forall i :: 0 <= i < SLOTS ==> WellSized(slots[i])
  }

  /** The slot `i` frames behind cursor `c`. */
  function Index(c: uint32, i: nat): (k: nat)
    ensures k < SLOTS
  {
    (c + i) % SLOTS
  }

  /** Slots are a power of two, so a cursor may wrap without losing its slot. */
  lemma IndexAcrossWrap(c: uint32, k: nat, i: nat)
    ensures Index(Low32(c + k), i) == Index(c, k + i)
  {}

  /** The `n` frames queued from cursor `tail` on. */
  function Window(slots: seq<Slot>, tail: uint32, n: nat): (w: seq<Frame>)
    requires Memory(slots)
    ensures |w| == n
  {
    seq(n, i requires 0 <= i => Meaning(slots[Index(tail, i)]))
  }

  lemma HeadIsDistanceFromTail(head: uint32, tail: uint32)
    ensures Low32(tail + Distance(head, tail)) == head
  {}

  /** `head` is the cursor behind the newest frame, whatever has wrapped. */
  lemma HeadIndex(head: uint32, tail: uint32)
    ensures Index(tail, Distance(head, tail)) == Index(head, 0)
  {}

  lemma DistanceAfterPublish(head: uint32, tail: uint32)
    requires Distance(head, tail) < SLOTS
    ensures Distance(Low32(head + 1), tail) == Distance(head, tail) + 1
  {}

  /** Writing the slot behind fewer than four frames leaves the queue alone. */
  lemma WriteKeepsWindow(slots: seq<Slot>, head: uint32, tail: uint32, slot: Slot)
    requires Memory(slots) && WellSized(slot) && Distance(head, tail) < SLOTS
    ensures Window(slots[Index(head, 0) := slot], tail, Distance(head, tail))
         == Window(slots, tail, Distance(head, tail))
  {}

  /** Advancing `head` publishes exactly the frame in the slot it passes. */
  lemma PublishGrowsWindow(slots: seq<Slot>, head: uint32, tail: uint32)
    requires Memory(slots) && Distance(head, tail) < SLOTS
    ensures Distance(Low32(head + 1), tail) == Distance(head, tail) + 1
    ensures Window(slots, tail, Distance(head, tail) + 1)
         == Window(slots, tail, Distance(head, tail)) + [Meaning(slots[Index(head, 0)])]
  {
    HeadIndex(head, tail);
    DistanceAfterPublish(head, tail);
  }

  lemma DistanceAfterRetire(head: uint32, tail: uint32, k: nat)
    requires k <= Distance(head, tail)
    ensures Distance(head, Low32(tail + k)) == Distance(head, tail) - k
  {}

  /** Advancing `tail` by `k` retires exactly the `k` oldest frames. */
  lemma RetireShrinksWindow(slots: seq<Slot>, tail: uint32, n: nat, k: nat)
    requires Memory(slots) && k <= n
    ensures Window(slots, Low32(tail + k), n - k) == Window(slots, tail, n)[k..]
  {}

  class Ring {
    var head: uint32
    var tail: uint32
    const slots: array<Slot>

    ghost predicate Valid()
      reads this, slots
    {
      && slots.Length == SLOTS && Memory(slots[..])
      && Distance(head, tail) <= SLOTS
    }

    ghost function Contents(): seq<Frame>
      requires Valid()
      reads this, slots
    {
      Window(slots[..], tail, Distance(head, tail))
    }

    constructor ()
      ensures Valid() && Contents() == [] && fresh(slots)
    {
      head, tail := 0, 0;
      slots := new Slot[SLOTS](_ => BLANK);
    }

    method Push(seqno: uint32, flags: uint32, data: seq<byte>) returns (st: Status)
      requires Valid()
      modifies this`head, slots
      ensures Valid()
      ensures st == if |data| > MAX_FRAME_BYTES then ErrInval
                    else if |old(Contents())| == SLOTS then ErrAgain else Ok
      ensures Contents() == old(Contents()) + if st.Ok? then [Frame(seqno, flags, data)] else []
    {
      if |data| > MAX_FRAME_BYTES {
        return ErrInval;
      }
      if Distance(head, tail) >= SLOTS {
        return ErrAgain;
      }
      var i := Index(head, 0);
      var slot := Slot(seqno, |data|, flags, data + slots[i].data[|data|..]);
      WriteKeepsWindow(slots[..], head, tail, slot);
      slots[i] := slot;
      assert slots[..] == old(slots[..])[i := slot];
      PublishGrowsWindow(slots[..], head, tail);
      head := Low32(head + 1);
      return Ok;
    }

    method Pop(cap: nat) returns (st: Status, out: Frame)
      requires Valid()
      modifies this`tail
      ensures Valid()
      ensures st == if cap > MAX_FRAME_BYTES then ErrInval
                    else if old(Contents()) == [] then ErrAgain
                    else if old(Contents())[0].Malformed? then ErrProto else Ok
      ensures Contents() == if st.Ok? || st.ErrProto? then old(Contents())[1..] else old(Contents())
      ensures st.Ok? ==> out == Clamped(old(Contents())[0], cap)
      ensures st.Ok? ==>
                var f := old(Contents())[0];
                && out.Frame? && out.seqno == f.seqno && out.flags == f.flags
                && out.data == f.data[..Min(|f.data|, cap)]
    {
      out := Malformed;
      if cap > MAX_FRAME_BYTES {
        return ErrInval, out;
      }
      if tail == head {
        return ErrAgain, out;
      }
      DistanceAfterRetire(head, tail, 1);
      RetireShrinksWindow(slots[..], tail, Distance(head, tail), 1);
      var slot := slots[Index(tail, 0)];
      tail := Low32(tail + 1);
      if slot.len > MAX_FRAME_BYTES {
        return ErrProto, out;
      }
      return Ok, Frame(slot.seqno, slot.flags, slot.data[..Min(slot.len, cap)]);
    }

    method Count() returns (n: nat)
      requires Valid()
      ensures n == |Contents()|
    {
      n := Distance(head, tail);
    }

    method Drain()
      requires Valid()
      modifies this`tail
      ensures Valid() && Contents() == []
    {
      tail := head;
    }
  }
}

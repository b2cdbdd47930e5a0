/**
 The wait for a reply inside one exchange, against a peer that may do anything: `rounds` is what
 the clock, the doorbell and the response ring show each time round the loop.
 */
module ReplyWait {
  import opened Words

  datatype Wake = Woke | TimedOut | WaitError

  /** What one pop finds; a round ends when the ring is empty. */
  datatype Popped = Got(seqno: uint32, invalid: bool, data: seq<byte>) | BadFrame

  /** One time round the outer loop: the clock, the doorbell wait, and the frames then popped. */
  datatype Round = Round(now: nat, wake: Wake, frames: seq<Popped>)

  datatype Verdict = Reply(frame: Popped) | Expired | Failed(io: bool) | Undecided

  predicate Late(f: Popped, seqno: uint32) {
    f.Got? && Behind32(f.seqno, seqno)
  }

  /** What the first frame that is not late decides. */
  function InRound(frames: seq<Popped>, seqno: uint32): Verdict {
    if frames == [] then Undecided
    else if Late(frames[0], seqno) then InRound(frames[1..], seqno)
    else if frames[0].Got? && frames[0].seqno == seqno then Reply(frames[0])
    else Failed(false)
  }

  /** What one round decides on its own. */
  function Decides(r: Round, seqno: uint32, deadline: nat): Verdict {
    if r.now >= deadline || r.wake.TimedOut? then Expired
    else if r.wake.WaitError? then Failed(true)
    else InRound(r.frames, seqno)
  }

  /** What the first round that decides anything decides; none left means the budget is spent. */
  function Await(rounds: seq<Round>, seqno: uint32, deadline: nat): Verdict {
    if rounds == [] then Expired
    else if Decides(rounds[0], seqno, deadline).Undecided? then Await(rounds[1..], seqno, deadline)
    else Decides(rounds[0], seqno, deadline)
  }

  /** A reply is what the first frame that is not late turns out to be. */
  lemma {:induction false} InRoundIsFirstNotLate(frames: seq<Popped>, seqno: uint32, j: nat)
    requires j <= |frames| && (forall k :: 0 <= k < j ==> Late(frames[k], seqno))
    requires j < |frames| ==> !Late(frames[j], seqno)
    ensures InRound(frames, seqno) ==
            if j == |frames| then Undecided
            else if frames[j].Got? && frames[j].seqno == seqno then Reply(frames[j]) else Failed(false)
  {
    if j > 0 {
      InRoundIsFirstNotLate(frames[1..], seqno, j - 1);
    }
  }

  lemma {:induction false} AwaitIsFirstDecision(rounds: seq<Round>, seqno: uint32, deadline: nat, i: nat)
    requires i <= |rounds| && (forall k :: 0 <= k < i ==> Decides(rounds[k], seqno, deadline).Undecided?)
    requires i < |rounds| ==> !Decides(rounds[i], seqno, deadline).Undecided?
    ensures Await(rounds, seqno, deadline) == if i == |rounds| then Expired else Decides(rounds[i], seqno, deadline)
  {
    if i > 0 {
      AwaitIsFirstDecision(rounds[1..], seqno, deadline, i - 1);
    }
  }

  /**
   A reply is accepted exactly when its frame carries the own sequence number, was popped before the
   deadline, and everything popped before it was late.
   */
  lemma ReplyAccepted(rounds: seq<Round>, seqno: uint32, deadline: nat, i: nat, j: nat)
    requires i < |rounds| && j < |rounds[i].frames|
    requires forall k :: 0 <= k <= i ==> rounds[k].now < deadline && rounds[k].wake.Woke?
    requires forall k, l :: 0 <= k < i && 0 <= l < |rounds[k].frames| ==> Late(rounds[k].frames[l], seqno)
    requires forall l :: 0 <= l < j ==> Late(rounds[i].frames[l], seqno)
    requires !Late(rounds[i].frames[j], seqno)
    ensures var f := rounds[i].frames[j];
            Await(rounds, seqno, deadline) == if f.Got? && f.seqno == seqno then Reply(f) else Failed(false)
  {
    forall k | 0 <= k < i
      ensures Decides(rounds[k], seqno, deadline).Undecided?
    {
      InRoundIsFirstNotLate(rounds[k].frames, seqno, |rounds[k].frames|);
    }
    InRoundIsFirstNotLate(rounds[i].frames, seqno, j);
    AwaitIsFirstDecision(rounds, seqno, deadline, i);
  }

  // ---------------------------------------------------------------- the verdict, read off the rounds

  /** A frame is late exactly if its number is 1 to 2^31 behind the awaited one modulo 2^32. */
  lemma LateExactly(f: Popped, seqno: uint32)
    ensures Late(f, seqno) <==> f.Got? && 1 <= (seqno - f.seqno) % 0x1_0000_0000 <= 0x8000_0000
  {
    if f.Got? {
      SignedDiffOfCounters(f.seqno, seqno);
      Mod32Is(f.seqno, 0, f.seqno);
      Mod32Is(seqno, 0, seqno);
    }
  }

  /** The first `i` rounds woke in time and showed late frames only. */
  predicate Passed(rounds: seq<Round>, seqno: uint32, deadline: nat, i: int)
    requires 0 <= i <= |rounds|
  {
    forall k :: 0 <= k < i ==>
                  && rounds[k].now < deadline && rounds[k].wake.Woke?
                  && forall l :: 0 <= l < |rounds[k].frames| ==> Late(rounds[k].frames[l], seqno)
  }

  /** Then the budget is found spent, or the wait times out, or nothing more happens. */
  predicate OutAt(rounds: seq<Round>, seqno: uint32, deadline: nat, i: int)
    requires 0 <= i <= |rounds|
  {
    Passed(rounds, seqno, deadline, i) && (i == |rounds| || rounds[i].now >= deadline || rounds[i].wake.TimedOut?)
  }

  /** Then the wait itself fails. */
  predicate BrokenAt(rounds: seq<Round>, seqno: uint32, deadline: nat, i: int)
    requires 0 <= i < |rounds|
  {
    Passed(rounds, seqno, deadline, i) && rounds[i].now < deadline && rounds[i].wake.WaitError?
  }

  /** Then frame `j` is the first one that is not late. */
  predicate FrameAt(rounds: seq<Round>, seqno: uint32, deadline: nat, i: int, j: int)
    requires 0 <= i < |rounds| && 0 <= j < |rounds[i].frames|
  {
    && Passed(rounds, seqno, deadline, i) && rounds[i].now < deadline && rounds[i].wake.Woke?
    && (forall l :: 0 <= l < j ==> Late(rounds[i].frames[l], seqno))
    && !Late(rounds[i].frames[j], seqno)
  }

  ghost predicate RunsOut(rounds: seq<Round>, seqno: uint32, deadline: nat) {
    exists i :: 0 <= i <= |rounds| && OutAt(rounds, seqno, deadline, i)
  }

  ghost predicate Breaks(rounds: seq<Round>, seqno: uint32, deadline: nat) {
    exists i :: 0 <= i < |rounds| && BrokenAt(rounds, seqno, deadline, i)
  }

  /** The first frame that is not late, in a round that woke in time, is `f`. */
  ghost predicate Brings(rounds: seq<Round>, seqno: uint32, deadline: nat, f: Popped) {
    exists i, j :: 0 <= i < |rounds| && 0 <= j < |rounds[i].frames| && FrameAt(rounds, seqno, deadline, i, j)
                   && rounds[i].frames[j] == f
  }

  /** It carries the awaited number. */
  ghost predicate Answers(rounds: seq<Round>, seqno: uint32, deadline: nat, f: Popped) {
    Brings(rounds, seqno, deadline, f) && f.Got? && f.seqno == seqno
  }

  /** It is malformed or carries another number. */
  ghost predicate Misfits(rounds: seq<Round>, seqno: uint32, deadline: nat) {
    exists f :: Brings(rounds, seqno, deadline, f) && (f.BadFrame? || f.seqno != seqno)
  }

  lemma {:induction false} FirstNotLate(frames: seq<Popped>, seqno: uint32) returns (j: nat)
    ensures j <= |frames| && (forall l :: 0 <= l < j ==> Late(frames[l], seqno))
    ensures j < |frames| ==> !Late(frames[j], seqno)
  {
    if frames == [] || !Late(frames[0], seqno) {
      j := 0;
    } else {
      var k := FirstNotLate(frames[1..], seqno);
      j := k + 1;
      assert forall l :: 1 <= l < j ==> frames[l] == frames[1..][l - 1];
    }
  }

  lemma PassedUndecided(rounds: seq<Round>, seqno: uint32, deadline: nat, i: int)
    requires 0 <= i <= |rounds| && Passed(rounds, seqno, deadline, i)
    ensures forall k :: 0 <= k < i ==> Decides(rounds[k], seqno, deadline).Undecided?
  {
    forall k | 0 <= k < i
      ensures Decides(rounds[k], seqno, deadline).Undecided?
    {
      InRoundIsFirstNotLate(rounds[k].frames, seqno, |rounds[k].frames|);
    }
  }

  lemma OutMeansExpired(rounds: seq<Round>, seqno: uint32, deadline: nat, i: int)
    requires 0 <= i <= |rounds| && OutAt(rounds, seqno, deadline, i)
    ensures Await(rounds, seqno, deadline) == Expired
  {
    PassedUndecided(rounds, seqno, deadline, i);
    AwaitIsFirstDecision(rounds, seqno, deadline, i);
  }

  lemma BrokenMeansFailed(rounds: seq<Round>, seqno: uint32, deadline: nat, i: int)
    requires 0 <= i < |rounds| && BrokenAt(rounds, seqno, deadline, i)
    ensures Await(rounds, seqno, deadline) == Failed(true)
  {
    PassedUndecided(rounds, seqno, deadline, i);
    AwaitIsFirstDecision(rounds, seqno, deadline, i);
  }

  lemma FrameDecides(rounds: seq<Round>, seqno: uint32, deadline: nat, i: int, j: int)
    requires 0 <= i < |rounds| && 0 <= j < |rounds[i].frames| && FrameAt(rounds, seqno, deadline, i, j)
    ensures var f := rounds[i].frames[j];
            Await(rounds, seqno, deadline) == if f.Got? && f.seqno == seqno then Reply(f) else Failed(false)
  {
    ReplyAccepted(rounds, seqno, deadline, i, j);
  }

  /** Some round ends the wait, or they all pass. */
  lemma {:induction false} SomethingHappens(rounds: seq<Round>, seqno: uint32, deadline: nat, i: int)
    requires 0 <= i <= |rounds| && Passed(rounds, seqno, deadline, i)
    ensures RunsOut(rounds, seqno, deadline) || Breaks(rounds, seqno, deadline)
            || exists f :: Brings(rounds, seqno, deadline, f)
    decreases |rounds| - i
  {
    if i == |rounds| || rounds[i].now >= deadline || rounds[i].wake.TimedOut? {
      assert OutAt(rounds, seqno, deadline, i);
    } else if rounds[i].wake.WaitError? {
      assert BrokenAt(rounds, seqno, deadline, i);
    } else {
      var j := FirstNotLate(rounds[i].frames, seqno);
      if j < |rounds[i].frames| {
        assert FrameAt(rounds, seqno, deadline, i, j);
        assert Brings(rounds, seqno, deadline, rounds[i].frames[j]);
      } else {
        SomethingHappens(rounds, seqno, deadline, i + 1);
      }
    }
  }

  lemma BringsDecides(rounds: seq<Round>, seqno: uint32, deadline: nat, f: Popped)
    requires Brings(rounds, seqno, deadline, f)
    ensures Await(rounds, seqno, deadline) == if f.Got? && f.seqno == seqno then Reply(f) else Failed(false)
  {
    var i, j :| 0 <= i < |rounds| && 0 <= j < |rounds[i].frames| && FrameAt(rounds, seqno, deadline, i, j)
                && rounds[i].frames[j] == f;
    FrameDecides(rounds, seqno, deadline, i, j);
  }

  /** The verdict of the wait, each way it can end read off the rounds. */
  lemma AwaitExactly(rounds: seq<Round>, seqno: uint32, deadline: nat)
    ensures var v := Await(rounds, seqno, deadline);
            && (v == Expired <==> RunsOut(rounds, seqno, deadline))
            && (v == Failed(true) <==> Breaks(rounds, seqno, deadline))
            && (v == Failed(false) <==> Misfits(rounds, seqno, deadline))
            && (forall f :: v == Reply(f) <==> Answers(rounds, seqno, deadline, f))
            && (v.Reply? || v.Expired? || v.Failed?)
  {
    hide Await;
    forall f | Brings(rounds, seqno, deadline, f)
      ensures Await(rounds, seqno, deadline) == if f.Got? && f.seqno == seqno then Reply(f) else Failed(false)
    {
      BringsDecides(rounds, seqno, deadline, f);
    }
    forall i | 0 <= i <= |rounds| && OutAt(rounds, seqno, deadline, i)
      ensures Await(rounds, seqno, deadline) == Expired
    {
      OutMeansExpired(rounds, seqno, deadline, i);
    }
    forall i | 0 <= i < |rounds| && BrokenAt(rounds, seqno, deadline, i)
      ensures Await(rounds, seqno, deadline) == Failed(true)
    {
      BrokenMeansFailed(rounds, seqno, deadline, i);
    }
    SomethingHappens(rounds, seqno, deadline, 0);
    hide Brings, OutAt, BrokenAt;
  }

  /**
   proxy_exchange's nested loop. `waits` are the doorbell waits issued, as start and timeout: one in
   each round begun in time, until a round decides; each ends at the deadline, never past it.
   */
  method AwaitReply(t0: nat, budget: nat, seqno: uint32, rounds: seq<Round>)
    returns (v: Verdict, waits: seq<(nat, nat)>)
    requires forall k :: 0 <= k < |rounds| ==> t0 <= rounds[k].now
    ensures v == Await(rounds, seqno, t0 + budget) && !v.Undecided?
    ensures |waits| <= |rounds|
    ensures forall k :: 0 <= k < |waits| ==>
              waits[k].0 == rounds[k].now && waits[k].1 > 0 && waits[k].0 + waits[k].1 == t0 + budget
    ensures forall k :: 0 <= k < |waits| - 1 ==> Decides(rounds[k], seqno, t0 + budget).Undecided?
    ensures |waits| < |rounds| && (|waits| == 0 || Decides(rounds[|waits| - 1], seqno, t0 + budget).Undecided?) ==>
              rounds[|waits|].now >= t0 + budget
  {
    var i := 0;
    waits := [];
    while i < |rounds|
      invariant i <= |rounds|
      invariant Await(rounds, seqno, t0 + budget) == Await(rounds[i..], seqno, t0 + budget)
      invariant |waits| == i && forall k :: 0 <= k < i ==> Decides(rounds[k], seqno, t0 + budget).Undecided?
      invariant forall k :: 0 <= k < i ==>
                  waits[k].0 == rounds[k].now && waits[k].1 > 0 && waits[k].0 + waits[k].1 == t0 + budget
    {
      var spent := rounds[i].now - t0;
      if spent >= budget {
        return Expired, waits;
      }
      waits := waits + [(rounds[i].now, budget - spent)];
      if rounds[i].wake.TimedOut? {
        return Expired, waits;
      }
      if rounds[i].wake.WaitError? {
        return Failed(true), waits;
      }
      var frames, j := rounds[i].frames, 0;
      while j < |frames|
        invariant j <= |frames| && InRound(frames, seqno) == InRound(frames[j..], seqno)
      {
        if frames[j].BadFrame? {
          return Failed(false), waits;
        }
        if !Late(frames[j], seqno) {
          return if frames[j].seqno == seqno then Reply(frames[j]) else Failed(false), waits;
        }
        assert frames[j..][1..] == frames[j + 1..];
        j := j + 1;
      }
      assert rounds[i..][1..] == rounds[i + 1..];
      i := i + 1;
    }
    return Expired, waits;
  }
}

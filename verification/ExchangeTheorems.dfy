/** What holds of every run of the exchange protocol in module Exchange. */
module ExchangeTheorems {
  import opened Words
  import opened Exchange
  import opened MirrorBackend

  // ---------------------------------------------------------------- sequence matching

  /** The action accepts a reply: the core pops a frame carrying its sequence number. */
  ghost predicate Accepts(s: State, a: Action) {
    Enabled(s, a) && a.Pop? && s.rsp != [] && Matches(s.rsp[0], s.calls)
  }

  /** Calls begun after the one a frame belongs to. */
  function Age(s: State, f: Frame): int {
    s.calls - f.num
  }

  /** The fate of a popped frame depends on its age alone, and wraps at 2^32. */
  lemma FrameFate(s: State, f: Frame)
    ensures Matches(f, s.calls) <==> Age(s, f) % TWO32 == 0
    ensures Late(f, s.calls) <==> 1 <= Age(s, f) % TWO32 <= TWO31
  {
    SignedDiffOfCounters(f.num, s.calls);
    MatchIsNoDifference(Seq(f), Low32(s.calls));
    assert Low32(s.calls - f.num) == Age(s, f) % TWO32;
    hide Low32, SignedDiff32;
  }

  lemma MatchIsNoDifference(a: uint32, b: uint32)
    ensures a == b <==> SignedDiff32(a, b) == 0
  {}

  /**
   A reply is accepted only by the call that asked for it, exactly as long as its request is
   less than 2^32 calls old; accepting it leaves nothing queued on either side.
   */
  lemma AcceptedReplyIsOwn(states: seq<State>, acts: seq<Action>, i: nat)
    requires IsRun(states, acts) && i < |acts| && Accepts(states[i], acts[i])
    ensures var s, f := states[i], states[i].rsp[0];
            && 0 <= Age(s, f)
            && (f.num == s.calls <==> Age(s, f) < TWO32)
            && (f.num == s.calls ==>
                  && f.num in s.served && s.served[f.num] == f
                  && Pending(states[i + 1]) == [] && states[i + 1].misses == 0)
  {
    var s, f := states[i], states[i].rsp[0];
    RunStep(states, acts, i);
    InvOnRun(states, acts, i);
    FrameFate(s, f);
    assert IsReply(s, f);
    if f.num == s.calls {
      assert s.taken == s.calls && Held(s.adapter) == [];
      ChainTail(s.rsp, s.lastMatch, s.taken);
      ChainLength(s.rsp[1..], s.calls, s.taken);
      ChainLength(s.req, s.taken, Newest(s));
    }
  }

  /** A foreign reply is counted exactly when the accepted frame is not the call's own. */
  lemma ForeignStep(s: State, a: Action)
    requires Enabled(s, a)
    ensures Apply(s, a).foreign == s.foreign + if Accepts(s, a) && s.rsp[0].num != s.calls then 1 else 0
  {
    if a.Pop? && s.rsp != [] {
      FrameFate(s, s.rsp[0]);
    }
    hide Late, Matches;
  }

  /** No call has been handed another call's reply exactly if every accepted reply was young. */
  lemma {:induction false} NoForeignReply(states: seq<State>, acts: seq<Action>, k: nat)
    requires IsRun(states, acts) && k <= |acts|
    ensures states[k].foreign == 0 <==>
            forall i :: 0 <= i < k && Accepts(states[i], acts[i]) ==> Age(states[i], states[i].rsp[0]) < TWO32
  {
    if k > 0 {
      hide Accepts, Apply, Enabled, IsRun, Pending;
      RunStep(states, acts, k - 1);
      NoForeignReply(states, acts, k - 1);
      ForeignStep(states[k - 1], acts[k - 1]);
      if Accepts(states[k - 1], acts[k - 1]) {
        AcceptedReplyIsOwn(states, acts, k - 1);
      }
    }
  }

  // ---------------------------------------------------------------- what the caller can see of it

  /** A queued reply is no older than the calls that failed since the last answer, the current one included. */
  lemma AgeWithinMisses(states: seq<State>, acts: seq<Action>, i: nat)
    requires IsRun(states, acts) && i <= |acts| && states[i].foreign == 0
    requires states[i].core.Popping? && states[i].rsp != []
    ensures 0 <= Age(states[i], states[i].rsp[0]) <= states[i].misses
  {
    InvOnRun(states, acts, i);
  }

  /** After fewer than 2^32 failed calls in a row, a reply that is accepted is the call's own. */
  lemma OwnAfterFewMisses(states: seq<State>, acts: seq<Action>, i: nat)
    requires IsRun(states, acts) && i < |acts| && Accepts(states[i], acts[i])
    requires states[i].foreign == 0 && states[i].misses < TWO32
    ensures states[i].rsp[0].num == states[i].calls
  {
    AgeWithinMisses(states, acts, i);
    AcceptedReplyIsOwn(states, acts, i);
    hide IsRun, Pending, Accepts;
  }

  /** Every reply accepted before step `k` was accepted after at most `bound` failed calls in a row. */
  ghost predicate MissesWithin(states: seq<State>, acts: seq<Action>, k: nat, bound: nat)
    requires IsRun(states, acts) && k <= |acts|
  {
    forall i :: 0 <= i < k && Accepts(states[i], acts[i]) ==> states[i].misses <= bound
  }

  /** With fewer than 2^32 failed calls before each answer, every accepted reply is the call's own. */
  lemma {:induction false} FewMissesNoForeign(states: seq<State>, acts: seq<Action>, k: nat)
    requires IsRun(states, acts) && k <= |acts| && MissesWithin(states, acts, k, TWO32 - 1)
    ensures states[k].foreign == 0
    ensures forall i :: 0 <= i < k && Accepts(states[i], acts[i]) ==> states[i].rsp[0].num == states[i].calls
  {
    if k > 0 {
      var s, a := states[k - 1], acts[k - 1];
      hide Accepts, Apply, Enabled, IsRun;
      RunStep(states, acts, k - 1);
      FewMissesNoForeign(states, acts, k - 1);
      ForeignStep(s, a);
      if Accepts(s, a) {
        OwnAfterFewMisses(states, acts, k - 1);
      }
    }
  }

  /** Only beginning a call counts it and records its outputs. */
  lemma CallsStep(s: State, a: Action)
    requires Enabled(s, a)
    ensures var t := Apply(s, a);
            && t.calls == s.calls + (if a.Begin? then 1 else 0)
            && t.sent == s.sent + if a.Begin? then [a.out] else []
  {
    hide Late, Matches;
  }

  lemma StepGrows(s: State, a: Action)
    requires Enabled(s, a)
    ensures s.calls <= Apply(s, a).calls && s.foreign <= Apply(s, a).foreign
  {
    hide Late, Matches;
  }

  lemma {:induction false} CountersGrow(states: seq<State>, acts: seq<Action>, i: nat, k: nat)
    requires IsRun(states, acts) && i <= k <= |acts|
    ensures states[i].calls <= states[k].calls && states[i].foreign <= states[k].foreign
    decreases k
  {
    if i < k {
      CountersGrow(states, acts, i, k - 1);
      RunStep(states, acts, k - 1);
      StepGrows(states[k - 1], acts[k - 1]);
      hide Apply, Enabled, IsRun;
    }
  }

  /** Before the first foreign reply, no answer comes after more failed calls than there were calls. */
  lemma MissesWithinCalls(states: seq<State>, acts: seq<Action>, k: nat, bound: nat)
    requires IsRun(states, acts) && k <= |acts| && states[k].foreign == 0 && states[k].calls <= bound + 1
    ensures MissesWithin(states, acts, k, bound)
  {
    forall i | 0 <= i < k && Accepts(states[i], acts[i])
      ensures states[i].misses <= bound
    {
      CountersGrow(states, acts, i, k);
      InvOnRun(states, acts, i);
    }
  }

  /**
   While the frame at hand is at most 2^31 calls old, popping it either drops it and goes on, or
   is the own match: the sequence-mismatch branch is dead.
   */
  lemma YoungFrameNeverMismatches(states: seq<State>, acts: seq<Action>, i: nat)
    requires IsRun(states, acts) && i < |acts| && acts[i].Pop? && states[i].rsp != []
    requires Age(states[i], states[i].rsp[0]) <= TWO31
    ensures var s, t := states[i], states[i + 1];
            if s.rsp[0].num < s.calls then t == s.(rsp := s.rsp[1..])
            else t.core.Idle? && t.lastMatch == s.calls && t.misses == 0 && t.foreign == s.foreign
  {
    RunStep(states, acts, i);
    InvOnRun(states, acts, i);
    FrameFate(states[i], states[i].rsp[0]);
  }

  /** The same in what the caller can see: it holds after at most 2^31 failed calls in a row. */
  lemma FewMissesNeverMismatch(states: seq<State>, acts: seq<Action>, i: nat)
    requires IsRun(states, acts) && i < |acts| && acts[i].Pop? && states[i].rsp != []
    requires states[i].foreign == 0 && states[i].misses <= TWO31
    ensures var s, t := states[i], states[i + 1];
            if s.rsp[0].num < s.calls then t == s.(rsp := s.rsp[1..])
            else t.core.Idle? && t.lastMatch == s.calls && t.misses == 0 && t.foreign == s.foreign
  {
    RunStep(states, acts, i);
    AgeWithinMisses(states, acts, i);
    YoungFrameNeverMismatches(states, acts, i);
  }

  // ---------------------------------------------------------------- one reply per request

  lemma {:induction false} ServedGrows(states: seq<State>, acts: seq<Action>, i: nat, j: nat, n: nat)
    requires IsRun(states, acts) && i <= j <= |acts| && n in states[i].served
    ensures n in states[j].served
    decreases j
  {
    if i < j {
      RunStep(states, acts, j - 1);
      ServedGrows(states, acts, i, j - 1, n);
    }
  }

  /** Requests are served in order and at most once each, across every crash and restart. */
  lemma ServedOnceInOrder(states: seq<State>, acts: seq<Action>, i: nat, j: nat)
    requires IsRun(states, acts) && i < j < |acts| && acts[i].Serve? && acts[j].Serve?
    ensures states[i].adapter.Holding? && states[j].adapter.Holding?
    ensures states[i].adapter.req.num < states[j].adapter.req.num
  {
    RunStep(states, acts, i);
    RunStep(states, acts, j);
    var n := states[i].adapter.req.num;
    assert n in states[i + 1].served;
    ServedGrows(states, acts, i + 1, j, n);
    InvOnRun(states, acts, j);
    assert IsRequest(states[j], states[j].adapter.req);
  }

  // ---------------------------------------------------------------- backlog

  lemma {:induction false} ChainLength(fs: seq<Frame>, lo: nat, hi: nat)
    requires Chain(fs, lo, hi) && lo <= hi
    ensures |fs| <= hi - lo
  {
    if fs != [] {
      ChainTail(fs, lo, hi);
      ChainLength(fs[1..], fs[0].num, hi);
    }
  }

  /**
   Requests outstanding exceed the calls missed since the last match by at most the call under
   way, so neither ring is found full before four calls in a row have failed.
   */
  lemma BacklogNeedsMisses(states: seq<State>, acts: seq<Action>, i: nat)
    requires IsRun(states, acts) && i <= |acts| && states[i].foreign == 0
    ensures |Pending(states[i])| <= states[i].misses + 1
    ensures i < |acts| && acts[i].PushRequest? && |states[i].req| == SLOTS ==> states[i].misses >= 4
    ensures i < |acts| && acts[i].PushReply? && |states[i].rsp| == SLOTS ==> states[i].misses >= 4
  {
    if i < |acts| {
      RunStep(states, acts, i);
    }
    var s := states[i];
    InvOnRun(states, acts, i);
    ChainLength(s.req, s.taken, Newest(s));
    if Held(s.adapter) == [] {
      ChainLength(s.rsp, s.lastMatch, s.taken);
    } else {
      ChainLength(s.rsp, s.lastMatch, s.taken - 1);
    }
  }

  // ---------------------------------------------------------------- no stranded reply

  lemma {:induction false} LostMeansDiedBeforePost(states: seq<State>, acts: seq<Action>, i: nat, n: nat)
    requires IsRun(states, acts) && i <= |acts|
    ensures n in states[i].lost <==>
            exists k :: 0 <= k < i && acts[k] == Crash && states[k].adapter == Answered(n)
  {
    if i > 0 {
      hide IsRun, Apply, Enabled;
      LostMeansDiedBeforePost(states, acts, i - 1, n);
      RunStep(states, acts, i - 1);
      LostStep(states[i - 1], acts[i - 1], n);
    }
  }

  lemma LostStep(s: State, a: Action, n: nat)
    requires Enabled(s, a)
    ensures n in Apply(s, a).lost <==> n in s.lost || (a == Crash && s.adapter == Answered(n))
  {
    hide Late, Matches;
  }

  /**
   While the core waits, the reply to its own request sits in the ring only with a wake-up
   pending, with the adapter about to post it, or with the adapter having died before posting.
   */
  lemma NoStrandedReply(states: seq<State>, acts: seq<Action>, i: nat)
    requires IsRun(states, acts) && i <= |acts|
    requires states[i].core.Waiting? && HasOwnReply(states[i])
    ensures var s := states[i];
            || s.rspPosts > 0
            || s.adapter == Answered(s.calls)
            || exists k :: 0 <= k < i && acts[k] == Crash && states[k].adapter == Answered(s.calls)
  {
    InvOnRun(states, acts, i);
    LostMeansDiedBeforePost(states, acts, i, states[i].calls);
  }

  // ---------------------------------------------------------------- the wait loop is bounded

  predicate InLoop(s: State) {
    s.core.Waiting? || s.core.Popping?
  }

  /** Requests that can still produce a reply. */
  function Open(s: State): nat {
    |s.req| + |Held(s.adapter)|
  }

  /** Wake-ups the core can still receive for what is already under way. */
  function Wakeups(s: State): nat {
    Open(s) + s.rspPosts + if s.adapter.Answered? then 1 else 0
  }

  /** Replies to pop, and twice the wake-ups to consume. */
  function LoopMeasure(s: State): nat {
    Open(s) + |s.rsp| + 2 * Wakeups(s) + if s.core.Popping? then 1 else 0
  }

  /** The doorbell was drained, so only the requests then open can still ring it. */
  predicate Quota(s: State) {
    && (s.core.Drained? ==> Wakeups(s) <= SLOTS + 1)
    && (s.core.Asked? || InLoop(s) ==> Wakeups(s) <= SLOTS + 2)
  }

  lemma QuotaStep(s: State, a: Action)
    requires Enabled(s, a) && Quota(s) && |s.req| <= SLOTS
    ensures Quota(Apply(s, a))
  {}

  lemma {:induction false} QuotaOnRun(states: seq<State>, acts: seq<Action>, i: nat)
    requires IsRun(states, acts) && i <= |acts|
    ensures Quota(states[i])
  {
    if i > 0 {
      QuotaOnRun(states, acts, i - 1);
      InvOnRun(states, acts, i - 1);
      RunStep(states, acts, i - 1);
      QuotaStep(states[i - 1], acts[i - 1]);
    }
  }

  /** No step of the adapter raises the measure, and every step of the core's loop lowers it. */
  lemma LoopStep(s: State, a: Action, t: State)
    requires Enabled(s, a) && t == Apply(s, a) && InLoop(s) && InLoop(t)
    ensures LoopMeasure(t) + (if CoreAction(a) then 1 else 0) <= LoopMeasure(s)
  {}

  function CoreSteps(acts: seq<Action>, i: nat, j: nat): nat
    requires i <= j <= |acts|
    decreases j
  {
    if i == j then 0 else CoreSteps(acts, i, j - 1) + if CoreAction(acts[j - 1]) then 1 else 0
  }

  lemma {:induction false} LoopSegment(states: seq<State>, acts: seq<Action>, i: nat, j: nat)
    requires IsRun(states, acts) && i <= j <= |acts|
    requires forall k :: i <= k <= j ==> InLoop(states[k])
    ensures CoreSteps(acts, i, j) + LoopMeasure(states[j]) <= LoopMeasure(states[i])
    decreases j
  {
    if i < j {
      LoopSegment(states, acts, i, j - 1);
      RunStep(states, acts, j - 1);
      LoopStep(states[j - 1], acts[j - 1], states[j]);
    }
  }

  /**
   The nested wait and pop loop ends without appeal to the clock: within one call it makes at
   most 22 steps, however the adapter interleaves, crashes and restarts.
   */
  lemma LoopIsBounded(states: seq<State>, acts: seq<Action>, i: nat, j: nat)
    requires IsRun(states, acts) && i <= j <= |acts|
    requires forall k :: i <= k <= j ==> InLoop(states[k])
    ensures CoreSteps(acts, i, j) <= 22
  {
    LoopSegment(states, acts, i, j);
    QuotaOnRun(states, acts, i);
    InvOnRun(states, acts, i);
  }

  // ---------------------------------------------------------------- end to end, over the mirror

  /** Every request was served by the mirror backend configured with `inputBytes`. */
  ghost predicate MirrorRun(states: seq<State>, acts: seq<Action>, inputBytes: nat)
    requires IsRun(states, acts)
  {
    forall i :: 0 <= i < |acts| && acts[i].Serve? && states[i].adapter.Holding? ==>
                  acts[i].data == MirrorReply(states[i].adapter.req.data, inputBytes, MAX_FRAME_BYTES)
  }

  /** The reply kept for request `n` is the mirror image of that call's outputs. */
  ghost predicate Mirrored(s: State, inputBytes: nat, n: nat) {
    n in s.served ==>
      && 0 < n <= |s.sent|
      && s.served[n].data == MirrorReply(s.sent[n - 1], inputBytes, MAX_FRAME_BYTES)
  }

  lemma MirrorServesStep(s: State, a: Action, inputBytes: nat, n: nat)
    requires Tagged(s) && Enabled(s, a) && Mirrored(s, inputBytes, n)
    requires a.Serve? ==> a.data == MirrorReply(s.adapter.req.data, inputBytes, MAX_FRAME_BYTES)
    ensures Mirrored(Apply(s, a), inputBytes, n)
  {}

  lemma {:induction false} MirrorServes(states: seq<State>, acts: seq<Action>, inputBytes: nat, i: nat, n: nat)
    requires IsRun(states, acts) && MirrorRun(states, acts, inputBytes) && i <= |acts|
    ensures Mirrored(states[i], inputBytes, n)
  {
    if i > 0 {
      InvOnRun(states, acts, i - 1);
      MirrorServes(states, acts, inputBytes, i - 1, n);
      RunStep(states, acts, i - 1);
      MirrorServesStep(states[i - 1], acts[i - 1], inputBytes, n);
    }
  }

  lemma {:induction false} SentFits(states: seq<State>, acts: seq<Action>, i: nat)
    requires IsRun(states, acts) && i <= |acts|
    ensures forall k :: 0 <= k < |states[i].sent| ==> |states[i].sent[k]| <= MAX_FRAME_BYTES
  {
    if i > 0 {
      SentFits(states, acts, i - 1);
      RunStep(states, acts, i - 1);
    }
  }

  /** Reading `inLen` bytes of the mirror's reply is reading them of the outputs. */
  lemma MirrorShows(data: seq<byte>, inputBytes: nat, inLen: nat)
    requires |data| <= MAX_FRAME_BYTES && (inputBytes == 0 || inLen <= inputBytes)
    ensures FitTo(MirrorReply(data, inputBytes, MAX_FRAME_BYTES), inLen) == FitTo(data, inLen)
  {}

  /** With the mirror behind it, a call that succeeds reads back its own outputs, cut or zero-extended. */
  lemma MirrorEcho(states: seq<State>, acts: seq<Action>, inputBytes: nat, i: nat, inLen: nat)
    requires IsRun(states, acts) && MirrorRun(states, acts, inputBytes)
    requires i < |acts| && Accepts(states[i], acts[i]) && Age(states[i], states[i].rsp[0]) < TWO32
    ensures var s := states[i];
            && 0 < s.calls <= |s.sent|
            && s.rsp[0].data == MirrorReply(s.sent[s.calls - 1], inputBytes, MAX_FRAME_BYTES)
            && (inputBytes == 0 || inLen <= inputBytes ==>
                  FitTo(s.rsp[0].data, inLen) == FitTo(s.sent[s.calls - 1], inLen))
  {
    AcceptedReplyIsOwn(states, acts, i);
    InvOnRun(states, acts, i);
    MirrorServes(states, acts, inputBytes, i, states[i].calls);
    SentFits(states, acts, i);
    if inputBytes == 0 || inLen <= inputBytes {
      MirrorShows(states[i].sent[states[i].calls - 1], inputBytes, inLen);
    }
  }

  /** The same under the bound the caller can see. */
  lemma MirrorEchoSeen(states: seq<State>, acts: seq<Action>, inputBytes: nat, i: nat, inLen: nat)
    requires IsRun(states, acts) && MirrorRun(states, acts, inputBytes)
    requires i < |acts| && Accepts(states[i], acts[i]) && MissesWithin(states, acts, i + 1, TWO32 - 1)
    requires inputBytes == 0 || inLen <= inputBytes
    ensures var s := states[i];
            0 < s.calls <= |s.sent| && FitTo(s.rsp[0].data, inLen) == FitTo(s.sent[s.calls - 1], inLen)
  {
    FewMissesNoForeign(states, acts, i + 1);
    AcceptedReplyIsOwn(states, acts, i);
    MirrorEcho(states, acts, inputBytes, i, inLen);
  }

  // ---------------------------------------------------------------- the wrap

  lemma ReachableStep(s: State, a: Action)
    requires Reachable(s) && Enabled(s, a)
    ensures Reachable(Apply(s, a))
  {
    var states, acts :| IsRun(states, acts) && states[|acts|] == s;
    RunGoesOn(states, acts, a);
    var states', acts' := states + [Apply(s, a)], acts + [a];
    assert IsRun(states', acts') && states'[|acts'|] == Apply(s, a);
  }

  lemma RunGoesOn(states: seq<State>, acts: seq<Action>, a: Action)
    requires IsRun(states, acts) && Enabled(states[|acts|], a)
    ensures IsRun(states + [Apply(states[|acts|], a)], acts + [a])
  {
    hide Apply, Enabled;
    var ss, aa := states + [Apply(states[|acts|], a)], acts + [a];
    forall i | 0 <= i < |aa|
      ensures StepAt(ss, aa, i)
    {
      assert i < |acts| ==> StepAt(states, acts, i);
    }
  }

  function Blank(k: nat): Frame {
    Frame(k, false, [])
  }

  /** A call with empty outputs that no adapter answers. */
  function Unanswered(s: State): State {
    var b := s.(calls := s.calls + 1, sent := s.sent + [[]], misses := s.misses + 1);
    if |s.req| < SLOTS then b.(req := s.req + [Blank(s.calls + 1)], reqPosts := s.reqPosts + 1) else b
  }

  /** The next call, its outputs empty, about to push its request. */
  function Asking(s: State): State {
    s.(core := Drained, calls := s.calls + 1, sent := s.sent + [[]])
  }

  lemma AskingReachable(s: State)
    requires Reachable(s) && s.core.Idle? && s.rsp == [] && s.rspPosts == 0
    ensures Reachable(Asking(s))
  {
    ReachableStep(s, Begin([]));
    var s1 := Apply(s, Begin([]));
    ReachableStep(s1, DrainRing(0));
    var s2 := Apply(s1, DrainRing(0));
    ReachableStep(s2, DrainDone);
    assert Apply(s2, DrainDone) == Asking(s);
  }

  lemma UnansweredReachable(s: State)
    requires Reachable(s) && s.core.Idle? && s.adapter.Dead? && s.rsp == [] && s.rspPosts == 0
    ensures Reachable(Unanswered(s))
  {
    AskingReachable(s);
    hide Reachable;
    var s3 := Asking(s);
    ReachableStep(s3, PushRequest);
    var s4 := Apply(s3, PushRequest);
    if |s.req| < SLOTS {
      ReachableStep(s4, PostRequest);
      ReachableStep(Apply(s4, PostRequest), WaitFails);
      assert Apply(Apply(s4, PostRequest), WaitFails) == Unanswered(s);
    } else {
      assert s4 == Unanswered(s);
    }
  }

  /** After `k` calls without an adapter: the first four requests fill the ring. */
  function Stalled(k: nat): State {
    INIT.(req := seq(Min(k, SLOTS), i requires 0 <= i => Blank(i + 1)), reqPosts := Min(k, SLOTS),
    calls := k, sent := seq(k, _ => []), misses := k)
  }

  lemma StalledNext(k: nat)
    ensures Unanswered(Stalled(k)) == Stalled(k + 1)
  {}

  lemma {:induction false} StalledReachable(k: nat)
    ensures Reachable(Stalled(k))
  {
    if k == 0 {
      assert Stalled(0) == INIT;
      assert IsRun([INIT], []) && [INIT][0] == INIT;
    } else {
      StalledReachable(k - 1);
      UnansweredReachable(Stalled(k - 1));
      StalledNext(k - 1);
    }
  }

  /** An adapter came back and took request 1. */
  function Restarted(k: nat): State {
    Stalled(k).(adapter := Holding(Blank(1)), req := [Blank(2), Blank(3), Blank(4)], reqPosts := 3, taken := 1)
  }

  /** Call `k + 1` under way against that adapter. */
  function Revived(k: nat): State {
    var s := Stalled(k);
    s.(core := Waiting, adapter := Holding(Blank(1)), req := [Blank(2), Blank(3), Blank(4), Blank(k + 1)],
    calls := k + 1, sent := s.sent + [[]], taken := 1)
  }

  lemma RestartedReachable(k: nat)
    requires k >= 4
    ensures Reachable(Restarted(k))
  {
    StalledReachable(k);
    var s := Stalled(k);
    ReachableStep(s, Restart);
    var s1 := Apply(s, Restart);
    ReachableStep(s1, Wake);
    var s2 := Apply(s1, Wake);
    ReachableStep(s2, PopRequest);
    assert Apply(s2, PopRequest) == Restarted(k);
  }

  lemma RevivedReachable(k: nat)
    requires k >= 4
    ensures Reachable(Revived(k))
  {
    RestartedReachable(k);
    AskingReachable(Restarted(k));
    hide Reachable;
    var s6 := Asking(Restarted(k));
    ReachableStep(s6, PushRequest);
    var s7 := Apply(s6, PushRequest);
    ReachableStep(s7, PostRequest);
    assert Apply(s7, PostRequest) == Revived(k);
  }

  lemma RevivedAnswers(k: nat)
    requires k >= 4
    ensures exists s :: Reachable(s) && s.core.Popping? && s.rsp == [Blank(1)] && s.calls == k + 1
                        && s.misses == k && s.foreign == 0
  {
    var r := Revived(k);
    RevivedReachable(k);
    ReachableStep(r, Serve([], false));
    var r1 := Apply(r, Serve([], false));
    ReachableStep(r1, PushReply);
    var r2 := Apply(r1, PushReply);
    ReachableStep(r2, PostReply);
    var r3 := Apply(r2, PostReply);
    ReachableStep(r3, WaitWakes);
    var r4 := Apply(r3, WaitWakes);
    assert r4.rsp == [Blank(1)];
  }

  /**
   The bounds are needed: after 2^32 calls without an adapter, call 2^32 + 1 accepts the reply to
   request 1, which still sat in the request ring when the adapter came back.
   */
  lemma ForeignReplyAccepted()
    ensures exists s :: Reachable(s) && Accepts(s, Pop) && s.rsp[0].num == 1 && s.calls == TWO32 + 1
                        && s.misses == TWO32 && s.foreign == 0 && Apply(s, Pop).foreign == 1
  {
    RevivedAnswers(TWO32);
    var s :| Reachable(s) && s.core.Popping? && s.rsp == [Blank(1)] && s.calls == TWO32 + 1
             && s.misses == TWO32 && s.foreign == 0;
    FrameFate(s, s.rsp[0]);
    assert Age(s, s.rsp[0]) % TWO32 == 0;
    ForeignStep(s, Pop);
  }

  /** One failed call more than 2^31, and a reply can be neither late nor a match. */
  lemma MismatchReachable()
    ensures exists s :: Reachable(s) && s.core.Popping? && s.foreign == 0 && s.misses == TWO31 + 1 && s.rsp != []
                        && !Late(s.rsp[0], s.calls) && !Matches(s.rsp[0], s.calls)
  {
    RevivedAnswers(TWO31 + 1);
    var s :| Reachable(s) && s.core.Popping? && s.rsp == [Blank(1)] && s.calls == TWO31 + 1 + 1
             && s.misses == TWO31 + 1 && s.foreign == 0;
    FrameFate(s, s.rsp[0]);
    assert Age(s, s.rsp[0]) % TWO32 == TWO31 + 1;
  }

  /**
   Exactly how many failed calls in a row the protocol survives: a bound on them rules out foreign
   replies in every run if and only if it is below 2^32.
   */
  lemma MissesBoundIsExact(bound: nat)
    ensures bound < TWO32 <==>
            forall states: seq<State>, acts: seq<Action>, k: nat ::
              IsRun(states, acts) && k <= |acts| && MissesWithin(states, acts, k, bound) ==> states[k].foreign == 0
  {
    if bound < TWO32 {
      forall states: seq<State>, acts: seq<Action>, k: nat
        | IsRun(states, acts) && k <= |acts| && MissesWithin(states, acts, k, bound)
        ensures states[k].foreign == 0
      {
        FewMissesNoForeign(states, acts, k);
      }
    } else {
      var states, acts := ForeignRun();
      assert MissesWithin(states, acts, |acts|, bound);
    }
  }

  /** The run behind it, up to and including the foreign reply. */
  lemma ForeignRun() returns (states: seq<State>, acts: seq<Action>)
    ensures IsRun(states, acts) && MissesWithin(states, acts, |acts|, TWO32) && states[|acts|].foreign == 1
  {
    ForeignReplyAccepted();
    var s :| Reachable(s) && Accepts(s, Pop) && s.rsp[0].num == 1 && s.calls == TWO32 + 1
             && s.misses == TWO32 && s.foreign == 0 && Apply(s, Pop).foreign == 1;
    var ss, aa :| IsRun(ss, aa) && ss[|aa|] == s;
    MissesWithinCalls(ss, aa, |aa|, TWO32);
    RunGoesOn(ss, aa, Pop);
    states, acts := ss + [Apply(s, Pop)], aa + [Pop];
    hide Accepts, Apply, Enabled, IsRun;
    forall i | 0 <= i < |acts| && Accepts(states[i], acts[i])
      ensures states[i].misses <= TWO32
    {
      assert i < |aa| ==> states[i] == ss[i] && acts[i] == aa[i];
    }
  }
}

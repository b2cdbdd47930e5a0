/**
 The cross-process exchange: the PLC core's proxy, the adapter's service loop, the two
 rings and the two doorbell semaphores, interleaved one ring or semaphore operation at a
 time.  The adapter may crash and be restarted between any two steps, and every wait of
 the core may time out.

 Ring operations are atomic here.  Module RingSteps justifies that for one producer and one
 consumer: each takes effect at its last store, and a drain removes the frames it saw when it read
 the head, so later ones stay.  The adapter's drain of a full response ring, made from the producer
 side, is taken as atomic without that justification.

 The number `num` is the unbounded one behind the 32-bit `seq` of a frame, and no step of the core
 or of the adapter decides anything on it.
 */
module Exchange {
  import opened Words

  datatype Frame = Frame(num: nat, invalid: bool, data: seq<byte>)

  /** The 32-bit sequence number a frame carries on the wire. */
  function Seq(f: Frame): uint32 {
    Low32(f.num)
  }

  /** Where proxy_exchange stands. */
  datatype Core =
    | Idle
    | Begun        // sequence number drawn
    | RingDrained  // response ring drained, doorbell being drained
    | Drained      // doorbell found at zero
    | Asked        // request pushed, its doorbell not yet rung
    | Waiting      // at the doorbell wait
    | Popping      // woken, popping replies

  /** Where the adapter's service loop stands. */
  datatype Adapter =
    | Dead
    | Top                    // at the doorbell wait
    | Woken                  // doorbell taken, request not yet popped
    | Holding(req: Frame)    // request popped
    | Ready(reply: Frame)    // backend served, reply not yet pushed
    | Answered(num: nat)     // reply pushed, doorbell not yet rung

  datatype State = State(
    core: Core,
    adapter: Adapter,
    req: seq<Frame>,
    rsp: seq<Frame>,
    reqPosts: nat,
    rspPosts: nat,
    calls: nat,                  // calls begun: call k carries sequence number k mod 2^32
    sent: seq<seq<byte>>,        // outputs of every call begun
    served: map<nat, Frame>,     // the reply produced for a request, by request number
    taken: nat,                  // number of the last request the adapter popped
    lost: set<nat>,              // replies whose producer died between push and post
    lastMatch: nat,              // number of the last reply accepted
    misses: nat,                 // calls failed since then
    foreign: nat                 // replies accepted by a call that did not ask for them
  )

  const INIT := State(Idle, Dead, [], [], 0, 0, 0, [], map[], 0, {}, 0, 0, 0)

  datatype Action =
    | Begin(out: seq<byte>)
    | DrainRing(keep: nat)  // replies that came in while the ring was being drained stay
    | TakePost
    | DrainDone
    | PushRequest
    | PostRequest
    | WaitFails        // timed out, or the wait reported an error
    | WaitWakes
    | Pop
    | Wake
    | PopRequest
    | Serve(data: seq<byte>, invalid: bool)
    | PushReply
    | PostReply
    | Crash
    | Restart

  predicate CoreAction(a: Action) {
    a.Begin? || a.DrainRing? || a.TakePost? || a.DrainDone? || a.PushRequest? || a.PostRequest?
    || a.WaitFails? || a.WaitWakes? || a.Pop?
  }

  predicate Enabled(s: State, a: Action) {
    match a
    case Begin(out) => s.core.Idle? && |out| <= MAX_FRAME_BYTES
    case DrainRing(keep) => s.core.Begun? && keep <= |s.rsp|
    case TakePost => s.core.RingDrained? && s.rspPosts > 0
    case DrainDone => s.core.RingDrained? && s.rspPosts == 0
    case PushRequest => s.core.Drained? && |s.sent| > 0
    case PostRequest => s.core.Asked?
    case WaitFails => s.core.Waiting?
    case WaitWakes => s.core.Waiting? && s.rspPosts > 0
    case Pop => s.core.Popping?
    case Wake => s.adapter.Top? && s.reqPosts > 0
    case PopRequest => s.adapter.Woken?
    case Serve(data, _) => s.adapter.Holding? && |data| <= MAX_FRAME_BYTES
    case PushReply => s.adapter.Ready?
    case PostReply => s.adapter.Answered?
    case Crash => !s.adapter.Dead?
    case Restart => s.adapter.Dead?
  }

  /** A frame the core pops while it waits for call `calls`: dropped as late. */
  predicate Late(f: Frame, calls: nat) {
    Behind32(Seq(f), Low32(calls))
  }

  predicate Matches(f: Frame, calls: nat) {
    Seq(f) == Low32(calls)
  }

  function Fail(s: State): State {
    s.(core := Idle, misses := s.misses + 1)
  }

  function Apply(s: State, a: Action): State
    requires Enabled(s, a)
  {
    match a
    case Begin(out) => s.(core := Begun, calls := s.calls + 1, sent := s.sent + [out])
    case DrainRing(keep) => s.(core := RingDrained, rsp := s.rsp[|s.rsp| - keep..])
    case TakePost => s.(rspPosts := s.rspPosts - 1)
    case DrainDone => s.(core := Drained)
    case PushRequest =>
      if |s.req| >= SLOTS then Fail(s)
      else s.(core := Asked, req := s.req + [Frame(s.calls, false, s.sent[|s.sent| - 1])])
    case PostRequest => s.(core := Waiting, reqPosts := s.reqPosts + 1)
    case WaitFails => Fail(s)
    case WaitWakes => s.(core := Popping, rspPosts := s.rspPosts - 1)
    case Pop =>
      if s.rsp == [] then s.(core := Waiting)
      else
        var f, popped := s.rsp[0], s.(rsp := s.rsp[1..]);
        if Late(f, s.calls) then popped
        else if Matches(f, s.calls) then
          popped.(core := Idle, lastMatch := f.num, misses := 0,
          foreign := if f.num == s.calls then s.foreign else s.foreign + 1)
        else Fail(popped)
    case Wake => s.(adapter := Woken, reqPosts := s.reqPosts - 1)
    case PopRequest =>
      if s.req == [] then s.(adapter := Top)
      else s.(adapter := Holding(s.req[0]), req := s.req[1..], taken := s.req[0].num)
    case Serve(data, invalid) =>
      var reply := Frame(s.adapter.req.num, invalid, data);
      s.(adapter := Ready(reply), served := s.served[reply.num := reply])
    case PushReply =>
      if |s.rsp| >= SLOTS then s.(adapter := Top, rsp := [])
      else s.(adapter := Answered(s.adapter.reply.num), rsp := s.rsp + [s.adapter.reply])
    case PostReply => s.(adapter := Top, rspPosts := s.rspPosts + 1)
    case Crash =>
      s.(adapter := Dead, lost := if s.adapter.Answered? then s.lost + {s.adapter.num} else s.lost)
    case Restart => s.(adapter := Top)
  }

  /** A run: the state after each of the actions, from the freshly opened channel. */
  ghost predicate IsRun(states: seq<State>, acts: seq<Action>) {
    && |states| == |acts| + 1
    && states[0] == INIT
    && forall i :: 0 <= i < |acts| ==> StepAt(states, acts, i)
  }

  ghost predicate StepAt(states: seq<State>, acts: seq<Action>, i: int)
    requires 0 <= i < |acts| < |states|
  {
    Enabled(states[i], acts[i]) && states[i + 1] == Apply(states[i], acts[i])
  }

  lemma RunStep(states: seq<State>, acts: seq<Action>, i: nat)
    requires IsRun(states, acts) && i < |acts|
    ensures |states| == |acts| + 1 && Enabled(states[i], acts[i]) && states[i + 1] == Apply(states[i], acts[i])
  {
    assert StepAt(states, acts, i);
  }

  ghost predicate Reachable(s: State) {
    exists states, acts :: IsRun(states, acts) && states[|acts|] == s
  }

  // ---------------------------------------------------------------- what every step keeps

  /** The frame the adapter has taken out of one ring and not yet put into the other. */
  function Held(a: Adapter): seq<Frame> {
    match a
    case Holding(f) => [f]
    case Ready(f) => [f]
    case _ => []
  }

  /** Every request not yet dropped or accepted, oldest first. */
  function Pending(s: State): seq<Frame> {
    s.rsp + Held(s.adapter) + s.req
  }

  /** Strictly ascending request numbers above `lo` and up to `hi`. */
  predicate Chain(fs: seq<Frame>, lo: nat, hi: nat) {
    && (forall i :: 0 <= i < |fs| ==> lo < fs[i].num <= hi)
    && (forall i, j :: 0 <= i < j < |fs| ==> fs[i].num < fs[j].num)
  }

  /** The newest request number that can be pending: the own request enters with PushRequest. */
  function Newest(s: State): nat {
    if (s.core.Begun? || s.core.RingDrained? || s.core.Drained?) && s.calls > 0 then s.calls - 1 else s.calls
  }

  /**
   Requests queue in the order they were asked, all younger than the last accepted reply:
   queued replies, then the frame the adapter holds, then queued requests.
   */
  ghost predicate Ordered(s: State) {
    && |s.sent| == s.calls
    && (s.calls == 0 ==> s.core.Idle?)
    && |s.req| <= SLOTS && |s.rsp| <= SLOTS
    && s.lastMatch <= s.taken <= Newest(s)
    && Chain(s.req, s.taken, Newest(s))
    && (if Held(s.adapter) == [] then Chain(s.rsp, s.lastMatch, s.taken)
        else s.lastMatch < s.taken == Held(s.adapter)[0].num && Chain(s.rsp, s.lastMatch, s.taken - 1))
    && (s.adapter.Answered? ==> s.adapter.num <= s.taken)
  }

  /** A request carries its call's outputs and no request as young as it has a reply. */
  ghost predicate IsRequest(s: State, f: Frame) {
    && 0 < f.num <= |s.sent| && f.data == s.sent[f.num - 1] && !f.invalid
    && forall n :: n in s.served ==> n < f.num
  }

  /** A reply is the one its request was served with. */
  ghost predicate IsReply(s: State, f: Frame) {
    f.num in s.served && s.served[f.num] == f
  }

  ghost predicate Tagged(s: State) {
    && (forall i :: 0 <= i < |s.req| ==> IsRequest(s, s.req[i]))
    && (s.adapter.Holding? ==> IsRequest(s, s.adapter.req))
    && (forall i :: 0 <= i < |s.rsp| ==> IsReply(s, s.rsp[i]))
    && (s.adapter.Ready? ==> IsReply(s, s.adapter.reply))
    && (forall n :: n in s.served ==> 0 < n <= Newest(s) && s.served[n].num == n)
  }

  /** While every accepted reply was the own one, the failed calls are those since the last match. */
  ghost predicate Counted(s: State) {
    s.foreign == 0 ==> s.calls == s.lastMatch + s.misses + (if s.core.Idle? then 0 else 1)
  }

  ghost predicate HasOwnReply(s: State) {
    exists f :: f in s.rsp && f.num == s.calls
  }

  /** The reply being waited for is in the ring only with a wake-up pending, on its way, or dead. */
  ghost predicate NotStranded(s: State) {
    (s.core.Asked? || s.core.Waiting?) && HasOwnReply(s) ==>
      s.rspPosts > 0 || s.adapter == Answered(s.calls) || s.calls in s.lost
  }

  ghost predicate Inv(s: State) {
    Ordered(s) && Tagged(s) && Counted(s) && NotStranded(s)
  }

  lemma ChainTail(fs: seq<Frame>, lo: nat, hi: nat)
    requires Chain(fs, lo, hi) && fs != []
    ensures Chain(fs[1..], fs[0].num, hi) && Chain(fs[1..], lo, hi) && lo < fs[0].num <= hi
  {}

  lemma ChainPush(fs: seq<Frame>, lo: nat, hi: nat, f: Frame)
    requires Chain(fs, lo, hi) && lo <= hi < f.num
    ensures Chain(fs + [f], lo, f.num)
  {}

  lemma ChainWider(fs: seq<Frame>, lo: nat, hi: nat, top: nat)
    requires Chain(fs, lo, hi) && hi <= top
    ensures Chain(fs, lo, top)
  {}

  lemma NoChain(lo: nat, hi: nat)
    ensures Chain([], lo, hi)
  {}

  lemma OrderedPop(s: State)
    requires Ordered(s) && Enabled(s, Pop)
    ensures Ordered(Apply(s, Pop))
  {
    hide Late, Matches, Chain;
    if s.rsp != [] {
      ChainTail(s.rsp, s.lastMatch, if Held(s.adapter) == [] then s.taken else s.taken - 1);
    }
  }

  lemma OrderedPushRequest(s: State)
    requires Ordered(s) && Enabled(s, PushRequest)
    ensures Ordered(Apply(s, PushRequest))
  {
    if |s.req| < SLOTS {
      ChainPush(s.req, s.taken, s.calls - 1, Frame(s.calls, false, s.sent[s.calls - 1]));
    }
  }

  lemma OrderedCoreStep(s: State, a: Action)
    requires Ordered(s) && Enabled(s, a) && CoreAction(a)
    ensures Ordered(Apply(s, a))
  {
    if a.Pop? {
      OrderedPop(s);
    } else if a.PushRequest? {
      OrderedPushRequest(s);
    }
  }

  lemma OrderedAdapterStep(s: State, a: Action)
    requires Ordered(s) && Enabled(s, a) && !CoreAction(a)
    ensures Ordered(Apply(s, a))
  {
    hide Chain;
    if a.PopRequest? && s.req != [] {
      ChainTail(s.req, s.taken, Newest(s));
      ChainWider(s.rsp, s.lastMatch, s.taken, s.req[0].num - 1);
    } else if a.PushReply? && |s.rsp| < SLOTS {
      ChainPush(s.rsp, s.lastMatch, s.taken - 1, s.adapter.reply);
    } else if a.PushReply? {
      NoChain(s.lastMatch, s.taken);
    } else if a.Crash? && Held(s.adapter) != [] {
      ChainWider(s.rsp, s.lastMatch, s.taken - 1, s.taken);
    }
  }

  lemma OrderedStep(s: State, a: Action)
    requires Ordered(s) && Enabled(s, a)
    ensures Ordered(Apply(s, a))
  {
    if CoreAction(a) {
      OrderedCoreStep(s, a);
    } else {
      OrderedAdapterStep(s, a);
    }
  }

  lemma TaggedServe(s: State, a: Action)
    requires Ordered(s) && Tagged(s) && Enabled(s, a) && a.Serve?
    ensures Tagged(Apply(s, a))
  {}

  /** Dropping replies and drawing numbers disturb neither requests nor replies. */
  lemma TaggedKept(s: State, t: State, k: nat)
    requires Tagged(s) && Newest(s) <= Newest(t)
    requires t.served == s.served && s.sent <= t.sent && t.adapter == s.adapter && t.req == s.req
    requires k <= |s.rsp| && t.rsp == s.rsp[k..]
    ensures Tagged(t)
  {}

  lemma TaggedPushRequest(s: State)
    requires Ordered(s) && Tagged(s) && Enabled(s, PushRequest)
    ensures Tagged(Apply(s, PushRequest))
  {
    var t := Apply(s, PushRequest);
    forall i | 0 <= i < |t.req|
      ensures IsRequest(t, t.req[i])
    {
      if i < |s.req| {
        assert IsRequest(s, s.req[i]);
      }
    }
    forall i | 0 <= i < |t.rsp|
      ensures IsReply(t, t.rsp[i])
    {
      assert IsReply(s, s.rsp[i]);
    }
  }

  lemma TaggedCoreStep(s: State, a: Action)
    requires Ordered(s) && Tagged(s) && Enabled(s, a) && CoreAction(a)
    ensures Tagged(Apply(s, a))
  {
    if a.PushRequest? {
      TaggedPushRequest(s);
    } else {
      hide Tagged, Chain;
      TaggedKept(s, Apply(s, a), if a.DrainRing? then |s.rsp| - a.keep else if a.Pop? && s.rsp != [] then 1 else 0);
    }
  }

  lemma TaggedStep(s: State, a: Action)
    requires Ordered(s) && Tagged(s) && Enabled(s, a)
    ensures Tagged(Apply(s, a))
  {
    if CoreAction(a) {
      TaggedCoreStep(s, a);
    } else if a.Serve? {
      TaggedServe(s, a);
    } else {
      var t := Apply(s, a);
      assert t.served == s.served && s.sent == t.sent;
      assert forall f: Frame :: IsReply(s, f) ==> IsReply(t, f);
      assert forall f: Frame :: IsRequest(s, f) ==> IsRequest(t, f);
    }
  }

  lemma NotStrandedStep(s: State, a: Action)
    requires Ordered(s) && NotStranded(s) && Enabled(s, a)
    ensures NotStranded(Apply(s, a))
  {}

  lemma CountedStep(s: State, a: Action)
    requires Ordered(s) && Counted(s) && Enabled(s, a)
    ensures Counted(Apply(s, a))
  {
    hide Chain, Late, Matches, Held;
  }

  lemma InvStep(s: State, a: Action)
    requires Inv(s) && Enabled(s, a)
    ensures Inv(Apply(s, a))
  {
    hide Ordered, Tagged, Counted, NotStranded, Apply, Enabled;
    OrderedStep(s, a);
    TaggedStep(s, a);
    CountedStep(s, a);
    NotStrandedStep(s, a);
  }

  lemma {:induction false} InvOnRun(states: seq<State>, acts: seq<Action>, i: nat)
    requires IsRun(states, acts) && i <= |acts|
    ensures Inv(states[i])
  {
    if i > 0 {
      InvOnRun(states, acts, i - 1);
      RunStep(states, acts, i - 1);
      InvStep(states[i - 1], acts[i - 1]);
    }
  }
}

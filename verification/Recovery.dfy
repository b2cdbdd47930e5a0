/**
 Whether a peer that died and was restarted is ever heard again.  Every request is pushed with one
 post, and the adapter pops one request per post; dying between the two leaves a request that no
 post announces, and from then on every answer is one call late.
 */
module Recovery {
  import opened Words
  import opened Exchange
  import opened ExchangeTheorems

  /** Requests queued beyond those announced: by a post, a woken adapter or a core about to post. */
  function Debt(s: State): int {
    |s.req| - s.reqPosts - (if s.adapter.Woken? then 1 else 0) - (if s.core.Asked? then 1 else 0)
  }

  /** The debt never falls, and it grows only when a woken adapter dies or finds nothing to pop. */
  lemma DebtStep(s: State, a: Action)
    requires Enabled(s, a)
    ensures Debt(Apply(s, a))
         == Debt(s) + if s.adapter.Woken? && (a.Crash? || (a.PopRequest? && s.req == [])) then 1 else 0
  {}

  lemma {:induction false} DebtNeverFalls(states: seq<State>, acts: seq<Action>, i: nat, j: nat)
    requires IsRun(states, acts) && i <= j <= |acts|
    ensures Debt(states[i]) <= Debt(states[j])
    decreases j - i
  {
    if i < j {
      DebtNeverFalls(states, acts, i, j - 1);
      RunStep(states, acts, j - 1);
      DebtStep(states[j - 1], acts[j - 1]);
    }
  }

  /** In debt, no call is ever answered by its own reply again, whatever is restarted afterwards. */
  lemma IndebtedNeverAnswered(states: seq<State>, acts: seq<Action>, i: nat, j: nat)
    requires IsRun(states, acts) && i <= j < |acts| && Debt(states[i]) > 0 && Accepts(states[j], acts[j])
    ensures states[j].rsp[0].num != states[j].calls && Age(states[j], states[j].rsp[0]) >= TWO32
  {
    DebtNeverFalls(states, acts, i, j + 1);
    AcceptedReplyIsOwn(states, acts, j);
    RunStep(states, acts, j);
  }

  /** So unless some answer comes after 2^32 failed calls in a row, every later call fails. */
  lemma IndebtedAllMiss(states: seq<State>, acts: seq<Action>, i: nat, j: nat)
    requires IsRun(states, acts) && i <= j < |acts| && Debt(states[i]) > 0
    requires MissesWithin(states, acts, j + 1, TWO32 - 1)
    ensures !Accepts(states[j], acts[j])
  {
    FewMissesNoForeign(states, acts, j + 1);
    hide Accepts;
    if Accepts(states[j], acts[j]) {
      IndebtedNeverAnswered(states, acts, i, j);
    }
  }

  // ---------------------------------------------------------------- runs that go on

  datatype Run = Run(states: seq<State>, acts: seq<Action>) {
    ghost predicate Valid() {
      IsRun(states, acts)
    }

    function End(): State {
      if states == [] then INIT else states[|states| - 1]
    }

    /** `this` goes on as `r`, in which the adapter does not die again. */
    ghost predicate GoesOnAs(r: Run) {
      && Valid() && r.Valid() && states <= r.states && acts <= r.acts
      && forall k :: |acts| <= k < |r.acts| ==> !r.acts[k].Crash?
    }
  }

  lemma Go(r: Run, a: Action) returns (q: Run)
    requires r.Valid() && Enabled(r.End(), a) && !a.Crash?
    ensures r.GoesOnAs(q) && q.End() == Apply(r.End(), a)
    ensures |q.acts| == |r.acts| + 1 && q.acts[|r.acts|] == a && q.states[|r.acts|] == r.End()
  {
    hide Apply, Enabled;
    q := Run(r.states + [Apply(r.End(), a)], r.acts + [a]);
    RunGoesOn(r.states, r.acts, a);
  }

  lemma GoesOnFurther(p: Run, q: Run, r: Run)
    requires p.GoesOnAs(q) && q.GoesOnAs(r)
    ensures p.GoesOnAs(r)
  {
    hide IsRun;
    assert r.states[..|p.states|] == q.states[..|p.states|];
    assert r.acts[..|p.acts|] == q.acts[..|p.acts|];
    forall k | |p.acts| <= k < |r.acts|
      ensures !r.acts[k].Crash?
    {
      assert k < |q.acts| ==> q.acts[k] == r.acts[k];
    }
  }

  lemma ThenGo(p: Run, r: Run, a: Action) returns (q: Run)
    requires p.GoesOnAs(r) && Enabled(r.End(), a) && !a.Crash?
    ensures p.GoesOnAs(q) && q.End() == Apply(r.End(), a)
    ensures |q.acts| == |r.acts| + 1 && q.acts[|r.acts|] == a && q.states[|r.acts|] == r.End()
  {
    assert r.Valid();
    hide Apply, Enabled, Run.GoesOnAs;
    q := Go(r, a);
    GoesOnFurther(p, r, q);
  }

  // ---------------------------------------------------------------- settling

  /** The adapter at its wait, with no request left, and no call under way. */
  predicate Settled(s: State) {
    s.core.Idle? && s.adapter.Top? && s.req == []
  }

  /** Between calls, an adapter that is alive or restarted comes back to its wait. */
  lemma {:induction false} ComesToWait(p: Run, r: Run) returns (q: Run)
    requires p.GoesOnAs(r) && r.End().core.Idle? && Debt(r.End()) <= 0
    ensures p.GoesOnAs(q) && q.End().core.Idle? && q.End().adapter.Top? && Debt(q.End()) <= 0
    ensures q.End().calls == r.End().calls && |q.End().req| <= |r.End().req|
    ensures r.End().adapter.Top? ==> q == r
    decreases match r.End().adapter
              case Top => 0 case Answered(_) => 1 case Ready(_) => 2 case Holding(_) => 3 case Woken => 4 case Dead => 5
  {
    hide Run.GoesOnAs;
    var s := r.End();
    match s.adapter
    case Top => q := r;
    case Dead => q := ThenGo(p, r, Restart);
    case Woken =>
      q := ThenGo(p, r, PopRequest);
      q := ComesToWait(p, q);
    case Holding(_) =>
      q := ThenGo(p, r, Serve([], false));
      q := ComesToWait(p, q);
    case Ready(_) =>
      q := ThenGo(p, r, PushReply);
      q := ComesToWait(p, q);
    case Answered(_) => q := ThenGo(p, r, PostReply);
  }

  /** Out of debt, it then works off what is queued. */
  lemma {:induction false} Settles(p: Run, r: Run) returns (q: Run)
    requires p.GoesOnAs(r) && r.End().core.Idle? && r.End().adapter.Top? && Debt(r.End()) <= 0
    ensures p.GoesOnAs(q) && Settled(q.End()) && q.End().calls == r.End().calls
    decreases |r.End().req|
  {
    hide Run.GoesOnAs;
    if r.End().req == [] {
      q := r;
    } else {
      q := ThenGo(p, r, Wake);
      q := ThenGo(p, q, PopRequest);
      q := ComesToWait(p, q);
      q := Settles(p, q);
    }
  }

  // ---------------------------------------------------------------- the next call

  /** A call from a settled state, as far as its drained doorbell. */
  lemma {:induction false} DrainsDoorbell(p: Run, r: Run) returns (q: Run)
    requires p.GoesOnAs(r) && r.End().core.RingDrained?
    ensures p.GoesOnAs(q) && q.End() == r.End().(core := Drained, rspPosts := 0)
    decreases r.End().rspPosts
  {
    hide Run.GoesOnAs;
    if r.End().rspPosts == 0 {
      q := ThenGo(p, r, DrainDone);
    } else {
      q := ThenGo(p, r, TakePost);
      q := DrainsDoorbell(p, q);
    }
  }

  lemma Asks(p: Run, r: Run, out: seq<byte>) returns (q: Run)
    requires p.GoesOnAs(r) && Settled(r.End()) && |out| <= MAX_FRAME_BYTES
    ensures p.GoesOnAs(q)
    ensures var s, t := r.End(), q.End();
            && t.core.Waiting? && t.adapter.Top? && t.calls == s.calls + 1 && t.rsp == [] && t.rspPosts == 0
            && t.reqPosts == s.reqPosts + 1 && t.req == [Frame(t.calls, false, out)]
  {
    hide Run.GoesOnAs;
    q := ThenGo(p, r, Begin(out));
    q := ThenGo(p, q, DrainRing(0));
    q := DrainsDoorbell(p, q);
    q := ThenGo(p, q, PushRequest);
    q := ThenGo(p, q, PostRequest);
  }

  /** The request is served and its reply taken. */
  lemma IsAnswered(p: Run, r: Run, data: seq<byte>) returns (q: Run)
    requires p.GoesOnAs(r) && |data| <= MAX_FRAME_BYTES
    requires var s := r.End();
             && s.core.Waiting? && s.adapter.Top? && s.rsp == [] && s.rspPosts == 0 && s.reqPosts > 0
             && |s.req| == 1 && s.req[0].num == s.calls
    ensures p.GoesOnAs(q) && |q.acts| > |r.acts| && |q.states| == |q.acts| + 1
    ensures var n := |q.acts| - 1;
            && Accepts(q.states[n], q.acts[n]) && q.states[n].rsp == [Frame(r.End().calls, false, data)]
            && q.states[n].calls == r.End().calls
  {
    hide Run.GoesOnAs;
    q := ThenGo(p, r, Wake);
    q := ThenGo(p, q, PopRequest);
    q := ThenGo(p, q, Serve(data, false));
    q := ThenGo(p, q, PushReply);
    q := ThenGo(p, q, PostReply);
    q := ThenGo(p, q, WaitWakes);
    q := ThenGo(p, q, Pop);
    assert q.Valid() by {
      GoesOnMeansValid(p, q);
    }
    hide Apply, Enabled;
  }

  lemma GoesOnMeansValid(p: Run, q: Run)
    requires p.GoesOnAs(q)
    ensures q.Valid()
  {}

  /** The last step of the run takes the reply to the call under way. */
  ghost predicate EndsAnswered(r: Run) {
    && r.Valid() && r.acts != []
    && var n := |r.acts| - 1;
       Accepts(r.states[n], r.acts[n]) && r.states[n].rsp[0].num == r.states[n].calls
  }

  /**
   Between calls, whatever the adapter has been through: some call can still be answered exactly if
   no request is queued beyond those announced, and then already the next one can be, with any data.
   */
  lemma RecoversExactly(r: Run, data: seq<byte>) returns (q: Run)
    requires r.Valid() && r.End().core.Idle? && |data| <= MAX_FRAME_BYTES
    ensures Debt(r.End()) <= 0 ==>
              && r.GoesOnAs(q) && EndsAnswered(q)
              && var s := q.states[|q.acts| - 1]; s.calls == r.End().calls + 1 && s.rsp[0].data == data
    ensures Debt(r.End()) > 0 ==>
              forall p: Run :: r.acts <= p.acts && r.states <= p.states && |p.acts| > |r.acts| ==> !EndsAnswered(p)
  {
    q := r;
    if Debt(r.End()) <= 0 {
      q := CanBeAnswered(r, data);
    } else {
      forall p: Run | r.acts <= p.acts && r.states <= p.states && |p.acts| > |r.acts|
        ensures !EndsAnswered(p)
      {
        if EndsAnswered(p) {
          assert p.states[|r.acts|] == r.End();
          IndebtedNeverAnswered(p.states, p.acts, |r.acts|, |p.acts| - 1);
        }
      }
    }
  }

  lemma CanBeAnswered(r: Run, data: seq<byte>) returns (q: Run)
    requires r.Valid() && r.End().core.Idle? && Debt(r.End()) <= 0 && |data| <= MAX_FRAME_BYTES
    ensures r.GoesOnAs(q) && EndsAnswered(q)
    ensures var s := q.states[|q.acts| - 1]; s.calls == r.End().calls + 1 && s.rsp[0].data == data
  {
    assert r.GoesOnAs(r);
    hide Run.GoesOnAs, Debt, Settled;
    q := ComesToWait(r, r);
    q := Settles(r, q);
    q := Asks(r, q, []);
    q := IsAnswered(r, q, data);
    GoesOnMeansValid(r, q);
  }

  // ---------------------------------------------------------------- how the debt is made

  /** One call, one wake-up, one crash: a reachable state from which no restart ever recovers. */
  lemma DebtIsReachable()
    ensures exists s :: Reachable(s) && s.calls == 1 && s.core.Idle? && Debt(s) == 1
  {
    var r := Run([INIT], []);
    assert r.Valid() && r.GoesOnAs(r);
    hide Run.GoesOnAs;
    var q := ThenGo(r, r, Restart);
    q := Asks(r, q, []);
    q := ThenGo(r, q, Wake);
    q := ThenGo(r, q, WaitFails);
    GoesOnMeansValid(r, q);
    var s := q.End();
    assert Reachable(s) by {
      assert IsRun(q.states, q.acts) && q.states[|q.acts|] == s;
    }
    ReachableStep(s, Crash);
    assert Debt(Apply(s, Crash)) == 1;
  }
}

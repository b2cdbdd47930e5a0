/**
 One call of the adapter proxy inside a run of the exchange: what its waits and pops see is what
 the core's steps of the run leave there, so its outcome, its status and the image it returns are
 those of the run.
 */
module ProxyCall {
  import opened Words
  import opened Statuses
  import opened MirrorBackend
  import opened ReplyWait
  import opened Failsafe
  import opened Adapters
  import E = Exchange
  import T = ExchangeTheorems

  // ---------------------------------------------------------------- what a call sees of a run

  /** Steps `b` to `j - 1` of the run lie inside the call that step `b` begins. */
  ghost predicate Inside(states: seq<E.State>, acts: seq<E.Action>, b: nat, j: nat) {
    && E.IsRun(states, acts) && b < j <= |acts| < |states| && acts[b].Begin?
    && forall k :: b < k <= j ==> !states[k].core.Idle?
  }

  /** The call that step `b` begins ends with step `e - 1`. */
  ghost predicate WholeCall(states: seq<E.State>, acts: seq<E.Action>, b: nat, e: nat) {
    b + 1 < e <= |acts| && Inside(states, acts, b, e - 1) && states[e].core.Idle?
  }

  /** One wait of the loop: it failed, or it woke and these frames were popped. */
  datatype Turn = Turn(woke: bool, frames: seq<Popped>)

  /** A frame as the proxy reads it. */
  function Shown(f: E.Frame): Popped {
    Got(E.Seq(f), f.invalid, f.data)
  }

  /** What one step adds to what the call has seen. */
  function Hear(seen: seq<Turn>, s: E.State, a: E.Action): seq<Turn> {
    match a
    case WaitWakes => seen + [Turn(true, [])]
    case WaitFails => seen + [Turn(false, [])]
    case Pop =>
      if s.rsp == [] || seen == [] then seen
      else
        var last := seen[|seen| - 1];
        seen[..|seen| - 1] + [last.(frames := last.frames + [Shown(s.rsp[0])])]
    case _ => seen
  }

  /** The waits of the call begun by step `b`, up to step `j`. */
  function Heard(states: seq<E.State>, acts: seq<E.Action>, b: nat, j: nat): seq<Turn>
    requires b <= j <= |acts| < |states|
    decreases j
  {
    if j == b then [] else Hear(Heard(states, acts, b, j - 1), states[j - 1], acts[j - 1])
  }

  /** A round of the proxy's loop shows that wait; a failed one is an error, a timeout or a spent budget. */
  predicate Shows(r: Round, turn: Turn, deadline: nat) {
    if turn.woke then r.wake.Woke? && r.now < deadline && r.frames == turn.frames
    else r.now >= deadline || !r.wake.Woke?
  }

  /** The proxy's environment in that call is what the run shows it. */
  ghost predicate Observes(env: Env, budget: nat, states: seq<E.State>, acts: seq<E.Action>, b: nat, e: nat)
    requires b < e <= |acts| < |states|
  {
    var seen := Heard(states, acts, b, e);
    && env.pushed == !acts[e - 1].PushRequest?
    && |env.rounds| == |seen|
    && forall k :: 0 <= k < |seen| ==> Shows(env.rounds[k], seen[k], env.t0 + budget)
  }

  // ---------------------------------------------------------------- while the call lasts

  /** Woken each time, and nothing but late frames. */
  predicate AllLate(seen: seq<Turn>, seqno: uint32) {
    forall k :: 0 <= k < |seen| ==>
                  seen[k].woke && forall l :: 0 <= l < |seen[k].frames| ==> Late(seen[k].frames[l], seqno)
  }

  /** The counters a call leaves alone until it ends. */
  ghost predicate SameCall(s: E.State, t: E.State) {
    t.calls == s.calls && t.sent == s.sent && t.misses == s.misses && t.foreign == s.foreign
  }

  ghost predicate Undecided(s: E.State, seen: seq<Turn>) {
    if T.InLoop(s) then AllLate(seen, Low32(s.calls)) && (s.core.Popping? ==> seen != []) else seen == []
  }

  lemma UndecidedStep(s: E.State, a: E.Action, seen: seq<Turn>)
    requires E.Enabled(s, a) && !s.core.Idle? && Undecided(s, seen) && !E.Apply(s, a).core.Idle?
    ensures Undecided(E.Apply(s, a), Hear(seen, s, a)) && SameCall(s, E.Apply(s, a))
  {
    hide Behind32, Low32;
  }

  lemma BeginUndecided(s: E.State, a: E.Action)
    requires E.Enabled(s, a) && a.Begin?
    ensures Undecided(E.Apply(s, a), Hear([], s, a))
  {}

  /** Until it ends, a call has seen only late frames. */
  lemma {:induction false} StillUndecided(states: seq<E.State>, acts: seq<E.Action>, b: nat, j: nat)
    requires Inside(states, acts, b, j)
    ensures Undecided(states[j], Heard(states, acts, b, j))
    ensures SameCall(states[b + 1], states[j])
    decreases j
  {
    hide E.IsRun, E.Apply, E.Enabled, Undecided, Hear;
    E.RunStep(states, acts, j - 1);
    if j == b + 1 {
      BeginUndecided(states[b], acts[b]);
    } else {
      StillUndecided(states, acts, b, j - 1);
      UndecidedStep(states[j - 1], acts[j - 1], Heard(states, acts, b, j - 1));
    }
  }

  // ---------------------------------------------------------------- how it ends

  /** The last wait reported an error, in time. */
  predicate WaitBroke(rounds: seq<Round>, deadline: nat) {
    rounds != [] && rounds[|rounds| - 1].now < deadline && rounds[|rounds| - 1].wake.WaitError?
  }

  /** The outcome the run gives the call that its step `(s, a)` ends, `broke` if its last wait reported an error. */
  ghost predicate EndsAs(s: E.State, a: E.Action, broke: bool, o: Outcome) {
    if T.Accepts(s, a) then o == if s.rsp[0].invalid then Invalid else Fresh(s.rsp[0].data, true)
    else o == Miss(if a.Pop? then ErrProto else if a.WaitFails? && broke then ErrIo else ErrTimeout)
  }

  /** A step that ends a call: a full request ring, a wait that failed, or a frame that is not late. */
  predicate Final(s: E.State, a: E.Action, seen: seq<Turn>) {
    a.PushRequest? || (AllLate(seen, Low32(s.calls))
                       && (a.WaitFails? || (a.Pop? && seen != [] && s.rsp != [] && !E.Late(s.rsp[0], s.calls))))
  }

  lemma LastStep(s: E.State, a: E.Action, seen: seq<Turn>)
    requires E.Enabled(s, a) && !s.core.Idle? && E.Apply(s, a).core.Idle? && Undecided(s, seen)
    ensures Final(s, a, seen)
  {
    hide E.Late, E.Matches, AllLate, Low32;
  }

  /** The verdict of the proxy's loop on what it saw, when the last thing it saw ended the call. */
  lemma VerdictOf(rounds: seq<Round>, seen: seq<Turn>, seqno: uint32, deadline: nat, s: E.State, a: E.Action)
    requires seqno == Low32(s.calls) && AllLate(seen, seqno)
    requires a.WaitFails? || (a.Pop? && seen != [] && s.rsp != [] && !E.Late(s.rsp[0], s.calls))
    requires |rounds| == |Hear(seen, s, a)|
    requires forall k :: 0 <= k < |rounds| ==> Shows(rounds[k], Hear(seen, s, a)[k], deadline)
    ensures var v := Await(rounds, seqno, deadline);
            if !a.Pop? then v == if WaitBroke(rounds, deadline) then Failed(true) else Expired
            else if E.Matches(s.rsp[0], s.calls) then v == Reply(Shown(s.rsp[0])) else v == Failed(false)
  {
    var n := |rounds| - 1;
    if a.WaitFails? {
      forall k | 0 <= k < n
        ensures Decides(rounds[k], seqno, deadline).Undecided?
      {
        assert Hear(seen, s, a)[k] == seen[k];
        InRoundIsFirstNotLate(rounds[k].frames, seqno, |rounds[k].frames|);
      }
      assert !Hear(seen, s, a)[n].woke;
      AwaitIsFirstDecision(rounds, seqno, deadline, n);
    } else {
      forall k | 0 <= k < n
        ensures rounds[k].frames == seen[k].frames && rounds[k].now < deadline && rounds[k].wake.Woke?
      {
        assert Hear(seen, s, a)[k] == seen[k];
      }
      var m := |seen[n].frames|;
      assert rounds[n].frames == seen[n].frames + [Shown(s.rsp[0])];
      ReplyAccepted(rounds, seqno, deadline, n, m);
    }
  }

  lemma EndingStep(s: E.State, a: E.Action)
    requires E.Enabled(s, a) && !s.core.Idle? && E.Apply(s, a).core.Idle?
    ensures E.Apply(s, a).misses == if T.Accepts(s, a) then 0 else s.misses + 1
  {
    if a.Pop? && s.rsp != [] {
      T.FrameFate(s, s.rsp[0]);
    }
    hide E.Late, E.Matches;
  }

  /** What a whole call does to the counters of the run. */
  lemma CallInRun(states: seq<E.State>, acts: seq<E.Action>, b: nat, e: nat)
    requires WholeCall(states, acts, b, e)
    ensures var r, s, t := states[b], states[e - 1], states[e];
            var accepts := T.Accepts(s, acts[e - 1]);
            && s.calls == t.calls == r.calls + 1 && s.sent == r.sent + [acts[b].out]
            && s.misses == r.misses && s.foreign == r.foreign
            && t.misses == (if accepts then 0 else s.misses + 1)
            && t.foreign == s.foreign + if accepts && s.rsp[0].num != s.calls then 1 else 0
  {
    var s, a := states[e - 1], acts[e - 1];
    hide E.Apply, E.Enabled, E.IsRun, Undecided;
    E.RunStep(states, acts, b);
    E.RunStep(states, acts, e - 1);
    StillUndecided(states, acts, b, e - 1);
    BeginStep(states[b], acts[b]);
    EndingStep(s, a);
    T.CallsStep(s, a);
    T.ForeignStep(s, a);
  }

  lemma BeginStep(s: E.State, a: E.Action)
    requires E.Enabled(s, a) && a.Begin?
    ensures var t := E.Apply(s, a);
            t.calls == s.calls + 1 && t.sent == s.sent + [a.out] && t.misses == s.misses && t.foreign == s.foreign
  {}

  /** What is known before the last step of a call. */
  lemma BeforeTheEnd(states: seq<E.State>, acts: seq<E.Action>, b: nat, e: nat)
    requires WholeCall(states, acts, b, e)
    ensures var s, a := states[e - 1], acts[e - 1];
            var seen := Heard(states, acts, b, e - 1);
            && E.Enabled(s, a) && s.calls == states[b].calls + 1
            && Heard(states, acts, b, e) == Hear(seen, s, a) && Final(s, a, seen)
  {
    var s, a := states[e - 1], acts[e - 1];
    hide E.Apply, E.Enabled, E.IsRun, Hear, Undecided, Final;
    E.RunStep(states, acts, e - 1);
    StillUndecided(states, acts, b, e - 1);
    CallInRun(states, acts, b, e);
    LastStep(s, a, Heard(states, acts, b, e - 1));
  }

  /** The outcome of the proxy's call is the outcome of the call in the run. */
  lemma CallEnds(env: Env, budget: nat, states: seq<E.State>, acts: seq<E.Action>, b: nat, e: nat)
    requires WholeCall(states, acts, b, e) && Observes(env, budget, states, acts, b, e)
    ensures EndsAs(states[e - 1], acts[e - 1], WaitBroke(env.rounds, env.t0 + budget),
                   Ending(env, Low32(states[b].calls + 1), budget, true))
    ensures acts[e - 1].PushRequest? || acts[e - 1].WaitFails? || acts[e - 1].Pop?
  {
    var s, a := states[e - 1], acts[e - 1];
    hide E.IsRun, E.Apply, E.Enabled, Await, Low32, E.Late, Hear, Heard, AllLate, Shows, E.Matches, Ending, EndsAs;
    BeforeTheEnd(states, acts, b, e);
    if !a.PushRequest? {
      VerdictOf(env.rounds, Heard(states, acts, b, e - 1), Low32(s.calls), env.t0 + budget, s, a);
    }
    OutcomeOf(env, budget, s, a);
  }

  /** The outcome the proxy makes of that verdict. */
  lemma OutcomeOf(env: Env, budget: nat, s: E.State, a: E.Action)
    requires E.Enabled(s, a) && env.pushed == !a.PushRequest? && (env.pushed ==> a.WaitFails? || a.Pop?)
    requires env.pushed ==>
               var v := Await(env.rounds, Low32(s.calls), env.t0 + budget);
               if !a.Pop? then v == if WaitBroke(env.rounds, env.t0 + budget) then Failed(true) else Expired
               else if s.rsp != [] && E.Matches(s.rsp[0], s.calls) then v == Reply(Shown(s.rsp[0]))
               else v == Failed(false)
    ensures EndsAs(s, a, WaitBroke(env.rounds, env.t0 + budget), Ending(env, Low32(s.calls), budget, true))
  {
    hide Await, Low32, E.Matches, E.Enabled, WaitBroke;
  }

  // ---------------------------------------------------------------- call after call

  /** Calls missed since the last one the peer answered. */
  function MissedInARow(h: seq<Event>): nat {
    if h == [] || Answered(h[|h| - 1]) then 0 else MissedInARow(h[..|h| - 1]) + 1
  }

  /** Between calls: the run has begun the calls of the history and has answered none of them with a foreign reply. */
  ghost predicate Tracks(h: seq<Event>, s: E.State) {
    s.core.Idle? && s.calls == |h| && s.misses == MissedInARow(h) && s.foreign == 0
  }

  /** What the adapter does between calls does not matter. */
  lemma AdapterKeepsTrack(h: seq<Event>, s: E.State, a: E.Action)
    requires Tracks(h, s) && E.Enabled(s, a) && !a.Begin?
    ensures Tracks(h, E.Apply(s, a))
  {}

  /**
   After fewer than 2^32 calls missed in a row, a call that is answered is answered with its own
   reply, and the proxy's history goes on tracking the run.
   */
  lemma CallTracks(h: seq<Event>, ev: Event, env: Env, budget: nat,
                   states: seq<E.State>, acts: seq<E.Action>, b: nat, e: nat)
    requires WholeCall(states, acts, b, e) && Observes(env, budget, states, acts, b, e)
    requires Tracks(h, states[b]) && MissedInARow(h) < TWO32
    requires ev.what == Ending(env, Low32(|h| + 1), budget, true)
    ensures Tracks(h + [ev], states[e])
    ensures Answered(ev) <==> T.Accepts(states[e - 1], acts[e - 1])
    ensures Answered(ev) ==> states[e - 1].rsp[0].num == |h| + 1 && T.Age(states[e - 1], states[e - 1].rsp[0]) < TWO32
  {
    hide E.IsRun, T.Accepts, Ending, Observes, Low32;
    CallInRun(states, acts, b, e);
    CallEnds(env, budget, states, acts, b, e);
    assert (h + [ev])[..|h|] == h;
    if T.Accepts(states[e - 1], acts[e - 1]) {
      AnswerIsOwn(states, acts, b, e);
    }
  }

  /** After at most 2^31 calls missed in a row no call ends with a protocol error. */
  lemma NoProtocolError(h: seq<Event>, ev: Event, env: Env, budget: nat,
                        states: seq<E.State>, acts: seq<E.Action>, b: nat, e: nat)
    requires WholeCall(states, acts, b, e) && Observes(env, budget, states, acts, b, e)
    requires Tracks(h, states[b]) && MissedInARow(h) <= TWO31
    requires ev.what == Ending(env, Low32(|h| + 1), budget, true)
    ensures ev.what != Miss(ErrProto)
  {
    hide E.IsRun, Ending, Observes, Low32;
    CallInRun(states, acts, b, e);
    CallEnds(env, budget, states, acts, b, e);
    if acts[e - 1].Pop? {
      PopMatches(states, acts, b, e);
    }
  }

  lemma PopMatches(states: seq<E.State>, acts: seq<E.Action>, b: nat, e: nat)
    requires WholeCall(states, acts, b, e) && acts[e - 1].Pop?
    requires states[b].foreign == 0 && states[b].misses <= TWO31
    ensures T.Accepts(states[e - 1], acts[e - 1])
  {
    var s := states[e - 1];
    hide E.IsRun, E.Enabled, E.Apply;
    CallInRun(states, acts, b, e);
    BeforeTheEnd(states, acts, b, e);
    E.RunStep(states, acts, e - 1);
    T.FewMissesNeverMismatch(states, acts, e - 1);
    PopWithoutMatch(s);
  }

  /** A pop that ends the call without a match counts a miss. */
  lemma PopWithoutMatch(s: E.State)
    requires E.Enabled(s, E.Pop) && s.rsp != [] && E.Apply(s, E.Pop).core.Idle? && E.Apply(s, E.Pop).misses == 0
    ensures T.Accepts(s, E.Pop)
  {
    T.FrameFate(s, s.rsp[0]);
    hide E.Late, E.Matches;
  }

  lemma AnswerIsOwn(states: seq<E.State>, acts: seq<E.Action>, b: nat, e: nat)
    requires WholeCall(states, acts, b, e) && T.Accepts(states[e - 1], acts[e - 1])
    requires states[b].foreign == 0 && states[b].misses < TWO32
    ensures var s := states[e - 1]; s.rsp[0].num == s.calls && T.Age(s, s.rsp[0]) < TWO32
  {
    hide E.IsRun, T.Accepts;
    CallInRun(states, acts, b, e);
    T.OwnAfterFewMisses(states, acts, e - 1);
  }

  /** Over the mirror, the payload a successful call ends with shows that call's own outputs. */
  lemma CallEchoes(h: seq<Event>, ev: Event, env: Env, budget: nat, inputBytes: nat,
                   states: seq<E.State>, acts: seq<E.Action>, b: nat, e: nat)
    requires WholeCall(states, acts, b, e) && Observes(env, budget, states, acts, b, e)
    requires Tracks(h, states[b]) && MissedInARow(h) < TWO32 && T.MirrorRun(states, acts, inputBytes)
    requires ev.what == Ending(env, Low32(|h| + 1), budget, true) && ev.what.Fresh?
    requires inputBytes == 0 || ev.inLen <= inputBytes
    ensures FitTo(ev.what.payload, ev.inLen) == FitTo(acts[b].out, ev.inLen)
  {
    hide E.IsRun, T.Accepts, Ending, Observes, T.MirrorRun, MirrorReply, FitTo, Low32;
    CallEnds(env, budget, states, acts, b, e);
    CallTracks(h, ev, env, budget, states, acts, b, e);
    T.MirrorEcho(states, acts, inputBytes, e - 1, ev.inLen);
    CallInRun(states, acts, b, e);
    SentPerCall(states, acts, b);
  }

  lemma SentPerCall(states: seq<E.State>, acts: seq<E.Action>, i: nat)
    requires E.IsRun(states, acts) && i <= |acts|
    ensures |states[i].sent| == states[i].calls
  {
    E.InvOnRun(states, acts, i);
  }

  /** The status of a call that the step `(s, a)` ends, `broke` if its last wait reported an error. */
  ghost predicate Returns(s: E.State, a: E.Action, broke: bool, st: Status) {
    && (st == Ok <==> T.Accepts(s, a) && !s.rsp[0].invalid)
    && (st == ErrAgain <==> T.Accepts(s, a) && s.rsp[0].invalid)
    && (st == ErrProto <==> a.Pop? && !T.Accepts(s, a))
    && (st == ErrIo <==> a.WaitFails? && broke)
    && (st == ErrTimeout <==> a.PushRequest? || (a.WaitFails? && !broke))
  }

  lemma EndsReturns(s: E.State, a: E.Action, broke: bool, o: Outcome)
    requires EndsAs(s, a, broke, o) && (a.PushRequest? || a.WaitFails? || a.Pop?)
    ensures Returns(s, a, broke, StatusOf(o)) && (StatusOf(o) == Ok ==> o.Fresh?)
  {}

  /** What a call tracked by a run returns: its status, and over the mirror its own outputs. */
  lemma CallReturns(c: Config, h: seq<Event>, ev: Event, env: Env, budget: nat, inputBytes: nat,
                    states: seq<E.State>, acts: seq<E.Action>, b: nat, e: nat)
    requires WholeCall(states, acts, b, e) && Observes(env, budget, states, acts, b, e)
    requires Tracks(h, states[b]) && MissedInARow(h) < TWO32 && T.MirrorRun(states, acts, inputBytes)
    requires ev.what == Ending(env, Low32(|h| + 1), budget, true) && (inputBytes == 0 || ev.inLen <= inputBytes)
    requires History(c, h) && ev.inLen <= c.size
    ensures Tracks(h + [ev], states[e])
    ensures StatusOf(ev.what) == Ok ==> Image(c, h, ev) == FitTo(acts[b].out, ev.inLen)
    ensures Returns(states[e - 1], acts[e - 1], WaitBroke(env.rounds, env.t0 + budget), StatusOf(ev.what))
    ensures MissedInARow(h) <= TWO31 ==> StatusOf(ev.what) != ErrProto
  {
    hide E.IsRun, Observes, Ending, MissedInARow, T.MirrorRun, T.Accepts, History, FitTo, EndsAs, Returns, WaitBroke;
    CallEnds(env, budget, states, acts, b, e);
    EndsReturns(states[e - 1], acts[e - 1], WaitBroke(env.rounds, env.t0 + budget), ev.what);
    CallTracks(h, ev, env, budget, states, acts, b, e);
    if MissedInARow(h) <= TWO31 {
      NoProtocolError(h, ev, env, budget, states, acts, b, e);
    }
    if ev.what.Fresh? {
      CallEchoes(h, ev, env, budget, inputBytes, states, acts, b, e);
    }
  }

  /**
   The end-to-end promise: whatever the adapter does, crashes and restarts included, a call that
   returns PLC_OK over the mirror returns this call's own outputs, cut or zero-extended, as long as
   fewer than 2^32 calls have been missed in a row.
   */
  method EchoCall(p: EipProxy, out: seq<byte>, image: array<byte>, env: Env, ghost inputBytes: nat,
                  ghost states: seq<E.State>, ghost acts: seq<E.Action>, ghost b: nat, ghost e: nat)
    returns (st: Status)
    requires p.Valid() && !p.state.Closed? && image != p.lastGood
    requires |out| <= p.outputBytes && image.Length <= p.inputBytes && (inputBytes == 0 || image.Length <= inputBytes)
    requires Plausible(env) && Later(p.config, p.history, env.end)
    requires WholeCall(states, acts, b, e) && acts[b].out == out && T.MirrorRun(states, acts, inputBytes)
    requires Observes(env, p.budget, states, acts, b, e)
    requires Tracks(p.history, states[b]) && MissedInARow(p.history) < TWO32
    modifies p, image, p.lastGood
    ensures p.Valid() && !p.state.Closed? && Tracks(p.history, states[e])
    ensures st == Ok ==> image[..] == FitTo(out, image.Length)
    ensures Returns(states[e - 1], acts[e - 1], WaitBroke(env.rounds, env.t0 + p.budget), st)
    ensures MissedInARow(old(p.history)) <= TWO31 ==> st != ErrProto
  {
    hide *;
    ghost var h := p.history;
    ProxyHistory(p);
    st := p.Exchange(out, image, env);
    ghost var ev := p.history[|h|];
    assert ev == Event(env.end, image.Length, Ending(env, Low32(|h| + 1), p.budget, true));
    CallReturns(p.config, h, ev, env, p.budget, inputBytes, states, acts, b, e);
  }

  lemma ProxyHistory(p: EipProxy)
    requires p.Valid() && !p.state.Closed?
    ensures History(p.config, p.history) && p.nextSeq == Low32(|p.history| + 1) && p.inputBytes <= p.config.size
  {}
}

/** The three adapters that keep the failsafe contract of module Failsafe. */
module Adapters {
  import opened Words
  import opened Statuses
  import opened Failsafe
  import opened ReplyWait

  /** Buffer size of the two out-of-process proxies and of the in-process adapter. */
  const PROXY_BUFFER := MAX_FRAME_BYTES
  const LOOPBACK_MAX_BYTES := 512

  /** plc_adapter_apply_failsafe, writing the caller's image in place. */
  method ApplyFailsafe(policy: Policy, image: array<byte>, lastGood: array<byte>)
    requires image != lastGood && image.Length <= lastGood.Length
    modifies image
    ensures image[..] == Apply(policy, lastGood[..], image.Length)
  {
    if policy.Clear? {
      forall i | 0 <= i < image.Length {
        image[i] := 0;
      }
    } else {
      forall i | 0 <= i < image.Length {
        image[i] := lastGood[i];
      }
    }
  }

  /** Copies a payload into the caller's image, zero-extends it, and remembers the image. */
  method TakePayload(payload: seq<byte>, image: array<byte>, lastGood: array<byte>)
    requires image != lastGood && image.Length <= lastGood.Length
    modifies image, lastGood
    ensures image[..] == FitTo(payload, image.Length)
    ensures lastGood[..] == FitTo(payload, image.Length) + old(lastGood[..])[image.Length..]
  {
    forall i | 0 <= i < image.Length {
      image[i] := if i < |payload| then payload[i] else 0;
    }
    forall i | 0 <= i < image.Length {
      lastGood[i] := image[i];
    }
  }

  /** What an adapter holds agrees with the history of its exchanges. */
  ghost predicate Agrees(c: Config, h: seq<Event>, state: AdapterState, stats: Stats, stale: Staleness, good: seq<byte>)
  {
    && History(c, h)
    && state == StateAfter(c, h)
    && stats == StatsAfter(c, h)
    && good == LastGood(c, h)
    && (if EverAnswered(h) then stale.haveGood && stale.lastGood == Anchor(c, h)
        else !stale.haveGood && Anchor(c, h) == c.openedAt)
  }

  /** The clock went on since the last event. */
  ghost predicate Later(c: Config, h: seq<Event>, now: nat) {
    c.openedAt <= now && (h != [] ==> h[|h| - 1].at <= now)
  }

  /** The staleness helper measures exactly the time since the peer last answered. */
  lemma AgeIsSinceAnchor(c: Config, h: seq<Event>, state: AdapterState, stats: Stats,
                         stale: Staleness, good: seq<byte>, now: nat)
    requires Agrees(c, h, state, stats, stale, good) && Later(c, h, now)
    ensures stale.Age(c.openedAt, now) == now - Anchor(c, h)
  {
    AnchorWithin(c, h);
  }

  /** One more event, the way the functions of the history unfold it. */
  lemma Recorded(c: Config, h: seq<Event>, e: Event)
    requires History(c, h) && e.inLen <= c.size && Later(c, h, e.at)
    ensures var g := h + [e];
            && History(c, g) && g[..|h|] == h && g[|h|] == e
            && (EverAnswered(g) <==> EverAnswered(h) || Answered(e))
  {}

  /** The state a miss of the given age leads to. */
  function MissState(c: Config, state: AdapterState, age: nat): AdapterState {
    if age >= c.window then Faulted
    else if c.kind.InProcess? || state.Online? then Degraded else state
  }

  function MissStats(c: Config, state: AdapterState, stats: Stats, age: nat, reason: Status): Stats {
    stats.(timeouts := stats.timeouts + 1, staleFor := age,
    activations := stats.activations + (if age >= c.window && !state.Faulted? then 1 else 0),
    protocolErrors := stats.protocolErrors + if reason == ErrTimeout then 0 else 1)
  }

  lemma NeverFaultedInsideWindow(c: Config, h: seq<Event>, e: Event)
    requires History(c, h) && e.inLen <= c.size && Later(c, h, e.at) && e.what.Miss? && !Overdue(c, h, e)
    ensures !StateAfter(c, h).Faulted? && !StateAfter(c, h).Closed?
    ensures StateAfter(c, h).Opening? <==> c.kind.Remote? && !EverAnswered(h)
  {
    if StateAfter(c, h).Faulted? {
      Recorded(c, h, e);
      OverdueLasts(c, h, e);
    }
    if h != [] && Answered(h[|h| - 1]) {
      assert EverAnswered(h);
    }
  }

  lemma LastMiss(c: Config, h: seq<Event>, e: Event)
    requires e.what.Miss?
    ensures StateAfter(c, h + [e]) == if Overdue(c, h, e) then Faulted
                                      else if c.kind.Remote? && !EverAnswered(h + [e]) then Opening else Degraded
  {
    hide Overdue, EverAnswered;
    assert (h + [e])[..|h|] == h;
  }

  /** What a miss leads to needs no history: the state and the age decide it. */
  lemma StateAfterMiss(c: Config, h: seq<Event>, e: Event)
    requires History(c, h) && e.inLen <= c.size && Later(c, h, e.at) && e.what.Miss?
    ensures Anchor(c, h) <= e.at
    ensures StateAfter(c, h + [e]) == MissState(c, StateAfter(c, h), e.at - Anchor(c, h))
  {
    hide Anchor, EverAnswered, History, StateAfter;
    AnchorWithin(c, h);
    Recorded(c, h, e);
    LastMiss(c, h, e);
    if !Overdue(c, h, e) {
      NeverFaultedInsideWindow(c, h, e);
    }
  }

  /** The counters after one more event. */
  lemma StatsNext(c: Config, h: seq<Event>, e: Event)
    requires History(c, h) && e.inLen <= c.size && Later(c, h, e.at)
    ensures Anchor(c, h) <= e.at
    ensures var s, t := StatsAfter(c, h), StatsAfter(c, h + [e]);
            && t.exchanges == s.exchanges + (if IsFresh(e) then 1 else 0)
            && t.timeouts == s.timeouts + (if IsMiss(e) then 1 else 0)
            && t.dataInvalid == s.dataInvalid + (if IsInvalid(e) then 1 else 0)
            && t.protocolErrors == s.protocolErrors + (if IsProtocolError(e) then 1 else 0)
            && t.staleFor == (if IsMiss(e) then e.at - Anchor(c, h) else 0)
            && t.activations == s.activations
                                + if StateAfter(c, h + [e]).Faulted? && !StateAfter(c, h).Faulted? then 1 else 0
  {
    hide StateAfter;
    AnchorWithin(c, h);
    var g := h + [e];
    assert g[..|h|] == h && g[|h|] == e;
  }

  lemma MissAgrees(c: Config, h: seq<Event>, state: AdapterState, stats: Stats,
                   stale: Staleness, good: seq<byte>, e: Event)
    requires Agrees(c, h, state, stats, stale, good) && e.inLen <= c.size && Later(c, h, e.at) && e.what.Miss?
    ensures var age := stale.Age(c.openedAt, e.at);
            && Image(c, h, e) == Apply(if age >= c.window then c.policy else Hold, good, e.inLen)
            && Agrees(c, h + [e], MissState(c, state, age), MissStats(c, state, stats, age, e.what.reason), stale, good)
  {
    hide StateAfter, StatsAfter, Staleness.Age;
    AgeIsSinceAnchor(c, h, state, stats, stale, good, e.at);
    Recorded(c, h, e);
    StateAfterMiss(c, h, e);
    StatsNext(c, h, e);
  }

  lemma FreshAgrees(c: Config, h: seq<Event>, state: AdapterState, stats: Stats,
                    stale: Staleness, good: seq<byte>, e: Event)
    requires Agrees(c, h, state, stats, stale, good) && e.inLen <= c.size && Later(c, h, e.at) && e.what.Fresh?
    ensures Agrees(c, h + [e], if e.what.live then Online else Degraded,
                   stats.(exchanges := stats.exchanges + 1, staleFor := 0),
                   stale.MarkFresh(e.at), FitTo(e.what.payload, e.inLen) + good[e.inLen..])
  {
    hide StatsAfter;
    Recorded(c, h, e);
    StatsNext(c, h, e);
  }

  lemma InvalidAgrees(c: Config, h: seq<Event>, state: AdapterState, stats: Stats,
                      stale: Staleness, good: seq<byte>, e: Event)
    requires Agrees(c, h, state, stats, stale, good) && e.inLen <= c.size && Later(c, h, e.at) && e.what.Invalid?
    ensures Image(c, h, e) == Apply(c.policy, good, e.inLen)
    ensures Agrees(c, h + [e], Degraded, stats.(dataInvalid := stats.dataInvalid + 1, staleFor := 0),
                   stale.MarkFresh(e.at), good)
  {
    hide StatsAfter;
    Recorded(c, h, e);
    StatsNext(c, h, e);
  }

  /** What the environment shows one exchange of an out-of-process adapter. */
  datatype Env = Env(t0: nat, pushed: bool, rounds: seq<Round>, end: nat, devicesOnline: nat)

  /** How a call with sequence number `seqno` ends in that environment. */
  function Ending(env: Env, seqno: uint32, budget: nat, useFlag: bool): Outcome {
    if env.pushed then Meaning(Await(env.rounds, seqno, env.t0 + budget), env, useFlag) else Miss(ErrTimeout)
  }

  /** The outcome a verdict stands for; only the adapter role looks at the data-invalid flag. */
  function Meaning(v: Verdict, env: Env, useFlag: bool): Outcome {
    match v
    case Reply(f) =>
      if f.BadFrame? then Miss(ErrProto)
      else if useFlag && f.invalid then Invalid
      else Fresh(f.data, useFlag || env.devicesOnline > 0)
    case Failed(io) => Miss(if io then ErrIo else ErrProto)
    case _ => Miss(ErrTimeout)
  }

  lemma MissReasons(env: Env, seqno: uint32, budget: nat, useFlag: bool)
    ensures var o := Ending(env, seqno, budget, useFlag);
            && (o.Miss? ==> o.reason == ErrTimeout || o.reason == ErrIo || o.reason == ErrProto)
            && (o.Fresh? ==> o.live == (useFlag || env.devicesOnline > 0))
  {
    hide Await;
  }

  /** Each status exactly for what the push, the clock, the doorbell and the rings showed the call. */
  ghost predicate StatusTold(env: Env, seqno: uint32, budget: nat, useFlag: bool, st: Status) {
    var d := env.t0 + budget;
    && (st == ErrTimeout <==> !env.pushed || RunsOut(env.rounds, seqno, d))
    && (st == ErrIo <==> env.pushed && Breaks(env.rounds, seqno, d))
    && (st == ErrProto <==> env.pushed && Misfits(env.rounds, seqno, d))
    && (st == ErrAgain <==> env.pushed && useFlag && exists f :: Answers(env.rounds, seqno, d, f) && f.invalid)
    && (st == Ok <==> env.pushed && exists f :: Answers(env.rounds, seqno, d, f) && !(useFlag && f.invalid))
  }

  /** After a success the image is the answer's data, cut or zero-extended. */
  ghost predicate ImageTold(env: Env, seqno: uint32, budget: nat, st: Status, image: seq<byte>) {
    forall f :: st == Ok && Answers(env.rounds, seqno, env.t0 + budget, f) ==> image == FitTo(f.data, |image|)
  }

  /** Which status a call returns, read off what it saw. */
  lemma StatusByRounds(env: Env, seqno: uint32, budget: nat, useFlag: bool)
    ensures var o, d := Ending(env, seqno, budget, useFlag), env.t0 + budget;
            && StatusTold(env, seqno, budget, useFlag, StatusOf(o))
            && (forall f :: StatusOf(o) == Ok && Answers(env.rounds, seqno, d, f) ==>
                              o == Fresh(f.data, useFlag || env.devicesOnline > 0))
  {
    hide Await, RunsOut, Breaks, Misfits, Brings;
    AwaitExactly(env.rounds, seqno, env.t0 + budget);
    var v := Await(env.rounds, seqno, env.t0 + budget);
    if v.Reply? {
      assert Answers(env.rounds, seqno, env.t0 + budget, v.frame);
    }
  }

  /** It is `age` since the last of the opening and the answers. */
  ghost predicate Since(c: Config, h: seq<Event>, now: int, age: int) {
    && now - c.openedAt >= age && (forall i :: 0 <= i < |h| && Answered(h[i]) ==> now - h[i].at >= age)
    && (now - c.openedAt == age || exists i :: 0 <= i < |h| && Answered(h[i]) && now - h[i].at == age)
  }

  lemma SinceAnchor(c: Config, h: seq<Event>, now: int)
    requires History(c, h)
    ensures Since(c, h, now, now - Anchor(c, h))
  {
    AnchorWithin(c, h);
    forall i | 0 <= i < |h| && Answered(h[i])
      ensures h[i].at <= Anchor(c, h)
    {
      AnchorIsLatest(c, h, i);
    }
  }

  /** What one more event does to the counters and the state, told from the event and the earlier events. */
  lemma Moves(c: Config, h: seq<Event>, e: Event, state0: AdapterState, stats0: Stats, stale0: Staleness,
              good0: seq<byte>, state1: AdapterState, stats1: Stats, stale1: Staleness, good1: seq<byte>)
    requires Agrees(c, h, state0, stats0, stale0, good0) && Agrees(c, h + [e], state1, stats1, stale1, good1)
    requires e.inLen <= c.size && Later(c, h, e.at)
    ensures History(c, h) && (e.what.Fresh? ==> Image(c, h, e) == FitTo(e.what.payload, e.inLen))
    ensures && stats1.exchanges == stats0.exchanges + (if e.what.Fresh? then 1 else 0)
            && stats1.dataInvalid == stats0.dataInvalid + (if e.what.Invalid? then 1 else 0)
            && stats1.timeouts == stats0.timeouts + (if e.what.Miss? then 1 else 0)
            && stats1.protocolErrors == stats0.protocolErrors
                                        + (if e.what.Miss? && e.what.reason != ErrTimeout then 1 else 0)
            && stats1.activations == stats0.activations + if state1.Faulted? && !state0.Faulted? then 1 else 0
    ensures if !e.what.Miss? then stats1.staleFor == 0 else Since(c, h, e.at, stats1.staleFor)
    ensures var overdue := && e.what.Miss? && e.at - c.openedAt >= c.window
                           && forall i :: 0 <= i < |h| && Answered(h[i]) ==> e.at - h[i].at >= c.window;
            state1 == if e.what.Fresh? then (if e.what.live then Online else Degraded)
                      else if overdue then Faulted
                      else if e.what.Miss? && c.kind.Remote? && state0.Opening? then Opening else Degraded
  {
    StatsNext(c, h, e);
    SinceAnchor(c, h, e.at);
    var g := h + [e];
    assert g[|h|] == e;
    FaultedExactly(c, g);
    assert forall i :: 0 <= i < |h| ==> g[i] == h[i];
    if e.what.Miss? {
      StateAfterMiss(c, h, e);
      if Overdue(c, h, e) {
        assert state1.Faulted?;
      } else {
        NeverFaultedInsideWindow(c, h, e);
        OpeningIsRemote(c, h);
      }
    }
    hide StatsAfter;
  }

  predicate Missed(st: Status) {
    st == ErrTimeout || st == ErrIo || st == ErrProto
  }

  /** What a call that returned `st` at `now`, after the events `h`, has added to the counters. */
  ghost predicate CountersTold(c: Config, h: seq<Event>, now: nat, st: Status, was: Stats, s: Stats, fell: bool) {
    && s.exchanges == was.exchanges + (if st == Ok then 1 else 0)
    && s.dataInvalid == was.dataInvalid + (if st == ErrAgain then 1 else 0)
    && s.timeouts == was.timeouts + (if Missed(st) then 1 else 0)
    && s.protocolErrors == was.protocolErrors + (if st == ErrIo || st == ErrProto then 1 else 0)
    && s.activations == was.activations + (if fell then 1 else 0)
    && (if Missed(st) then Since(c, h, now, s.staleFor) else s.staleFor == 0)
  }

  /** The state it has left: FAULTED exactly after a miss a whole window after the opening and every answer. */
  ghost predicate StateTold(c: Config, h: seq<Event>, now: nat, st: Status, was: AdapterState, live: bool,
                            s: AdapterState)
  {
    && (s.Faulted? <==> && Missed(st) && now - c.openedAt >= c.window
                        && forall i :: 0 <= i < |h| && Answered(h[i]) ==> now - h[i].at >= c.window)
    && (!s.Faulted? ==> s == if st == Ok then (if live then Online else Degraded)
                             else if Missed(st) && was.Opening? then Opening else Degraded)
  }

  /** The same by the status the call returns. */
  lemma MovesByStatus(c: Config, h: seq<Event>, e: Event, state0: AdapterState, stats0: Stats, stale0: Staleness,
                      good0: seq<byte>, state1: AdapterState, stats1: Stats, stale1: Staleness, good1: seq<byte>,
                      live: bool)
    requires Agrees(c, h, state0, stats0, stale0, good0) && Agrees(c, h + [e], state1, stats1, stale1, good1)
    requires e.inLen <= c.size && Later(c, h, e.at) && c.kind.Remote?
    requires (e.what.Miss? ==> Missed(e.what.reason)) && (e.what.Fresh? ==> e.what.live == live)
    ensures History(c, h) && (e.what.Fresh? ==> Image(c, h, e) == FitTo(e.what.payload, e.inLen))
    ensures var fell := state1.Faulted? && !state0.Faulted?;
            CountersTold(c, h, e.at, StatusOf(e.what), stats0, stats1, fell)
    ensures StateTold(c, h, e.at, StatusOf(e.what), state0, live, state1)
  {
    hide Agrees, Since, Later, History, Image, FitTo, StateAfter, StatsAfter, Answered;
    Moves(c, h, e, state0, stats0, stale0, good0, state1, stats1, stale1, good1);
  }

  /** A frame that answers the call decides its status and image. */
  lemma AnsweredCall(env: Env, seqno: uint32, budget: nat, useFlag: bool, st: Status, image: seq<byte>, f: Popped)
    requires StatusTold(env, seqno, budget, useFlag, st) && ImageTold(env, seqno, budget, st, image)
    requires env.pushed && Answers(env.rounds, seqno, env.t0 + budget, f)
    ensures if useFlag && f.invalid then st == ErrAgain else st == Ok && image == FitTo(f.data, |image|)
  {
    hide Answers, RunsOut, Breaks, Misfits, FitTo;
  }

  lemma StateOnSuccess(c: Config, h: seq<Event>, now: nat, was: AdapterState, live: bool, s: AdapterState)
    requires StateTold(c, h, now, Ok, was, live, s)
    ensures s == if live then Online else Degraded
  {}

  lemma FitWhole(data: seq<byte>)
    ensures FitTo(data, |data|) == data
  {}

  lemma OpeningIsRemote(c: Config, h: seq<Event>)
    ensures StateAfter(c, h).Opening? ==> c.kind.Remote?
  {}

  /** Round-trip times of the successful exchanges. */
  datatype RoundTrip = RoundTrip(last: nat, greatest: nat)

  /** The round trip of a call that ended so; only a usable reply is timed. */
  function Timed(r: RoundTrip, env: Env, o: Outcome): RoundTrip
    requires env.t0 <= env.end
  {
    var rtt := env.end - env.t0;
    if o.Fresh? then RoundTrip(rtt, Max(r.greatest, rtt)) else r
  }

  predicate Plausible(env: Env) {
    env.t0 <= env.end && forall k :: 0 <= k < |env.rounds| ==> env.t0 <= env.rounds[k].now <= env.end
  }

  /** The EtherNet/IP adapter's proxy in the PLC core. */
  class EipProxy {
    const config: Config
    const budget: nat
    const inputBytes: nat
    const outputBytes: nat
    const lastGood: array<byte>
    var state: AdapterState
    var stats: Stats
    var stale: Staleness
    var nextSeq: uint32
    var roundTrip: RoundTrip
    ghost var history: seq<Event>

    /** Everything but the sequence counter, which a call draws before its outcome is known. */
    ghost predicate Settled()
      reads this, lastGood
    {
      && config.kind.Remote? && config.size == lastGood.Length == PROXY_BUFFER
      && inputBytes <= PROXY_BUFFER && outputBytes <= PROXY_BUFFER
      && (state.Closed? || Agrees(config, history, state, stats, stale, lastGood[..]))
    }

    ghost predicate Valid()
      reads this, lastGood
    {
      Settled() && nextSeq == Low32(|history| + 1)
    }

    /** proxy_open. */
    constructor (policy: Policy, window: nat, budget: nat, inputBytes: nat, outputBytes: nat, now: nat)
      requires inputBytes <= PROXY_BUFFER && outputBytes <= PROXY_BUFFER && now > 0
      ensures Valid() && !state.Closed? && history == [] && fresh(lastGood)
      ensures config == Config(Remote, policy, window, now, 496) && roundTrip == RoundTrip(0, 0)
      ensures this.budget == budget && this.inputBytes == inputBytes && this.outputBytes == outputBytes
    {
      config := Config(Remote, policy, window, now, PROXY_BUFFER);
      this.budget, this.inputBytes, this.outputBytes := budget, inputBytes, outputBytes;
      lastGood := new byte[PROXY_BUFFER](_ => 0);
      state, stats, stale, nextSeq := Opening, Stats(0, 0, 0, 0, 0, 0), Staleness(0, false), 1;
      roundTrip, history := RoundTrip(0, 0), [];
      new;
      assert lastGood[..] == LastGood(config, []);
    }

    /** proxy_close: from now on every exchange is refused; closing again changes nothing. */
    method Close() returns (st: Status)
      requires Valid()
      modifies this`state
      ensures Valid() && state.Closed? && st == Ok
    {
      state := Closed;
      return Ok;
    }

    /** proxy_fail: one more miss, recorded at `now`. */
    method Fail(image: array<byte>, reason: Status, now: nat) returns (st: Status)
      requires Settled() && !state.Closed? && image != lastGood
      requires image.Length <= inputBytes && Later(config, history, now)
      modifies this`state, this`stats, this`history, image
      ensures Settled() && !state.Closed? && st == reason
      ensures history == old(history) + [Event(now, image.Length, Miss(reason))]
      ensures image[..] == Image(config, old(history), Event(now, image.Length, Miss(reason)))
    {
      hide Agrees;
      ghost var e := Event(now, image.Length, Miss(reason));
      MissAgrees(config, history, state, stats, stale, lastGood[..], e);
      var age := stale.Age(config.openedAt, now);
      stats := stats.(timeouts := stats.timeouts + 1, staleFor := age,
      protocolErrors := stats.protocolErrors + if reason == ErrTimeout then 0 else 1);
      if age >= config.window {
        if !state.Faulted? {
          state := Faulted;
          stats := stats.(activations := stats.activations + 1);
        }
        ApplyFailsafe(config.policy, image, lastGood);
      } else {
        if state.Online? {
          state := Degraded;
        }
        ApplyFailsafe(Hold, image, lastGood);
      }
      history := history + [e];
      return reason;
    }

    /** proxy_unusable: the peer answered and declared its payload invalid. */
    method Unusable(image: array<byte>, now: nat) returns (st: Status)
      requires Settled() && !state.Closed? && image != lastGood
      requires image.Length <= inputBytes && Later(config, history, now)
      modifies this`state, this`stats, this`stale, this`history, image
      ensures Settled() && !state.Closed? && st == ErrAgain
      ensures history == old(history) + [Event(now, image.Length, Invalid)]
      ensures image[..] == Image(config, old(history), Event(now, image.Length, Invalid))
    {
      hide Agrees;
      ghost var e := Event(now, image.Length, Invalid);
      InvalidAgrees(config, history, state, stats, stale, lastGood[..], e);
      stats := stats.(dataInvalid := stats.dataInvalid + 1, staleFor := 0);
      stale := stale.MarkFresh(now);
      state := Degraded;
      ApplyFailsafe(config.policy, image, lastGood);
      history := history + [e];
      return ErrAgain;
    }

    /** The end of proxy_exchange: a usable reply. */
    method Succeed(payload: seq<byte>, image: array<byte>, now: nat) returns (st: Status)
      requires Settled() && !state.Closed? && image != lastGood
      requires image.Length <= inputBytes && Later(config, history, now)
      modifies this`state, this`stats, this`stale, this`history, image, lastGood
      ensures Settled() && !state.Closed? && st == Ok
      ensures history == old(history) + [Event(now, image.Length, Fresh(payload, true))]
      ensures image[..] == Image(config, old(history), Event(now, image.Length, Fresh(payload, true)))
    {
      hide Agrees;
      ghost var e := Event(now, image.Length, Fresh(payload, true));
      FreshAgrees(config, history, state, stats, stale, lastGood[..], e);
      TakePayload(payload, image, lastGood);
      stats := stats.(exchanges := stats.exchanges + 1, staleFor := 0);
      stale := stale.MarkFresh(now);
      state := Online;
      history := history + [e];
      return Ok;
    }

    /** proxy_exchange. */
    method Exchange(out: seq<byte>, image: array<byte>, env: Env) returns (st: Status)
      requires Valid() && image != lastGood && Plausible(env) && Later(config, history, env.end)
      modifies this`state, this`stats, this`stale, this`history, this`nextSeq, this`roundTrip, image, lastGood
      ensures Valid() && (state.Closed? <==> old(state).Closed?)
      ensures old(state).Closed? || |out| > outputBytes || image.Length > inputBytes ==>
                && st == (if old(state).Closed? then ErrState else ErrInval)
                && state == old(state) && history == old(history) && image[..] == old(image[..])
                && stats == old(stats) && stale == old(stale) && lastGood[..] == old(lastGood[..])
                && nextSeq == old(nextSeq) && roundTrip == old(roundTrip)
      ensures !old(state).Closed? && |out| <= outputBytes && image.Length <= inputBytes ==>
                var e := Event(env.end, image.Length, Ending(env, old(nextSeq), budget, true));
                && history == old(history) + [e]
                && image[..] == Image(config, old(history), e)
                && st == StatusOf(e.what) && roundTrip == Timed(old(roundTrip), env, e.what)
      ensures !old(state).Closed? && |out| <= outputBytes && image.Length <= inputBytes ==>
                var rtt := env.end - env.t0;
                && StatusTold(env, old(nextSeq), budget, true, st)
                && ImageTold(env, old(nextSeq), budget, st, image[..])
                && CountersTold(config, old(history), env.end, st, old(stats), stats,
                                state.Faulted? && !old(state).Faulted?)
                && StateTold(config, old(history), env.end, st, old(state), true, state)
                && roundTrip == if st == Ok then RoundTrip(rtt, Max(old(roundTrip).greatest, rtt)) else old(roundTrip)
    {
      hide Agrees, Image, Await, Low32, Ending, Answers, FitTo, StatusTold, CountersTold, StateTold;
      if state.Closed? {
        return ErrState;
      }
      if |out| > outputBytes || image.Length > inputBytes {
        return ErrInval;
      }
      StatusByRounds(env, nextSeq, budget, true);
      MissReasons(env, nextSeq, budget, true);
      ghost var h, good, state0, stats0, stale0 := history, lastGood[..], state, stats, stale;
      st := Conclude(image, env);
      ghost var e := history[|h|];
      MovesByStatus(config, h, e, state0, stats0, stale0, good, state, stats, stale, lastGood[..],
                    true);
    }

    /** The rest of proxy_exchange, once the call is accepted. */
    method Conclude(image: array<byte>, env: Env) returns (st: Status)
      requires Valid() && !state.Closed? && image != lastGood && image.Length <= inputBytes
      requires Plausible(env) && Later(config, history, env.end)
      modifies this`state, this`stats, this`stale, this`history, this`nextSeq, this`roundTrip, image, lastGood
      ensures Valid() && !state.Closed?
      ensures var e := Event(env.end, image.Length, Ending(env, old(nextSeq), budget, true));
              && history == old(history) + [e] && image[..] == Image(config, old(history), e)
              && st == StatusOf(e.what) && roundTrip == Timed(old(roundTrip), env, e.what)
    {
      hide Agrees, Image, Await, Low32;
      Low32Next(|history| + 1);
      var seqno := nextSeq;
      nextSeq := Low32(nextSeq + 1);
      if !env.pushed {
        st := Fail(image, ErrTimeout, env.end);
        return;
      }
      var v, _ := AwaitReply(env.t0, budget, seqno, env.rounds);
      if v.Expired? {
        st := Fail(image, ErrTimeout, env.end);
      } else if v.Failed? || v.frame.BadFrame? {
        st := Fail(image, if v.Failed? && v.io then ErrIo else ErrProto, env.end);
      } else if v.frame.invalid {
        st := Unusable(image, env.end);
      } else {
        st := Succeed(v.frame.data, image, env.end);
        roundTrip := RoundTrip(env.end - env.t0, Max(roundTrip.greatest, env.end - env.t0));
      }
    }
  }

  /** The EtherNet/IP scanner's proxy: the same rules, no data-invalid flag, and a degraded state
      while the scanner answers with no device online. */
  class ScannerProxy {
    const config: Config
    const budget: nat
    const inputBytes: nat
    const outputBytes: nat
    const lastGood: array<byte>
    var state: AdapterState
    var stats: Stats
    var stale: Staleness
    var nextSeq: uint32
    var roundTrip: RoundTrip
    ghost var history: seq<Event>

    /** Everything but the sequence counter, which a call draws before its outcome is known. */
    ghost predicate Settled()
      reads this, lastGood
    {
      && config.kind.Remote? && config.size == lastGood.Length == PROXY_BUFFER
      && inputBytes <= PROXY_BUFFER && outputBytes <= PROXY_BUFFER
      && (state.Closed? || Agrees(config, history, state, stats, stale, lastGood[..]))
    }

    ghost predicate Valid()
      reads this, lastGood
    {
      Settled() && nextSeq == Low32(|history| + 1)
    }

    /** proxy_open. */
    constructor (policy: Policy, window: nat, budget: nat, inputBytes: nat, outputBytes: nat, now: nat)
      requires inputBytes <= PROXY_BUFFER && outputBytes <= PROXY_BUFFER && now > 0
      ensures Valid() && !state.Closed? && history == [] && fresh(lastGood)
      ensures config == Config(Remote, policy, window, now, 496) && roundTrip == RoundTrip(0, 0)
      ensures this.budget == budget && this.inputBytes == inputBytes && this.outputBytes == outputBytes
    {
      config := Config(Remote, policy, window, now, PROXY_BUFFER);
      this.budget, this.inputBytes, this.outputBytes := budget, inputBytes, outputBytes;
      lastGood := new byte[PROXY_BUFFER](_ => 0);
      state, stats, stale, nextSeq := Opening, Stats(0, 0, 0, 0, 0, 0), Staleness(0, false), 1;
      roundTrip, history := RoundTrip(0, 0), [];
      new;
      assert lastGood[..] == LastGood(config, []);
    }

    /** proxy_close: from now on every exchange is refused; closing again changes nothing. */
    method Close() returns (st: Status)
      requires Valid()
      modifies this`state
      ensures Valid() && state.Closed? && st == Ok
    {
      state := Closed;
      return Ok;
    }

    /** proxy_fail: one more miss, recorded at `now`. */
    method Fail(image: array<byte>, reason: Status, now: nat) returns (st: Status)
      requires Settled() && !state.Closed? && image != lastGood
      requires image.Length <= inputBytes && Later(config, history, now)
      modifies this`state, this`stats, this`history, image
      ensures Settled() && !state.Closed? && st == reason
      ensures history == old(history) + [Event(now, image.Length, Miss(reason))]
      ensures image[..] == Image(config, old(history), Event(now, image.Length, Miss(reason)))
    {
      hide Agrees;
      ghost var e := Event(now, image.Length, Miss(reason));
      MissAgrees(config, history, state, stats, stale, lastGood[..], e);
      var age := stale.Age(config.openedAt, now);
      stats := stats.(timeouts := stats.timeouts + 1, staleFor := age,
      protocolErrors := stats.protocolErrors + if reason == ErrTimeout then 0 else 1);
      if age >= config.window {
        if !state.Faulted? {
          state := Faulted;
          stats := stats.(activations := stats.activations + 1);
        }
        ApplyFailsafe(config.policy, image, lastGood);
      } else {
        if state.Online? {
          state := Degraded;
        }
        ApplyFailsafe(Hold, image, lastGood);
      }
      history := history + [e];
      return reason;
    }

    /** The end of proxy_exchange: a usable reply. */
    method Succeed(payload: seq<byte>, online: nat, image: array<byte>, now: nat) returns (st: Status)
      requires Settled() && !state.Closed? && image != lastGood
      requires image.Length <= inputBytes && Later(config, history, now)
      modifies this`state, this`stats, this`stale, this`history, image, lastGood
      ensures Settled() && !state.Closed? && st == Ok
      ensures history == old(history) + [Event(now, image.Length, Fresh(payload, online > 0))]
      ensures image[..] == Image(config, old(history), Event(now, image.Length, Fresh(payload, online > 0)))
    {
      hide Agrees;
      ghost var e := Event(now, image.Length, Fresh(payload, online > 0));
      FreshAgrees(config, history, state, stats, stale, lastGood[..], e);
      TakePayload(payload, image, lastGood);
      stats := stats.(exchanges := stats.exchanges + 1, staleFor := 0);
      stale := stale.MarkFresh(now);
      if online == 0 {
        state := Degraded;
      } else {
        state := Online;
      }
      history := history + [e];
      return Ok;
    }

    /** proxy_exchange. */
    method Exchange(out: seq<byte>, image: array<byte>, env: Env) returns (st: Status)
      requires Valid() && image != lastGood && Plausible(env) && Later(config, history, env.end)
      modifies this`state, this`stats, this`stale, this`history, this`nextSeq, this`roundTrip, image, lastGood
      ensures Valid() && (state.Closed? <==> old(state).Closed?)
      ensures old(state).Closed? || |out| > outputBytes || image.Length > inputBytes ==>
                && st == (if old(state).Closed? then ErrState else ErrInval)
                && state == old(state) && history == old(history) && image[..] == old(image[..])
                && stats == old(stats) && stale == old(stale) && lastGood[..] == old(lastGood[..])
                && nextSeq == old(nextSeq) && roundTrip == old(roundTrip)
      ensures !old(state).Closed? && |out| <= outputBytes && image.Length <= inputBytes ==>
                var e := Event(env.end, image.Length, Ending(env, old(nextSeq), budget, false));
                && history == old(history) + [e]
                && image[..] == Image(config, old(history), e)
                && st == StatusOf(e.what) && roundTrip == Timed(old(roundTrip), env, e.what)
      ensures !old(state).Closed? && |out| <= outputBytes && image.Length <= inputBytes ==>
                var rtt := env.end - env.t0;
                && StatusTold(env, old(nextSeq), budget, false, st)
                && ImageTold(env, old(nextSeq), budget, st, image[..])
                && CountersTold(config, old(history), env.end, st, old(stats), stats,
                                state.Faulted? && !old(state).Faulted?)
                && StateTold(config, old(history), env.end, st, old(state), env.devicesOnline > 0, state)
                && roundTrip == if st == Ok then RoundTrip(rtt, Max(old(roundTrip).greatest, rtt)) else old(roundTrip)
    {
      hide Agrees, Image, Await, Low32, Ending, Answers, FitTo, StatusTold, CountersTold, StateTold;
      if state.Closed? {
        return ErrState;
      }
      if |out| > outputBytes || image.Length > inputBytes {
        return ErrInval;
      }
      StatusByRounds(env, nextSeq, budget, false);
      MissReasons(env, nextSeq, budget, false);
      ghost var h, good, state0, stats0, stale0 := history, lastGood[..], state, stats, stale;
      st := Conclude(image, env);
      ghost var e := history[|h|];
      MovesByStatus(config, h, e, state0, stats0, stale0, good, state, stats, stale, lastGood[..],
                    env.devicesOnline > 0);
    }

    /** The rest of proxy_exchange, once the call is accepted. */
    method Conclude(image: array<byte>, env: Env) returns (st: Status)
      requires Valid() && !state.Closed? && image != lastGood && image.Length <= inputBytes
      requires Plausible(env) && Later(config, history, env.end)
      modifies this`state, this`stats, this`stale, this`history, this`nextSeq, this`roundTrip, image, lastGood
      ensures Valid() && !state.Closed?
      ensures var e := Event(env.end, image.Length, Ending(env, old(nextSeq), budget, false));
              && history == old(history) + [e] && image[..] == Image(config, old(history), e)
              && st == StatusOf(e.what) && roundTrip == Timed(old(roundTrip), env, e.what)
    {
      hide Agrees, Image, Await, Low32;
      Low32Next(|history| + 1);
      var seqno := nextSeq;
      nextSeq := Low32(nextSeq + 1);
      if !env.pushed {
        st := Fail(image, ErrTimeout, env.end);
        return;
      }
      var v, _ := AwaitReply(env.t0, budget, seqno, env.rounds);
      if v.Expired? {
        st := Fail(image, ErrTimeout, env.end);
      } else if v.Failed? || v.frame.BadFrame? {
        st := Fail(image, if v.Failed? && v.io then ErrIo else ErrProto, env.end);
      } else {
        st := Succeed(v.frame.data, env.devicesOnline, image, env.end);
        roundTrip := RoundTrip(env.end - env.t0, Max(roundTrip.greatest, env.end - env.t0));
      }
    }
  }

  /** The in-process loopback adapter: outputs come straight back as inputs. */
  class Loopback {
    const config: Config
    const inputBytes: nat
    const outputBytes: nat
    const lastGood: array<byte>
    const mirror: array<byte>
    var state: AdapterState
    var stats: Stats
    var stale: Staleness
    var forceTimeouts: nat
    ghost var history: seq<Event>

    ghost predicate Valid()
      reads this, lastGood, mirror
    {
      && config.kind.InProcess? && config.size == lastGood.Length == mirror.Length == LOOPBACK_MAX_BYTES
      && mirror != lastGood
      && inputBytes <= LOOPBACK_MAX_BYTES && outputBytes <= LOOPBACK_MAX_BYTES
      && (state.Closed? || Agrees(config, history, state, stats, stale, lastGood[..]))
    }

    /** lb_open. */
    constructor (policy: Policy, window: nat, inputBytes: nat, outputBytes: nat, now: nat)
      requires inputBytes <= LOOPBACK_MAX_BYTES && outputBytes <= LOOPBACK_MAX_BYTES && now > 0
      ensures Valid() && !state.Closed? && history == [] && forceTimeouts == 0 && fresh(lastGood) && fresh(mirror)
      ensures config == Config(InProcess, policy, window, now, 512)
      ensures this.inputBytes == inputBytes && this.outputBytes == outputBytes
    {
      config := Config(InProcess, policy, window, now, LOOPBACK_MAX_BYTES);
      this.inputBytes, this.outputBytes := inputBytes, outputBytes;
      lastGood := new byte[LOOPBACK_MAX_BYTES](_ => 0);
      mirror := new byte[LOOPBACK_MAX_BYTES](_ => 0);
      state, stats, stale, forceTimeouts := Online, Stats(0, 0, 0, 0, 0, 0), Staleness(0, false), 0;
      history := [];
      new;
      assert lastGood[..] == LastGood(config, []);
    }

    /** lb_close: from now on every exchange is refused; closing again changes nothing. */
    method Close() returns (st: Status)
      requires Valid()
      modifies this`state
      ensures Valid() && state.Closed? && st == Ok
    {
      state := Closed;
      return Ok;
    }

    /** The forced-timeout branch of lb_exchange. */
    method Fail(image: array<byte>, now: nat) returns (st: Status)
      requires Valid() && !state.Closed? && image != lastGood && image != mirror
      requires image.Length <= inputBytes && Later(config, history, now)
      modifies this`state, this`stats, this`history, image
      ensures Valid() && !state.Closed? && st == ErrTimeout
      ensures history == old(history) + [Event(now, image.Length, Miss(ErrTimeout))]
      ensures image[..] == Image(config, old(history), Event(now, image.Length, Miss(ErrTimeout)))
    {
      hide Agrees;
      ghost var e := Event(now, image.Length, Miss(ErrTimeout));
      MissAgrees(config, history, state, stats, stale, lastGood[..], e);
      var age := stale.Age(config.openedAt, now);
      stats := stats.(timeouts := stats.timeouts + 1, staleFor := age);
      if age >= config.window {
        if !state.Faulted? {
          state := Faulted;
          stats := stats.(activations := stats.activations + 1);
        }
        ApplyFailsafe(config.policy, image, lastGood);
      } else {
        state := Degraded;
        ApplyFailsafe(Hold, image, lastGood);
      }
      history := history + [e];
      return ErrTimeout;
    }

    /** lb_exchange. */
    method Exchange(out: seq<byte>, image: array<byte>, now: nat) returns (st: Status)
      requires Valid() && image != lastGood && image != mirror && Later(config, history, now)
      modifies this`state, this`stats, this`stale, this`forceTimeouts, this`history, image, lastGood, mirror
      ensures Valid() && (state.Closed? <==> old(state).Closed?)
      ensures old(state).Closed? || |out| > outputBytes || image.Length > inputBytes ==>
                && st == (if old(state).Closed? then ErrState else ErrInval)
                && state == old(state) && history == old(history) && image[..] == old(image[..])
                && stats == old(stats) && stale == old(stale) && lastGood[..] == old(lastGood[..])
                && mirror[..] == old(mirror[..]) && forceTimeouts == old(forceTimeouts)
      ensures !old(state).Closed? && |out| <= outputBytes && image.Length <= inputBytes ==>
                var mirrored := out + old(mirror[..])[|out|..];
                var what := if old(forceTimeouts) > 0 then Miss(ErrTimeout) else Fresh(mirrored[..image.Length], true);
                var e := Event(now, image.Length, what);
                && mirror[..] == (if old(forceTimeouts) > 0 then old(mirror[..]) else mirrored)
                && forceTimeouts == (if old(forceTimeouts) > 0 then old(forceTimeouts) - 1 else 0)
                && history == old(history) + [e]
                && image[..] == Image(config, old(history), e)
                && st == StatusOf(e.what)
      ensures !old(state).Closed? && |out| <= outputBytes && image.Length <= inputBytes ==>
                && st == (if old(forceTimeouts) > 0 then ErrTimeout else Ok)
                && (st == Ok ==> image[..] == mirror[..image.Length])
                && stats.exchanges == old(stats).exchanges + (if st == Ok then 1 else 0)
                && stats.timeouts == old(stats).timeouts + (if st == Ok then 0 else 1)
                && stats.dataInvalid == old(stats).dataInvalid && stats.protocolErrors == old(stats).protocolErrors
                && stats.activations == old(stats).activations
                                        + (if state.Faulted? && !old(state).Faulted? then 1 else 0)
                && (if st == Ok then stats.staleFor == 0 else Since(config, old(history), now, stats.staleFor))
                && (state.Faulted? <==> && st != Ok && now - config.openedAt >= config.window
                                        && forall i :: 0 <= i < |old(history)| && Answered(old(history)[i]) ==>
                                                         now - old(history)[i].at >= config.window)
                && (!state.Faulted? ==> state == if st == Ok then Online else Degraded)
    {
      hide Agrees, Image, Since, FitTo;
      if state.Closed? {
        return ErrState;
      }
      if |out| > outputBytes || image.Length > inputBytes {
        return ErrInval;
      }
      ghost var h, good, state0, stats0, stale0 := history, lastGood[..], state, stats, stale;
      if forceTimeouts > 0 {
        forceTimeouts := forceTimeouts - 1;
        st := Fail(image, now);
      } else {
        forall i | 0 <= i < |out| {
          mirror[i] := out[i];
        }
        assert mirror[..] == out + old(mirror[..])[|out|..] && lastGood[..] == old(lastGood[..]);
        st := Succeed(image, now);
        FitWhole(mirror[..image.Length]);
      }
      Moves(config, h, history[|h|], state0, stats0, stale0, good, state, stats, stale, lastGood[..]);
    }

    /** The rest of lb_exchange: the mirror is the payload. */
    method Succeed(image: array<byte>, now: nat) returns (st: Status)
      requires Valid() && !state.Closed? && image != lastGood && image != mirror
      requires image.Length <= inputBytes && Later(config, history, now)
      modifies this`state, this`stats, this`stale, this`history, image, lastGood
      ensures Valid() && !state.Closed? && st == Ok
      ensures history == old(history) + [Event(now, image.Length, Fresh(mirror[..image.Length], true))]
      ensures image[..] == Image(config, old(history), Event(now, image.Length, Fresh(mirror[..image.Length], true)))
    {
      hide Agrees;
      ghost var e := Event(now, image.Length, Fresh(mirror[..image.Length], true));
      FreshAgrees(config, history, state, stats, stale, lastGood[..], e);
      TakePayload(mirror[..image.Length], image, lastGood);
      stats := stats.(exchanges := stats.exchanges + 1, staleFor := 0);
      stale := stale.MarkFresh(now);
      state := Online;
      history := history + [e];
      return Ok;
    }
  }
}

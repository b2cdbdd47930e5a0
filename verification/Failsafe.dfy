/**
 The failsafe contract every adapter keeps, as a function of the whole history of its
 exchanges: what the input image is, which state is reported and what the counters say.
 */
module Failsafe {
  import opened Words
  import opened Statuses

  datatype AdapterState = Closed | Opening | Online | Degraded | Faulted

  /** Out-of-process adapters start OPENING; the in-process one starts ONLINE. */
  datatype Kind = Remote | InProcess

  datatype Config = Config(kind: Kind, policy: Policy, window: nat, openedAt: nat, size: nat)

  /** How one exchange ended. `live` is false when a scanner answers without any device online. */
  datatype Outcome =
    | Fresh(payload: seq<byte>, live: bool)
    | Invalid
    | Miss(reason: Status)

  /** The status an exchange that ended so returns. */
  function StatusOf(o: Outcome): Status {
    match o
    case Fresh(_, _) => Ok
    case Invalid => ErrAgain
    case Miss(reason) => reason
  }

  /** One accepted call: when its outcome was recorded and how many input bytes it asked for. */
  datatype Event = Event(at: nat, inLen: nat, what: Outcome)

  /** plc_staleness_t and its two operations; `now` is the monotonic clock. */
  datatype Staleness = Staleness(lastGood: nat, haveGood: bool) {
    function MarkFresh(now: nat): Staleness {
      Staleness(now, true)
    }

    function Age(openedAt: nat, now: nat): nat {
      var from := if haveGood then lastGood else openedAt;
      if from != 0 && now > from then now - from else 0
    }
  }

  /** plc_adapter_apply_failsafe: the image of `n` bytes a policy yields. */
  function Apply(policy: Policy, lastGood: seq<byte>, n: nat): seq<byte>
    requires n <= |lastGood|
  {
    if policy.Clear? then Zeros(n) else lastGood[..n]
  }

  // ---------------------------------------------------------------- history

  predicate IsFresh(e: Event) {
    e.what.Fresh?
  }

  predicate IsInvalid(e: Event) {
    e.what.Invalid?
  }

  predicate IsMiss(e: Event) {
    e.what.Miss?
  }

  predicate IsProtocolError(e: Event) {
    e.what.Miss? && e.what.reason != ErrTimeout
  }

  predicate Answered(e: Event) {
    !e.what.Miss?
  }

  /** A history the clock can produce: positive, never going back, every call within the image. */
  predicate History(c: Config, h: seq<Event>) {
    && c.openedAt > 0
    && (forall i :: 0 <= i < |h| ==> c.openedAt <= h[i].at && h[i].inLen <= c.size)
    && (forall i, j :: 0 <= i < j < |h| ==> h[i].at <= h[j].at)
  }

  /** When the peer last answered: the instant staleness is measured from. */
  function Anchor(c: Config, h: seq<Event>): nat {
    if h == [] then c.openedAt
    else if Answered(h[|h| - 1]) then h[|h| - 1].at else Anchor(c, h[..|h| - 1])
  }

  predicate EverAnswered(h: seq<Event>) {
    exists i :: 0 <= i < |h| && Answered(h[i])
  }

  /** The miss `e` after `h` found the image stale for the whole failsafe window. */
  predicate Overdue(c: Config, h: seq<Event>, e: Event) {
    e.what.Miss? && e.at - Anchor(c, h) >= c.window
  }

  /** The last image that meant something, as kept after `h`. */
  function LastGood(c: Config, h: seq<Event>): (g: seq<byte>)
    requires History(c, h)
    ensures |g| == c.size
  {
    if h == [] then Zeros(c.size)
    else
      var e, g := h[|h| - 1], LastGood(c, h[..|h| - 1]);
      if e.what.Fresh? then FitTo(e.what.payload, e.inLen) + g[e.inLen..] else g
  }

  /** The input image the exchange `e` after `h` hands to the core. */
  function Image(c: Config, h: seq<Event>, e: Event): (image: seq<byte>)
    requires History(c, h) && e.inLen <= c.size
    ensures |image| == e.inLen
  {
    match e.what
    case Fresh(payload, _) => FitTo(payload, e.inLen)
    case Invalid => Apply(c.policy, LastGood(c, h), e.inLen)
    case Miss(_) => Apply(if Overdue(c, h, e) then c.policy else Hold, LastGood(c, h), e.inLen)
  }

  function StateAfter(c: Config, h: seq<Event>): AdapterState {
    if h == [] then (if c.kind.Remote? then Opening else Online)
    else
      var e := h[|h| - 1];
      match e.what
      case Fresh(_, live) => if live then Online else Degraded
      case Invalid => Degraded
      case Miss(_) =>
        if Overdue(c, h[..|h| - 1], e) then Faulted
        else if c.kind.Remote? && !EverAnswered(h) then Opening else Degraded
  }

  /** Events of a history that satisfy `p`. */
  function Count(h: seq<Event>, p: Event -> bool): nat {
    if h == [] then 0 else Count(h[..|h| - 1], p) + if p(h[|h| - 1]) then 1 else 0
  }

  /** Transitions into FAULTED along the history. */
  function Activations(c: Config, h: seq<Event>): nat {
    if h == [] then 0
    else
      var g := h[..|h| - 1];
      Activations(c, g) + if StateAfter(c, h).Faulted? && !StateAfter(c, g).Faulted? then 1 else 0
  }

  /** Microseconds without a fresh image, as last reported. */
  function StaleFor(c: Config, h: seq<Event>): nat {
    if h == [] || Answered(h[|h| - 1]) then 0 else Max(h[|h| - 1].at - Anchor(c, h), 0)
  }

  datatype Stats = Stats(
    exchanges: nat, timeouts: nat, staleFor: nat, activations: nat, dataInvalid: nat, protocolErrors: nat)

  function StatsAfter(c: Config, h: seq<Event>): Stats {
    Stats(Count(h, IsFresh), Count(h, IsMiss), StaleFor(c, h), Activations(c, h), Count(h, IsInvalid),
          Count(h, IsProtocolError))
  }

  // ---------------------------------------------------------------- what the history promises

  lemma {:induction false} AnchorWithin(c: Config, h: seq<Event>)
    requires History(c, h)
    ensures c.openedAt <= Anchor(c, h)
    ensures h != [] ==> Anchor(c, h) <= h[|h| - 1].at
    ensures Anchor(c, h) == c.openedAt || exists i :: 0 <= i < |h| && Answered(h[i]) && Anchor(c, h) == h[i].at
  {
    if h != [] && !Answered(h[|h| - 1]) {
      AnchorWithin(c, h[..|h| - 1]);
    }
  }

  /** A held byte is the byte of the latest fresh payload that reached it, or zero if none ever did. */
  lemma {:induction false} HeldByte(c: Config, h: seq<Event>, b: nat, k: int)
    requires History(c, h) && b < c.size && -1 <= k < |h|
    requires k >= 0 ==> h[k].what.Fresh? && b < h[k].inLen
    requires forall i :: k < i < |h| && h[i].what.Fresh? ==> h[i].inLen <= b
    ensures LastGood(c, h)[b] == if k >= 0 then FitTo(h[k].what.payload, h[k].inLen)[b] else 0
  {
    if h != [] && k < |h| - 1 {
      HeldByte(c, h[..|h| - 1], b, k);
    }
  }

  /**
   With calls that all ask for the same number of bytes, the last fresh payload being that of event
   `k`, or none before the first fresh reply: a miss inside the window returns that payload, or zeros,
   whatever the policy; an invalid reply, and a miss at or past the window, return what the policy says.
   */
  lemma HeldImage(c: Config, h: seq<Event>, e: Event, k: int)
    requires History(c, h) && -1 <= k < |h| && e.inLen <= c.size
    requires forall i :: 0 <= i < |h| ==> h[i].inLen == e.inLen
    requires k >= 0 ==> h[k].what.Fresh?
    requires forall i :: k < i < |h| ==> !h[i].what.Fresh?
    ensures var held := if k >= 0 then FitTo(h[k].what.payload, e.inLen) else Zeros(e.inLen);
            match e.what
            case Fresh(p, _) => Image(c, h, e) == FitTo(p, e.inLen)
            case Invalid => Image(c, h, e) == if c.policy.Clear? then Zeros(e.inLen) else held
            case Miss(_) =>
              Image(c, h, e) == if Overdue(c, h, e) && c.policy.Clear? then Zeros(e.inLen) else held
  {
    var held := if k >= 0 then FitTo(h[k].what.payload, e.inLen) else Zeros(e.inLen);
    forall b | 0 <= b < e.inLen
      ensures LastGood(c, h)[b] == held[b]
    {
      HeldByte(c, h, b, k);
    }
    assert LastGood(c, h)[..e.inLen] == held;
  }

  /** No answer, nor the opening, has an instant later than the one staleness is measured from. */
  lemma {:induction false} AnchorIsLatest(c: Config, h: seq<Event>, i: nat)
    requires History(c, h) && i < |h| && Answered(h[i])
    ensures h[i].at <= Anchor(c, h)
  {
    var n := |h| - 1;
    if !Answered(h[n]) {
      assert h[..n][i] == h[i];
      AnchorIsLatest(c, h[..n], i);
    }
  }

  /** FAULTED is reported exactly after a miss that comes a whole window after the opening and every answer. */
  lemma FaultedExactly(c: Config, h: seq<Event>)
    requires History(c, h) && h != []
    ensures var e := h[|h| - 1];
            StateAfter(c, h).Faulted? <==>
              && e.what.Miss? && e.at - c.openedAt >= c.window
              && forall i :: 0 <= i < |h| && Answered(h[i]) ==> e.at - h[i].at >= c.window
  {
    var g, e := h[..|h| - 1], h[|h| - 1];
    if e.what.Miss? {
      AnchorWithin(c, g);
      forall i | 0 <= i < |h| && Answered(h[i])
        ensures h[i].at <= Anchor(c, g)
      {
        assert g[i] == h[i];
        AnchorIsLatest(c, g, i);
      }
      if Anchor(c, g) != c.openedAt {
        var i :| 0 <= i < |g| && Answered(g[i]) && Anchor(c, g) == g[i].at;
        assert Answered(h[i]);
      }
    }
  }

  /** Event `i` is a miss that comes a whole window after the opening and every answer before it. */
  ghost predicate FaultAt(c: Config, h: seq<Event>, i: int)
    requires 0 <= i < |h|
  {
    && h[i].what.Miss? && h[i].at - c.openedAt >= c.window
    && forall j :: 0 <= j < i && !h[j].what.Miss? ==> h[i].at - h[j].at >= c.window
  }

  lemma FaultedAfter(c: Config, h: seq<Event>, i: int)
    requires History(c, h) && 0 <= i < |h|
    ensures StateAfter(c, h[..i + 1]).Faulted? <==> FaultAt(c, h, i)
  {
    var g := h[..i + 1];
    FaultedExactly(c, g);
    hide StateAfter;
    if FaultAt(c, h, i) {
      forall j | 0 <= j < |g| && Answered(g[j])
        ensures g[i].at - g[j].at >= c.window
      {
        assert g[j] == h[j];
      }
    }
    if StateAfter(c, g).Faulted? {
      forall j | 0 <= j < i && !h[j].what.Miss?
        ensures h[i].at - h[j].at >= c.window
      {
        assert Answered(g[j]);
      }
    }
  }

  /** The reported state, read off the last event and, after a miss, off the answers before it. */
  lemma StateExactly(c: Config, h: seq<Event>)
    requires History(c, h)
    ensures var s := StateAfter(c, h);
            if h == [] then s == if c.kind.Remote? then Opening else Online
            else
              var n := |h| - 1;
              match h[n].what
              case Fresh(_, live) => s == if live then Online else Degraded
              case Invalid => s == Degraded
              case Miss(_) =>
                && (s == Faulted <==> FaultAt(c, h, n))
                && (s == Opening <==>
                      !FaultAt(c, h, n) && c.kind.Remote? && forall i :: 0 <= i < |h| ==> h[i].what.Miss?)
                && (s == Degraded <==>
                      !FaultAt(c, h, n) && (c.kind.InProcess? || exists i :: 0 <= i < |h| && !h[i].what.Miss?))
  {
    if h != [] && h[|h| - 1].what.Miss? {
      FaultedAfter(c, h, |h| - 1);
      assert h[..|h|] == h;
      hide FaultAt;
      assert EverAnswered(h) <==> exists i :: 0 <= i < |h| && !h[i].what.Miss?;
    }
  }

  /**
   Byte `b` of the image, with event `k` the last fresh reply that reached it: the reply's own byte if
   the call brought one, zero under CLEAR once the fault window has passed or the reply was invalid,
   and otherwise the held byte, or zero before there was any.
   */
  lemma ImageByte(c: Config, h: seq<Event>, e: Event, b: nat, k: int)
    requires History(c, h + [e]) && b < e.inLen <= c.size && -1 <= k < |h|
    requires k >= 0 ==> h[k].what.Fresh? && b < h[k].inLen
    requires forall i :: k < i < |h| && h[i].what.Fresh? ==> h[i].inLen <= b
    ensures History(c, h)
    ensures var held := if k < 0 || b >= |h[k].what.payload| then 0 else h[k].what.payload[b];
            Image(c, h, e)[b]
            == if e.what.Fresh? then (if b < |e.what.payload| then e.what.payload[b] else 0)
               else if c.policy.Clear? && (e.what.Invalid? || FaultAt(c, h + [e], |h|)) then 0
               else held
  {
    var g := h + [e];
    assert g[..|h|] == h && g[|h|] == e;
    assert forall i :: 0 <= i < |h| ==> g[i] == h[i];
    HeldByte(c, h, b, k);
    FaultedAfter(c, g, |h|);
    assert g[..|h| + 1] == g;
    hide FaultAt, LastGood;
  }

  /** Indices of the events that satisfy `p`. */
  function Where(h: seq<Event>, p: Event -> bool): set<int> {
    set i | 0 <= i < |h| && p(h[i])
  }

  lemma {:induction false} CountIsSize(h: seq<Event>, p: Event -> bool)
    ensures Count(h, p) == |Where(h, p)|
  {
    if h != [] {
      var n := |h| - 1;
      CountIsSize(h[..n], p);
      assert Where(h, p) == Where(h[..n], p) + (if p(h[n]) then {n} else {});
    }
  }

  /** Event `i` leads into FAULTED. */
  ghost predicate Onset(c: Config, h: seq<Event>, i: int)
    requires 0 <= i < |h|
  {
    FaultAt(c, h, i) && (i == 0 || !FaultAt(c, h, i - 1))
  }

  ghost function Onsets(c: Config, h: seq<Event>): set<int> {
    set i | 0 <= i < |h| && Onset(c, h, i)
  }

  lemma OnsetPrefix(c: Config, h: seq<Event>, n: nat, i: int)
    requires 0 <= i < n <= |h|
    ensures Onset(c, h[..n], i) <==> Onset(c, h, i)
  {
    assert forall j :: 0 <= j <= i ==> h[..n][j] == h[j];
  }

  lemma OnsetsNext(c: Config, h: seq<Event>, n: nat)
    requires |h| == n + 1
    ensures Onsets(c, h) == Onsets(c, h[..n]) + (if Onset(c, h, n) then {n} else {})
  {
    forall i | 0 <= i < n
      ensures Onset(c, h[..n], i) <==> Onset(c, h, i)
    {
      OnsetPrefix(c, h, n, i);
    }
    hide Onset;
  }

  lemma FaultedOnset(c: Config, h: seq<Event>, n: nat)
    requires History(c, h) && |h| == n + 1
    ensures StateAfter(c, h).Faulted? && !StateAfter(c, h[..n]).Faulted? <==> Onset(c, h, n)
  {
    FaultedAfter(c, h, n);
    assert h[..n + 1] == h;
    if n > 0 {
      hide StateAfter, FaultAt;
      FaultedAfter(c, h, n - 1);
    }
  }

  lemma {:induction false} ActivationsAreOnsets(c: Config, h: seq<Event>)
    requires History(c, h)
    ensures Activations(c, h) == |Onsets(c, h)|
  {
    hide Onset, StateAfter;
    if h != [] {
      var n := |h| - 1;
      ActivationsAreOnsets(c, h[..n]);
      FaultedOnset(c, h, n);
      OnsetsNext(c, h, n);
    } else {
      assert Onsets(c, h) == {};
    }
  }

  /** What every counter counts, and what the reported staleness is measured from. */
  lemma CountersExactly(c: Config, h: seq<Event>)
    requires History(c, h)
    ensures var s := StatsAfter(c, h);
            && s.exchanges == |set i | 0 <= i < |h| && h[i].what.Fresh?|
            && s.dataInvalid == |set i | 0 <= i < |h| && h[i].what.Invalid?|
            && s.timeouts == |set i | 0 <= i < |h| && h[i].what.Miss?|
            && s.protocolErrors == |set i | 0 <= i < |h| && h[i].what.Miss? && h[i].what.reason != ErrTimeout|
            && s.activations == |Onsets(c, h)|
            && (h == [] || !h[|h| - 1].what.Miss? ==> s.staleFor == 0)
            && (h != [] && h[|h| - 1].what.Miss? ==>
                  StaleSince(c, h, h[|h| - 1].at - s.staleFor) && s.staleFor <= h[|h| - 1].at - c.openedAt)
  {
    CountIsSize(h, IsFresh);
    CountIsSize(h, IsInvalid);
    CountIsSize(h, IsMiss);
    CountIsSize(h, IsProtocolError);
    ActivationsAreOnsets(c, h);
    assert Where(h, IsFresh) == set i | 0 <= i < |h| && h[i].what.Fresh?;
    assert Where(h, IsInvalid) == set i | 0 <= i < |h| && h[i].what.Invalid?;
    assert Where(h, IsMiss) == set i | 0 <= i < |h| && h[i].what.Miss?;
    assert Where(h, IsProtocolError)
        == set i | 0 <= i < |h| && h[i].what.Miss? && h[i].what.reason != ErrTimeout;
    hide Onsets, Activations, Count, Where;
    AnchorWithin(c, h);
    AnchorSince(c, h);
  }

  /** `t` is when the peer last answered, or when the adapter was opened if it never has. */
  ghost predicate StaleSince(c: Config, h: seq<Event>, t: int) {
    && (t == c.openedAt || exists i :: 0 <= i < |h| && !h[i].what.Miss? && h[i].at == t)
    && forall i :: 0 <= i < |h| && !h[i].what.Miss? ==> h[i].at <= t
  }

  lemma AnchorSince(c: Config, h: seq<Event>)
    requires History(c, h)
    ensures StaleSince(c, h, Anchor(c, h))
  {
    AnchorWithin(c, h);
    forall i | 0 <= i < |h| && !h[i].what.Miss?
      ensures h[i].at <= Anchor(c, h)
    {
      AnchorIsLatest(c, h, i);
    }
    if Anchor(c, h) != c.openedAt {
      var i :| 0 <= i < |h| && Answered(h[i]) && Anchor(c, h) == h[i].at;
      assert !h[i].what.Miss?;
    }
  }

  /** Once overdue, every further miss is overdue too: a fault ends only with an answer. */
  lemma OverdueLasts(c: Config, h: seq<Event>, e: Event)
    requires History(c, h + [e]) && StateAfter(c, h).Faulted? && e.what.Miss?
    ensures Overdue(c, h, e) && StateAfter(c, h + [e]).Faulted?
  {
    assert (h + [e])[..|h|] == h && (h + [e])[|h|] == e && (h + [e])[|h| - 1] == h[|h| - 1];
  }

  /** Failsafe activates at most once more than the peer has answered. */
  lemma {:induction false} ActivationsBounded(c: Config, h: seq<Event>)
    requires History(c, h)
    ensures Activations(c, h) <= Count(h, Answered) + if StateAfter(c, h).Faulted? then 1 else 0
  {
    if h != [] {
      var g, e := h[..|h| - 1], h[|h| - 1];
      ActivationsBounded(c, g);
      if StateAfter(c, g).Faulted? && e.what.Miss? {
        assert g + [e] == h;
        OverdueLasts(c, g, e);
      }
    }
  }

  /** Every accepted call is counted once, and protocol errors are among the misses. */
  lemma {:induction false} CountersAddUp(c: Config, h: seq<Event>)
    ensures var s := StatsAfter(c, h);
            s.exchanges + s.timeouts + s.dataInvalid == |h| && s.protocolErrors <= s.timeouts
            && s.exchanges + s.dataInvalid == Count(h, Answered)
  {
    if h != [] {
      CountersAddUp(c, h[..|h| - 1]);
    }
  }
}

/** The conveyor interlock: its outputs in closed form over every sequence of scans. */
module Conveyor {
  import opened Words
  import opened Statuses
  import opened FunctionBlocks
  import opened ScanEngine

  /** Nanoseconds START must be held, and a lamp pulse lasts. */
  const START_DELAY := 500_000_000
  const LAMP_PULSE := 200_000_000

  /** One scan's inputs and elapsed time; STOP is wired normally closed. */
  datatype Scan = Scan(start: bool, stopNc: bool, part: bool, dt: int)

  // ---------------------------------------------------------------- the wiring, as traces

  function Starts(tr: seq<Scan>): seq<Sample> {
    seq(|tr|, i requires 0 <= i < |tr| => Sample(tr[i].start, tr[i].dt))
  }

  /** The start delay's output in scan `i`. */
  predicate DelayAt(tr: seq<Scan>, i: nat)
    requires i < |tr|
  {
    TonQ(Starts(tr[..i + 1]), START_DELAY)
  }

  function Delays(tr: seq<Scan>): (d: seq<bool>)
    ensures |d| == |tr|
  {
    seq(|tr|, i requires 0 <= i < |tr| => DelayAt(tr, i))
  }

  function Latches(tr: seq<Scan>): seq<Latch> {
    seq(|tr|, i requires 0 <= i < |tr| => Latch(Rises(Delays(tr), i), !tr[i].stopNc))
  }

  function Parts(tr: seq<Scan>): (p: seq<bool>)
    ensures |p| == |tr|
  {
    seq(|tr|, i requires 0 <= i < |tr| => tr[i].part)
  }

  function Flashes(tr: seq<Scan>): seq<Sample> {
    seq(|tr|, i requires 0 <= i < |tr| => Sample(Rises(Parts(tr), i), tr[i].dt))
  }

  function Counts(tr: seq<Scan>): seq<Pulse> {
    seq(|tr|, i requires 0 <= i < |tr| => Pulse(Rises(Parts(tr), i), !tr[i].stopNc))
  }

  // ---------------------------------------------------------------- what the operator is promised

  /** Time over the scans `a` to `b - 1`. */
  function Span(tr: seq<Scan>, a: nat, b: nat): nat
    requires a <= b <= |tr|
  {
    Elapsed(Starts(tr)[a..b])
  }

  /** START has been held from scan `a` to scan `e` without a break, and not before. */
  predicate Held(tr: seq<Scan>, a: nat, e: nat)
    requires e < |tr|
  {
    a <= e && (forall k :: a <= k <= e ==> tr[k].start) && (a > 0 ==> !tr[a - 1].start)
  }

  /** Scan `e` is the first at which the hold of START begun in scan `a` has served the delay. */
  predicate CompletesFrom(tr: seq<Scan>, a: nat, e: nat)
    requires e < |tr|
  {
    Held(tr, a, e) && Span(tr, a, e + 1) >= 500_000_000 && Span(tr, a, e) < 500_000_000
  }

  ghost predicate Completes(tr: seq<Scan>, e: nat)
    requires e < |tr|
  {
    exists a: nat :: CompletesFrom(tr, a, e)
  }

  /** A hold of START was completed in scan `e` and STOP has not been pressed from then on. */
  ghost predicate RunningSince(tr: seq<Scan>, e: nat) {
    e < |tr| && Completes(tr, e) && forall k :: e <= k < |tr| ==> tr[k].stopNc
  }

  ghost predicate MotorOn(tr: seq<Scan>) {
    exists e: nat :: RunningSince(tr, e)
  }

  /** A part arrives in scan `i`. */
  predicate PartArrives(tr: seq<Scan>, i: int)
    requires 0 <= i < |tr|
  {
    tr[i].part && (i == 0 || !tr[i - 1].part)
  }

  /** Parts arrived since the last scan with STOP pressed. */
  function PartCount(tr: seq<Scan>): nat {
    if tr == [] || !tr[|tr| - 1].stopNc then 0
    else PartCount(tr[..|tr| - 1]) + if PartArrives(tr, |tr| - 1) then 1 else 0
  }

  /** A flash of the lamp begun in scan `e` is on: it has just begun, or 200 ms have not passed since. */
  predicate Flashing(tr: seq<Scan>, e: int)
    requires 0 <= e < |tr|
  {
    PartArrives(tr, e) && (e == |tr| - 1 || Span(tr, e + 1, |tr|) < 200_000_000)
  }

  /** A part that arrives while the lamp is dark begins a flash; one that arrives during a flash does not. */
  ghost predicate LampOn(tr: seq<Scan>)
    decreases |tr|
  {
    exists e :: 0 <= e < |tr| && Flashing(tr, e) && !LampOn(tr[..e])
  }

  // ---------------------------------------------------------------- one more scan

  lemma StartsNext(tr: seq<Scan>, x: Scan)
    ensures Starts(tr + [x]) == Starts(tr) + [Sample(x.start, x.dt)]
    ensures Parts(tr + [x]) == Parts(tr) + [x.part]
  {}

  lemma DelaysNext(tr: seq<Scan>, x: Scan)
    ensures Delays(tr + [x]) == Delays(tr) + [TonQ(Starts(tr + [x]), START_DELAY)]
  {
    var t := tr + [x];
    assert t[..|t|] == t;
    forall i | 0 <= i < |tr|
      ensures DelayAt(t, i) == DelayAt(tr, i)
    {
      assert t[..i + 1] == tr[..i + 1];
    }
  }

  lemma LatchesNext(tr: seq<Scan>, x: Scan)
    ensures Latches(tr + [x]) == Latches(tr) + [Latch(Rises(Delays(tr + [x]), |tr|), !x.stopNc)]
  {
    DelaysNext(tr, x);
    hide Delays;
    forall i | 0 <= i < |tr|
      ensures Latches(tr + [x])[i] == Latches(tr)[i]
    {
      assert Rises(Delays(tr + [x]), i) == Rises(Delays(tr), i);
    }
  }

  lemma EdgesNext(tr: seq<Scan>, x: Scan)
    ensures Flashes(tr + [x]) == Flashes(tr) + [Sample(Rises(Parts(tr + [x]), |tr|), x.dt)]
    ensures Counts(tr + [x]) == Counts(tr) + [Pulse(Rises(Parts(tr + [x]), |tr|), !x.stopNc)]
  {}

  // ---------------------------------------------------------------- the promises hold

  /** The start delay's output in scan `e`, by the hold of START it ends. */
  lemma DelayIsSpan(tr: seq<Scan>, e: nat) returns (a: nat)
    requires e < |tr|
    ensures if tr[e].start then Held(tr, a, e) && (DelayAt(tr, e) <==> Span(tr, a, e + 1) >= START_DELAY)
            else !DelayAt(tr, e)
  {
    var p := Starts(tr[..e + 1]);
    a := RunStart(p);
    assert p == Starts(tr)[..e + 1];
    assert p[a..] == Starts(tr)[a..e + 1];
    forall k | a <= k <= e
      ensures tr[k].start
    {
      assert p[k].on;
    }
    if a > 0 {
      assert p[a - 1].on == tr[a - 1].start;
    }
    assert p[e].on == tr[e].start;
  }

  lemma HoldIsUnique(tr: seq<Scan>, a: nat, b: nat, e: nat)
    requires e < |tr| && Held(tr, a, e) && Held(tr, b, e)
    ensures a == b
  {}

  /** The start edge fires exactly in the scans that complete a hold of START. */
  lemma EdgeIsCompletion(tr: seq<Scan>, e: nat)
    requires e < |tr|
    ensures Rises(Delays(tr), e) <==> Completes(tr, e)
  {
    hide Span, DelayAt;
    var a := DelayIsSpan(tr, e);
    if tr[e].start {
      if a < e {
        var b := DelayIsSpan(tr, e - 1);
        assert Held(tr, a, e - 1);
        HoldIsUnique(tr, a, b, e - 1);
      } else {
        NoSpan(tr, e);
        if e > 0 {
          var b := DelayIsSpan(tr, e - 1);
        }
      }
      assert Rises(Delays(tr), e) <==> CompletesFrom(tr, a, e);
      forall b: nat | CompletesFrom(tr, b, e)
        ensures b == a
      {
        HoldIsUnique(tr, a, b, e);
      }
    }
  }

  lemma NoSpan(tr: seq<Scan>, e: nat)
    requires e <= |tr|
    ensures Span(tr, e, e) == 0
  {}

  lemma MotorIsLatch(tr: seq<Scan>)
    ensures Latched(Latches(tr)) <==> MotorOn(tr)
  {
    hide Delays, Completes;
    var l := Latches(tr);
    forall e: nat | e < |tr|
      ensures SetSince(l, e) <==> RunningSince(tr, e)
    {
      EdgeIsCompletion(tr, e);
      assert forall k :: 0 <= k < |tr| ==> l[k].reset == !tr[k].stopNc;
    }
    if Latched(l) {
      var s :| SetSince(l, s);
      assert RunningSince(tr, s);
    }
    if MotorOn(tr) {
      var e: nat :| RunningSince(tr, e);
      assert SetSince(l, e);
    }
  }

  /** The counter's own edge detector, behind the program's, neither loses nor adds a part. */
  lemma {:induction false} CountIsParts(tr: seq<Scan>)
    ensures Edges(Counts(tr)) == PartCount(tr)
  {
    if tr != [] {
      var p, x := tr[..|tr| - 1], tr[|tr| - 1];
      assert tr == p + [x];
      CountIsParts(p);
      EdgesNext(p, x);
      StartsNext(p, x);
      var c := Counts(tr);
      assert c[..|c| - 1] == Counts(p);
    }
  }

  lemma ArrivalsNext(tr: seq<Scan>, n: nat, z: int)
    requires |tr| == n + 1 && -1 <= z < n
    ensures Arrivals(tr, z) == Arrivals(tr[..n], z) + if PartArrives(tr, n) then {n} else {}
  {
    forall i | 0 <= i < n
      ensures PartArrives(tr[..n], i) <==> PartArrives(tr, i)
    {}
    hide PartArrives;
  }

  ghost function Arrivals(tr: seq<Scan>, z: int): set<int>
    requires -1 <= z
  {
    set i | z < i < |tr| && PartArrives(tr, i)
  }

  /** The count is the number of scans in which a part arrived after the last scan `z` with STOP pressed. */
  lemma {:induction false} PartCountSinceStop(tr: seq<Scan>, z: int)
    requires -1 <= z < |tr| && (z >= 0 ==> !tr[z].stopNc) && forall i :: z < i < |tr| ==> tr[i].stopNc
    ensures PartCount(tr) == |Arrivals(tr, z)|
  {
    if z == |tr| - 1 {
      assert Arrivals(tr, z) == {};
    } else {
      var p, n := tr[..|tr| - 1], |tr| - 1;
      PartCountSinceStop(p, z);
      ArrivalsNext(tr, n, z);
    }
  }

  lemma {:induction false} SameElapsed(a: seq<Sample>, b: seq<Sample>)
    requires |a| == |b| && forall i :: 0 <= i < |a| ==> a[i].dt == b[i].dt
    ensures Elapsed(a) == Elapsed(b)
  {
    if a != [] {
      SameElapsed(a[..|a| - 1], b[..|b| - 1]);
    }
  }

  lemma FlashSpan(tr: seq<Scan>, e: int)
    requires 0 <= e < |tr|
    ensures Elapsed(Flashes(tr)[e + 1..]) == Span(tr, e + 1, |tr|)
  {
    SameElapsed(Flashes(tr)[e + 1..], Starts(tr)[e + 1..|tr|]);
  }

  /** The lamp's pulse sees a rise exactly in the scans in which a part arrives. */
  lemma RiseIsArrival(tr: seq<Scan>, i: int)
    requires 0 <= i < |tr|
    ensures RisesLast(Flashes(tr)[..i + 1]) <==> PartArrives(tr, i)
  {
    var f := Flashes(tr)[..i + 1];
    assert IsOn(f) == Rises(Parts(tr), i) && IsOn(f[..i]) == (i > 0 && Rises(Parts(tr), i - 1));
  }

  /** The latest pulse began with a part in the dark, and every part since came during a pulse. */
  lemma {:induction false} PulseByParts(tr: seq<Scan>, n: nat)
    requires n <= |tr|
    ensures var f := Flashes(tr);
            var s := PulseStart(f[..n], LAMP_PULSE);
            && (s >= 0 ==> PartArrives(tr, s) && !PulseOn(f[..s], LAMP_PULSE))
            && forall e :: s < e < n && PartArrives(tr, e) ==> PulseOn(f[..e], LAMP_PULSE)
  {
    hide PulseOn, Flashes;
    var f := Flashes(tr);
    assert |f| == |tr| by {
      FlashesLength(tr);
    }
    if n > 0 {
      PulseByParts(tr, n - 1);
      RiseIsArrival(tr, n - 1);
      assert f[..n][..n - 1] == f[..n - 1];
    }
  }

  lemma FlashesLength(tr: seq<Scan>)
    ensures |Flashes(tr)| == |tr|
  {}

  /** A pulse begun in scan `e` that is still short of its time at the end is on at every scan between. */
  lemma PulseBetween(f: seq<Sample>, e: nat, n: nat, pt: nat)
    requires e < n < |f| && PulseStart(f[..e + 1], pt) == e && Elapsed(f[e + 1..]) < pt
    ensures PulseOn(f[..n], pt)
  {
    forall k | e <= k < |f|
      ensures FunctionBlocks.After(f, e, k) < pt
    {
      assert f[e + 1..][..k - e] == f[e + 1..k + 1];
      ElapsedGrows(f[e + 1..], k - e);
    }
    PulseLasts(f, e, n - 1, pt);
  }

  lemma PulseIsFlash(tr: seq<Scan>) returns (e: int)
    ensures PulseOn(Flashes(tr), LAMP_PULSE) ==>
              0 <= e < |tr| <= |Flashes(tr)| && Flashing(tr, e) && !PulseOn(Flashes(tr)[..e], LAMP_PULSE)
  {
    FlashesLength(tr);
    var f := Flashes(tr);
    hide Flashes, Elapsed, PulseStart, Span, PartArrives;
    assert f[..|tr|] == f;
    PulseByParts(tr, |tr|);
    e := PulseStart(Flashes(tr), LAMP_PULSE);
    if e >= 0 {
      FlashSpan(tr, e);
    }
  }

  lemma FlashIsPulse(tr: seq<Scan>, e: int)
    requires 0 <= e < |tr| <= |Flashes(tr)| && Flashing(tr, e) && !PulseOn(Flashes(tr)[..e], LAMP_PULSE)
    ensures PulseOn(Flashes(tr), LAMP_PULSE)
  {
    var f := Flashes(tr);
    FlashesLength(tr);
    assert f[..|tr|] == f;
    PulseByParts(tr, |tr|);
    FlashSpan(tr, e);
    var s := PulseStart(f, LAMP_PULSE);
    hide Flashes, Elapsed, PulseStart, Span;
    if e < s {
      PulseFrom(tr, e);
      PulseBetween(f, e, s, LAMP_PULSE);
    }
  }

  /** The lamp's pulse timer does what the operator is promised of the lamp. */
  lemma {:induction false} LampIsPulse(tr: seq<Scan>)
    ensures PulseOn(Flashes(tr), LAMP_PULSE) <==> LampOn(tr)
    decreases |tr|
  {
    hide PulseOn, Flashes, Flashing;
    FlashesLength(tr);
    forall e | 0 <= e < |tr|
      ensures PulseOn(Flashes(tr)[..e], LAMP_PULSE) <==> LampOn(tr[..e])
    {
      FlashesPrefix(tr, e);
      LampIsPulse(tr[..e]);
    }
    var s := PulseIsFlash(tr);
    if LampOn(tr) {
      var e :| 0 <= e < |tr| && Flashing(tr, e) && !LampOn(tr[..e]);
      FlashIsPulse(tr, e);
    }
  }

  lemma PulseFrom(tr: seq<Scan>, e: nat)
    requires e < |tr| && PartArrives(tr, e) && !PulseOn(Flashes(tr)[..e], LAMP_PULSE)
    ensures PulseStart(Flashes(tr)[..e + 1], LAMP_PULSE) == e
  {
    RiseIsArrival(tr, e);
    assert Flashes(tr)[..e + 1][..e] == Flashes(tr)[..e];
  }

  lemma FlashesPrefix(tr: seq<Scan>, e: nat)
    requires e <= |tr|
    ensures Flashes(tr[..e]) == Flashes(tr)[..e]
  {}

  lemma SpanGrows(tr: seq<Scan>, a: nat, b: nat, c: nat)
    requires a <= b <= c <= |tr|
    ensures Span(tr, a, b) <= Span(tr, a, c)
  {
    var s := Starts(tr)[a..c];
    ElapsedGrows(s, b - a);
    assert s[..b - a] == Starts(tr)[a..b];
  }

  /** A stopped conveyor restarts only after START has been released. */
  lemma RestartNeedsRelease(tr: seq<Scan>, d: nat, e: nat)
    requires d < e < |tr| && Completes(tr, d) && Completes(tr, e)
    ensures exists k :: d < k < e && !tr[k].start
  {
    hide Span;
    var a: nat :| CompletesFrom(tr, a, d);
    var b: nat :| CompletesFrom(tr, b, e);
    if b <= d {
      HoldIsUnique(tr, a, b, d);
      SpanGrows(tr, a, d + 1, e);
    } else {
      assert !tr[b - 1].start;
    }
  }

  /**
   In the real time of the completed scans' starts: START held from scan `a` on without a break, and
   scan `e` the first that starts 500 ms after the last scan before the hold, or the first scan of all.
   */
  predicate ServedFrom(starts: seq<int>, tr: seq<Scan>, a: nat, e: nat)
    requires |starts| == |tr| && 0 < e < |tr|
  {
    var t := if a == 0 then 0 else a - 1;
    Held(tr, a, e) && starts[e] - starts[t] >= 500_000_000 && starts[e - 1] - starts[t] < 500_000_000
  }

  lemma CompletionInRealTime(starts: seq<int>, tr: seq<Scan>, a: nat, e: nat)
    requires Sampled(starts, Starts(tr)) && Monotone(starts) && |starts| == |tr| && e < |tr|
    ensures CompletesFrom(tr, a, e) <==> e > 0 && ServedFrom(starts, tr, a, e)
  {
    if a <= e {
      hide Elapsed, Sampled, Monotone, Starts;
      ElapsedTelescopes(starts, Starts(tr), a, e + 1);
      if e > 0 {
        ElapsedTelescopes(starts, Starts(tr), a, e);
      }
    }
  }

  /** START has been held for a real 500 ms, and STOP has not been pressed since the scan that completed the hold. */
  ghost predicate MotorDue(starts: seq<int>, tr: seq<Scan>)
    requires |starts| == |tr|
  {
    exists a: nat, e: nat :: 0 < e < |tr| && ServedFrom(starts, tr, a, e) && forall k :: e <= k < |tr| ==> tr[k].stopNc
  }

  /** Sampled once per completed scan, whatever scans overran or were aborted, the motor is on exactly then. */
  lemma MotorInRealTime(starts: seq<int>, tr: seq<Scan>)
    requires Sampled(starts, Starts(tr)) && Monotone(starts) && |starts| == |tr|
    ensures MotorOn(tr) <==> MotorDue(starts, tr)
  {
    hide CompletesFrom, ServedFrom, Sampled, Monotone;
    forall a: nat, e: nat | e < |tr|
      ensures CompletesFrom(tr, a, e) <==> e > 0 && ServedFrom(starts, tr, a, e)
    {
      CompletionInRealTime(starts, tr, a, e);
    }
    if MotorOn(tr) {
      var e: nat :| RunningSince(tr, e);
      var a: nat :| CompletesFrom(tr, a, e);
      assert 0 < e < |tr| && ServedFrom(starts, tr, a, e);
    }
    if a: nat, e: nat :| 0 < e < |tr| && ServedFrom(starts, tr, a, e) && forall k :: e <= k < |tr| ==> tr[k].stopNc {
      assert CompletesFrom(tr, a, e);
      assert RunningSince(tr, e);
    }
  }

  /** In real time: the flash begun in scan `e` is on, 200 ms not having passed since that scan started. */
  predicate FlashDue(starts: seq<int>, tr: seq<Scan>, e: int)
    requires |starts| == |tr| && 0 <= e < |tr|
  {
    PartArrives(tr, e) && (e == |tr| - 1 || starts[|tr| - 1] - starts[e] < 200_000_000)
  }

  ghost predicate LampDue(starts: seq<int>, tr: seq<Scan>)
    requires |starts| == |tr|
    decreases |tr|
  {
    exists e :: 0 <= e < |tr| && FlashDue(starts, tr, e) && !LampDue(starts[..e], tr[..e])
  }

  lemma FlashInRealTime(starts: seq<int>, tr: seq<Scan>, e: int)
    requires Sampled(starts, Starts(tr)) && Monotone(starts) && |starts| == |tr| && 0 <= e < |tr|
    ensures Flashing(tr, e) <==> FlashDue(starts, tr, e)
  {
    if e < |tr| - 1 {
      ElapsedTelescopes(starts, Starts(tr), e + 1, |tr|);
    }
  }

  lemma SampledPrefix(starts: seq<int>, tr: seq<Scan>, e: nat)
    requires Sampled(starts, Starts(tr)) && Monotone(starts) && |starts| == |tr| && e <= |tr|
    ensures Sampled(starts[..e], Starts(tr[..e])) && Monotone(starts[..e])
  {
    var d := Times(Starts(tr[..e]));
    forall i | 0 <= i < |d|
      ensures d[i] == Gap(starts[..e], i)
    {
      assert d[i] == Times(Starts(tr))[i];
    }
  }

  /** The lamp flashes for a real 200 ms after a part, however the scans fall. */
  lemma {:induction false} LampInRealTime(starts: seq<int>, tr: seq<Scan>)
    requires Sampled(starts, Starts(tr)) && Monotone(starts) && |starts| == |tr|
    ensures LampOn(tr) <==> LampDue(starts, tr)
    decreases |tr|
  {
    hide Flashing, FlashDue, Sampled, Monotone, Starts;
    forall e | 0 <= e < |tr|
      ensures Flashing(tr, e) <==> FlashDue(starts, tr, e)
      ensures LampOn(tr[..e]) <==> LampDue(starts[..e], tr[..e])
    {
      FlashInRealTime(starts, tr, e);
      SampledPrefix(starts, tr, e);
      LampInRealTime(starts[..e], tr[..e]);
    }
  }

  lemma NothingYet()
    ensures Starts([]) == Flashes([]) == [] && Delays([]) == Parts([]) == [] && Latches([]) == [] && Counts([]) == []
  {}

  /** The state of the program: its function blocks, wired once per scan. */
  class DemoProgram {
    const startDelay: Ton
    const startEdge: RTrig
    const running: Rs
    const partEdge: RTrig
    const lampPulse: Tp
    const partCounter: Ctu
    ghost var trace: seq<Scan>

    ghost predicate Wired()
      reads this, startDelay, startEdge, running, partEdge, lampPulse, partCounter
    {
      && startEdge != partEdge
      && startDelay.PT == START_DELAY && lampPulse.PT == LAMP_PULSE
      && startDelay.trace == Starts(trace) && startEdge.trace == Delays(trace) && running.trace == Latches(trace)
      && partEdge.trace == Parts(trace) && lampPulse.trace == Flashes(trace) && partCounter.trace == Counts(trace)
    }

    ghost predicate Valid()
      reads this, startDelay, startEdge, running, partEdge, lampPulse, partCounter
    {
      && Wired()
      && startDelay.Valid() && startEdge.Valid() && running.Valid()
      && partEdge.Valid() && lampPulse.Valid() && partCounter.Valid()
    }

    constructor ()
      ensures Valid() && trace == []
      ensures fresh(startDelay) && fresh(startEdge) && fresh(running)
      ensures fresh(partEdge) && fresh(lampPulse) && fresh(partCounter)
    {
      NothingYet();
      hide Starts, Delays, Latches, Parts, Flashes, Counts;
      hide Ton.Valid, RTrig.Valid, Rs.Valid, Tp.Valid, Ctu.Valid;
      startDelay := new Ton(START_DELAY);
      startEdge := new RTrig();
      running := new Rs();
      partEdge := new RTrig();
      lampPulse := new Tp(LAMP_PULSE);
      partCounter := new Ctu(1000);
      trace := [];
    }

    /** demo_program: one scan, from the inputs it reads to the outputs it writes. */
    method Run(start: bool, stopNc: bool, part: bool, dt: int) returns (motor: bool, lamp: bool, count: int)
      requires Valid()
      modifies this, startDelay, startEdge, running, partEdge, lampPulse, partCounter
      ensures Valid() && trace == old(trace) + [Scan(start, stopNc, part, dt)]
      ensures motor <==> MotorOn(trace)
      ensures lamp <==> LampOn(trace)
      ensures count == Min(PartCount(trace), 32767)
    {
      hide Starts, Delays, Latches, Parts, Flashes, Counts, MotorOn, LampOn, PartCount, CountedScans, OnFor;
      hide TonQ, OnTime, Latched, PulseStart, PulseOn, IsOn, Elapsed, Edges, Rises, RestTime;
      hide Ton.Valid, RTrig.Valid, Rs.Valid, Tp.Valid, Ctu.Valid;
      ghost var x := Scan(start, stopNc, part, dt);
      StartsNext(trace, x);
      DelaysNext(trace, x);
      LatchesNext(trace, x);
      EdgesNext(trace, x);
      trace := trace + [x];
      var stopPressed := !stopNc;
      startDelay.Run(start, dt);
      startEdge.Run(startDelay.Q);
      running.Run(startEdge.Q, stopPressed);
      partEdge.Run(part);
      lampPulse.Run(partEdge.Q, dt);
      partCounter.Run(partEdge.Q, stopPressed);
      MotorIsLatch(trace);
      LampIsPulse(trace);
      CountIsParts(trace);
      motor, lamp, count := running.Q1, lampPulse.Q, partCounter.CV;
    }
  }

  /** The program has seen exactly the completed scans of the engine, with the times it was handed. */
  ghost predicate InStep(rt: Runtime, p: DemoProgram)
    reads rt, p
  {
    Times(Starts(p.trace)) == rt.dts && |p.trace| == |rt.starts| && Monotone(rt.starts)
  }

  /**
   The engine's scan with the interlock as its program, begun at `t0` on a clock that does not go
   back: an aborted scan leaves the program alone, and after every completed one the motor follows
   real time.
   */
  method ScanProgram(rt: Runtime, p: DemoProgram, t0: int, io: Status, start: bool, stopNc: bool, part: bool)
    returns (st: Status, motor: bool, lamp: bool, count: int)
    requires rt.Valid() && p.Valid() && InStep(rt, p)
    requires rt.starts != [] ==> rt.starts[|rt.starts| - 1] <= t0
    modifies rt, p, p.startDelay, p.startEdge, p.running, p.partEdge, p.lampPulse, p.partCounter
    ensures rt.Valid() && p.Valid() && InStep(rt, p) && st == io
    ensures !io.Ok? && !rt.continueOnIoFault ==> rt.starts == old(rt.starts) && p.trace == old(p.trace)
    ensures io.Ok? || rt.continueOnIoFault ==>
              && rt.starts == old(rt.starts) + [t0]
              && p.trace == old(p.trace) + [Scan(start, stopNc, part, Gap(rt.starts, |rt.starts| - 1))]
              && (motor <==> MotorDue(rt.starts, p.trace))
              && (lamp <==> LampDue(rt.starts, p.trace))
              && count == Min(PartCount(p.trace), 32767)
  {
    hide MotorOn, MotorDue, LampOn, LampDue, PartCount, DemoProgram.Valid;
    motor, lamp, count := false, false, 0;
    var dt;
    st, dt := rt.ScanOnce(t0, io);
    if io.Ok? || rt.continueOnIoFault {
      ghost var was := p.trace;
      motor, lamp, count := p.Run(start, stopNc, part, dt);
      TimesNext(was, Scan(start, stopNc, part, dt));
      MotorInRealTime(rt.starts, p.trace);
      LampInRealTime(rt.starts, p.trace);
    }
  }

  lemma TimesNext(tr: seq<Scan>, x: Scan)
    ensures Times(Starts(tr + [x])) == Times(Starts(tr)) + [x.dt]
  {}
}

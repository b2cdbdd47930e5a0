/**
 IEC 61131-3 function blocks (edge detectors, bistable, timers, up counter).  Every block's
 outputs are given in closed form over the whole trace of inputs it has been run on.
 */
module FunctionBlocks {
  import opened Words

  const INT16_MAX := 32767

  /** A timer's input in one scan, and the time since the scan before. */
  datatype Sample = Sample(on: bool, dt: int)

  /** Time covered by a stretch of scans; a clock step backwards counts as none. */
  function Elapsed(tr: seq<Sample>): nat {
    if tr == [] then 0 else Elapsed(tr[..|tr| - 1]) + Max(tr[|tr| - 1].dt, 0)
  }

  /** Time adds up over stretches, and a single scan counts its step if that goes forward. */
  lemma {:induction false} ElapsedAdds(a: seq<Sample>, b: seq<Sample>)
    ensures Elapsed(a + b) == Elapsed(a) + Elapsed(b)
    ensures |b| == 1 ==> Elapsed(b) == if b[0].dt > 0 then b[0].dt else 0
    decreases |b|
  {
    if b == [] {
      assert a + b == a;
    } else {
      var n := |b| - 1;
      ElapsedAdds(a, b[..n]);
      assert (a + b)[..|a + b| - 1] == a + b[..n];
    }
  }

  lemma NoTime()
    ensures Elapsed([]) == 0
  {}

  lemma ElapsedNext(tr: seq<Sample>, x: Sample, a: nat)
    requires a <= |tr|
    ensures Elapsed((tr + [x])[a..]) == Elapsed(tr[a..]) + Max(x.dt, 0)
  {
    var t := (tr + [x])[a..];
    assert t[..|t| - 1] == tr[a..] && t[|t| - 1] == x;
  }

  lemma {:induction false} ElapsedGrows(tr: seq<Sample>, b: nat)
    requires b <= |tr|
    ensures Elapsed(tr[..b]) <= Elapsed(tr)
  {
    if b < |tr| {
      var p := tr[..|tr| - 1];
      ElapsedGrows(p, b);
      assert p[..b] == tr[..b];
    } else {
      assert tr[..b] == tr;
    }
  }

  // ---------------------------------------------------------------- edges and bistable

  /** The signal rises in scan `i`. */
  predicate Rises(tr: seq<bool>, i: int)
    requires 0 <= i < |tr|
  {
    tr[i] && (i == 0 || !tr[i - 1])
  }

  class RTrig {
    var CLK: bool
    var Q: bool
    var prev: bool
    ghost var trace: seq<bool>

    ghost predicate Valid()
      reads this
    {
      && prev == (trace != [] && trace[|trace| - 1])
      && Q == (trace != [] && Rises(trace, |trace| - 1))
    }

    constructor ()
      ensures Valid() && trace == []
    {
      CLK, Q, prev, trace := false, false, false, [];
    }

    method Run(clk: bool)
      requires Valid()
      modifies this
      ensures Valid() && trace == old(trace) + [clk]
      ensures Q <==> Rises(trace, |trace| - 1)
      ensures Q <==> clk && (old(trace) == [] || !old(trace)[|old(trace)| - 1])
    {
      CLK := clk;
      Q := CLK && !prev;
      prev := CLK;
      trace := trace + [clk];
    }
  }

  datatype Latch = Latch(set_: bool, reset: bool)

  /** Some scan set the latch and no scan from there on reset it. */
  ghost predicate Latched(tr: seq<Latch>) {
    exists s :: SetSince(tr, s)
  }

  predicate SetSince(tr: seq<Latch>, s: int) {
    0 <= s < |tr| && tr[s].set_ && forall k :: s <= k < |tr| ==> !tr[k].reset
  }

  /** Reset-dominant bistable. */
  class Rs {
    var S: bool
    var R1: bool
    var Q1: bool
    ghost var trace: seq<Latch>

    ghost predicate Valid()
      reads this
    {
      Q1 <==> Latched(trace)
    }

    constructor ()
      ensures Valid() && trace == []
    {
      S, R1, Q1, trace := false, false, false, [];
    }

    method Run(s: bool, r1: bool)
      requires Valid()
      modifies this
      ensures Valid() && trace == old(trace) + [Latch(s, r1)]
      ensures Q1 <==> Latched(trace)
      ensures Q1 == (!r1 && (s || old(Q1)))
    {
      LatchedNext(trace, Latch(s, r1));
      S, R1 := s, r1;
      Q1 := !R1 && (S || Q1);
      trace := trace + [Latch(s, r1)];
    }
  }

  lemma LatchedNext(tr: seq<Latch>, x: Latch)
    ensures Latched(tr + [x]) <==> !x.reset && (x.set_ || Latched(tr))
  {
    var t := tr + [x];
    if Latched(t) {
      var s :| SetSince(t, s);
      assert t[|tr|] == x;
      if !x.set_ {
        assert forall k :: 0 <= k < |tr| ==> t[k] == tr[k];
        assert SetSince(tr, s);
      }
    }
    if !x.reset {
      if x.set_ {
        assert SetSince(t, |tr|);
      } else if Latched(tr) {
        var s :| SetSince(tr, s);
        assert SetSince(t, s);
      }
    }
  }

  // ---------------------------------------------------------------- timers

  /** ET saturates at PT. */
  function Accumulate(et: int, dt: int, pt: int): int {
    var d := if dt < 0 then 0 else dt;
    if et >= pt then pt else if et + d > pt then pt else et + d
  }

  /** Where the unbroken run of true inputs at the end of the trace begins. */
  function RunStart(tr: seq<Sample>): (a: nat)
    ensures a <= |tr|
    ensures forall k :: a <= k < |tr| ==> tr[k].on
    ensures a > 0 ==> !tr[a - 1].on
  {
    if tr == [] || !tr[|tr| - 1].on then |tr| else RunStart(tr[..|tr| - 1])
  }

  lemma {:induction false} RunStartIs(tr: seq<Sample>, a: nat)
    requires a <= |tr| && (forall k :: a <= k < |tr| ==> tr[k].on) && (a > 0 ==> !tr[a - 1].on)
    ensures RunStart(tr) == a
  {}

  /** How long the input has been true without a break. */
  function OnTime(tr: seq<Sample>): nat {
    Elapsed(tr[RunStart(tr)..])
  }

  predicate IsOn(tr: seq<Sample>) {
    tr != [] && tr[|tr| - 1].on
  }

  /** An on-delay's output: on for at least PT. */
  predicate TonQ(tr: seq<Sample>, pt: int) {
    IsOn(tr) && OnTime(tr) >= pt
  }

  /** The input has been true in every scan from `a` on, and those scans cover PT. */
  predicate OnFrom(tr: seq<Sample>, pt: int, a: nat)
    requires a < |tr|
  {
    Elapsed(tr[a..]) >= pt && forall k :: a <= k < |tr| ==> tr[k].on
  }

  ghost predicate OnFor(tr: seq<Sample>, pt: int) {
    exists a: nat :: a < |tr| && OnFrom(tr, pt, a)
  }

  lemma ElapsedSuffix(tr: seq<Sample>, a: nat, b: nat)
    requires a <= b <= |tr|
    ensures Elapsed(tr[b..]) <= Elapsed(tr[a..])
  {
    assert tr[a..] == tr[a..b] + tr[b..];
    ElapsedAdds(tr[a..b], tr[b..]);
  }

  /** An on-delay is on exactly if its input has been true without a break for PT. */
  lemma TonExactly(tr: seq<Sample>, pt: int)
    ensures TonQ(tr, pt) <==> OnFor(tr, pt)
  {
    var start := RunStart(tr);
    if TonQ(tr, pt) {
      assert OnFrom(tr, pt, start);
    }
    if OnFor(tr, pt) {
      var a: nat :| a < |tr| && OnFrom(tr, pt, a);
      assert tr[|tr| - 1].on && start <= a;
      ElapsedSuffix(tr, start, a);
    }
  }

  class Ton {
    var IN: bool
    var Q: bool
    var ET: int
    const PT: nat
    ghost var trace: seq<Sample>

    ghost predicate Valid()
      reads this
    {
      Q == TonQ(trace, PT) && ET == Min(OnTime(trace), PT)
    }

    constructor (pt: nat)
      ensures Valid() && trace == [] && PT == pt
    {
      IN, Q, ET, PT, trace := false, false, 0, pt, [];
    }

    method Run(input: bool, dt: int)
      requires Valid()
      modifies this
      ensures Valid() && trace == old(trace) + [Sample(input, dt)]
      ensures Q == TonQ(trace, PT) && ET == Min(OnTime(trace), PT)
      ensures Q <==> OnFor(trace, PT)
    {
      OnTimeNext(trace, Sample(input, dt));
      TonExactly(trace + [Sample(input, dt)], PT);
      hide OnTime, OnFor;
      IN := input;
      trace := trace + [Sample(input, dt)];
      if !IN {
        ET, Q := 0, false;
        return;
      }
      ET := Accumulate(ET, dt, PT);
      Q := ET >= PT;
    }
  }

  lemma OnTimeNext(tr: seq<Sample>, x: Sample)
    ensures OnTime(tr + [x]) == if x.on then OnTime(tr) + Max(x.dt, 0) else 0
  {
    var t := tr + [x];
    assert t[..|tr|] == tr;
    if x.on {
      ElapsedNext(tr, x, RunStart(tr));
    } else {
      assert t[|t|..] == [];
    }
  }

  /** The last scan with the input true, or -1 if there was none. */
  function LastOn(tr: seq<Sample>): (k: int)
    ensures -1 <= k < |tr|
    ensures k >= 0 ==> tr[k].on
    ensures forall i :: k < i < |tr| ==> !tr[i].on
  {
    if tr == [] then -1 else if tr[|tr| - 1].on then |tr| - 1 else LastOn(tr[..|tr| - 1])
  }

  /** Time since the input was last true, counted from the falling scan on. */
  function OffTime(tr: seq<Sample>): nat {
    Elapsed(tr[LastOn(tr) + 1..])
  }

  /** An off-delay's output: true, or once true and false for less than PT. */
  predicate TofQ(tr: seq<Sample>, pt: int) {
    IsOn(tr) || (LastOn(tr) >= 0 && OffTime(tr) < pt)
  }

  /** Scan `k` had the input true, and it is the last scan or less than PT has passed since. */
  predicate OnWithin(tr: seq<Sample>, pt: int, k: int)
    requires 0 <= k < |tr|
  {
    tr[k].on && (k == |tr| - 1 || Elapsed(tr[k + 1..]) < pt)
  }

  /** An off-delay is on exactly if its input is true or was true less than PT ago. */
  lemma TofExactly(tr: seq<Sample>, pt: int)
    ensures TofQ(tr, pt) <==> exists k :: 0 <= k < |tr| && OnWithin(tr, pt, k)
  {
    var last := LastOn(tr);
    if TofQ(tr, pt) {
      assert OnWithin(tr, pt, last);
    }
    if k :| 0 <= k < |tr| && OnWithin(tr, pt, k) {
      assert k <= last;
      ElapsedSuffix(tr, k + 1, last + 1);
    }
  }

  class Tof {
    var IN: bool
    var Q: bool
    var ET: int
    const PT: nat
    var prev: bool
    var running: bool
    ghost var trace: seq<Sample>

    ghost predicate Valid()
      reads this
    {
      && Q == TofQ(trace, PT)
      && ET == (if LastOn(trace) < 0 then 0 else Min(OffTime(trace), PT))
      && prev == IsOn(trace)
      && running == (Q && !prev)
    }

    constructor (pt: nat)
      ensures Valid() && trace == [] && PT == pt
    {
      IN, Q, ET, PT, prev, running, trace := false, false, 0, pt, false, false, [];
    }

    method Run(input: bool, dt: int)
      requires Valid()
      modifies this
      ensures Valid() && trace == old(trace) + [Sample(input, dt)]
      ensures Q == TofQ(trace, PT) && ET == if LastOn(trace) < 0 then 0 else Min(OffTime(trace), PT)
      ensures Q <==> exists k :: 0 <= k < |trace| && OnWithin(trace, PT, k)
    {
      TofExactly(trace + [Sample(input, dt)], PT);
      LastOnNext(trace, Sample(input, dt));
      OffTimeNext(trace, Sample(input, dt));
      hide OffTime, LastOn, IsOn, OnWithin;
      IN := input;
      trace := trace + [Sample(input, dt)];
      if IN {
        ET, Q, running := 0, true, false;
      } else {
        if prev {
          ET, running := 0, true;
        }
        if running {
          ET := Accumulate(ET, dt, PT);
          if ET >= PT {
            Q, running := false, false;
          }
        }
      }
      prev := IN;
    }
  }

  lemma LastOnNext(tr: seq<Sample>, x: Sample)
    ensures LastOn(tr + [x]) == if x.on then |tr| else LastOn(tr)
    ensures IsOn(tr) <==> LastOn(tr) == |tr| - 1 >= 0
    ensures IsOn(tr + [x]) == x.on
  {}

  lemma OffTimeNext(tr: seq<Sample>, x: Sample)
    ensures OffTime(tr + [x]) == if x.on then 0 else OffTime(tr) + Max(x.dt, 0)
    ensures IsOn(tr) ==> OffTime(tr) == 0
  {
    hide LastOn, Elapsed, IsOn;
    LastOnNext(tr, x);
    NoTime();
    var t := tr + [x];
    assert tr[|tr|..] == [] && t[|t|..] == [];
    ElapsedNext(tr, x, LastOn(tr) + 1);
  }

  /** The input rises in the last scan. */
  predicate RisesLast(tr: seq<Sample>) {
    IsOn(tr) && !IsOn(tr[..|tr| - 1])
  }

  /** The scan the latest pulse began in, or -1: a pulse begins at a rise while none is active. */
  function PulseStart(tr: seq<Sample>, pt: int): (s: int)
    ensures -1 <= s < |tr|
    decreases |tr|, 0
  {
    if tr == [] then -1
    else
      var p := tr[..|tr| - 1];
      if RisesLast(tr) && !PulseOn(p, pt) then |tr| - 1 else PulseStart(p, pt)
  }

  /** The latest pulse is under way: it began in this scan, or the time since then is short of PT. */
  predicate PulseOn(tr: seq<Sample>, pt: int)
    decreases |tr|, 1
  {
    var s := PulseStart(tr, pt);
    s >= 0 && (s == |tr| - 1 || Elapsed(tr[s + 1..]) < pt)
  }

  /** The input has been off in a scan after the one that ended the pulse begun in scan `s`. */
  predicate Released(tr: seq<Sample>, s: nat, pt: int) {
    exists j :: s + 1 < j < |tr| && ReleasedAt(tr, s, pt, j)
  }

  predicate ReleasedAt(tr: seq<Sample>, s: nat, pt: int, j: nat)
    requires s + 1 < j < |tr|
  {
    !tr[j].on && Elapsed(tr[s + 1..j]) >= pt
  }

  /** ET between pulses: it stays at PT until the input is released. */
  function RestTime(tr: seq<Sample>, pt: nat): nat {
    var s := PulseStart(tr, pt);
    if s < 0 || Released(tr, s, pt) then 0 else pt
  }

  class Tp {
    var IN: bool
    var Q: bool
    var ET: int
    const PT: nat
    var prev: bool
    ghost var trace: seq<Sample>

    ghost predicate Valid()
      reads this
    {
      && Q == PulseOn(trace, PT)
      && ET == (if Q then Elapsed(trace[PulseStart(trace, PT) + 1..]) else RestTime(trace, PT))
      && prev == IsOn(trace)
    }

    constructor (pt: nat)
      ensures Valid() && trace == [] && PT == pt
    {
      IN, Q, ET, PT, prev, trace := false, false, 0, pt, false, [];
      hide Released, Elapsed;
      assert PulseStart([], pt) == -1;
    }

    method Run(input: bool, dt: int)
      requires Valid()
      modifies this
      ensures Valid() && trace == old(trace) + [Sample(input, dt)]
      ensures Q == PulseOn(trace, PT)
      ensures ET == if Q then Elapsed(trace[PulseStart(trace, PT) + 1..]) else RestTime(trace, PT)
    {
      PulseNext(trace, Sample(input, dt), PT);
      RestNext(trace, Sample(input, dt), PT);
      hide PulseStart, PulseOn, Elapsed, IsOn, RestTime;
      IN := input;
      trace := trace + [Sample(input, dt)];
      if !Q && IN && !prev {
        Q, ET := true, 0;
      } else if Q {
        ET := Accumulate(ET, dt, PT);
        if ET >= PT {
          Q := false;
        }
      } else if !IN {
        ET := 0;
      }
      prev := IN;
    }
  }

  lemma PulseStartNext(tr: seq<Sample>, x: Sample, pt: nat)
    ensures IsOn(tr + [x]) == x.on
    ensures PulseStart(tr + [x], pt) == if x.on && !IsOn(tr) && !PulseOn(tr, pt) then |tr| else PulseStart(tr, pt)
  {}

  lemma PulseNext(tr: seq<Sample>, x: Sample, pt: nat)
    ensures var s, t := PulseStart(tr, pt), tr + [x];
            if x.on && !IsOn(tr) && !PulseOn(tr, pt) then
              PulseStart(t, pt) == |tr| && PulseOn(t, pt) && Elapsed(t[|t|..]) == 0
            else
              && PulseStart(t, pt) == s
              && Elapsed(t[s + 1..]) == Elapsed(tr[s + 1..]) + Max(x.dt, 0)
              && (PulseOn(t, pt) <==> PulseOn(tr, pt) && Elapsed(t[s + 1..]) < pt)
    ensures IsOn(tr + [x]) == x.on
  {
    hide PulseStart;
    var s, t := PulseStart(tr, pt), tr + [x];
    PulseStartNext(tr, x, pt);
    ElapsedNext(tr, x, s + 1);
    assert tr[|tr|..] == [] && t[|t|..] == [];
  }

  lemma ReleasedNext(tr: seq<Sample>, x: Sample, s: nat, pt: nat)
    requires s < |tr|
    ensures Released(tr + [x], s, pt) <==>
              Released(tr, s, pt) || (!x.on && s + 1 < |tr| && Elapsed(tr[s + 1..]) >= pt)
  {
    var t := tr + [x];
    assert t[s + 1..|tr|] == tr[s + 1..] && t[|tr|] == x;
    forall j | s + 1 < j < |tr|
      ensures ReleasedAt(t, s, pt, j) == ReleasedAt(tr, s, pt, j)
    {
      assert t[s + 1..j] == tr[s + 1..j];
    }
    if Released(tr, s, pt) {
      var j :| s + 1 < j < |tr| && ReleasedAt(tr, s, pt, j);
      assert ReleasedAt(t, s, pt, j);
    }
    if !x.on && s + 1 < |tr| && Elapsed(tr[s + 1..]) >= pt {
      assert ReleasedAt(t, s, pt, |tr|);
    }
  }

  lemma NotReleasedEarly(tr: seq<Sample>, s: nat, pt: nat)
    requires s < |tr| && (s == |tr| - 1 || Elapsed(tr[s + 1..]) < pt)
    ensures !Released(tr, s, pt)
  {
    forall j | s + 1 < j < |tr|
      ensures !ReleasedAt(tr, s, pt, j)
    {
      assert tr[s + 1..][..j - s - 1] == tr[s + 1..j];
      ElapsedGrows(tr[s + 1..], j - s - 1);
    }
  }

  /** Between pulses ET is at PT from the scan that ended the last one until the input is released. */
  lemma RestNext(tr: seq<Sample>, x: Sample, pt: nat)
    ensures !(x.on && !IsOn(tr) && !PulseOn(tr, pt)) && !PulseOn(tr + [x], pt) ==>
              RestTime(tr + [x], pt) == if PulseOn(tr, pt) then pt else if x.on then RestTime(tr, pt) else 0
  {
    PulseNext(tr, x, pt);
    hide PulseStart, Elapsed, Released;
    var s := PulseStart(tr, pt);
    if s >= 0 {
      ReleasedNext(tr, x, s, pt);
      if PulseOn(tr, pt) {
        NotReleasedEarly(tr, s, pt);
      }
    }
  }

  /** Time after scan `s`, up to scan `k`. */
  function After(tr: seq<Sample>, s: nat, k: nat): nat
    requires s <= k < |tr|
  {
    Elapsed(tr[s + 1..k + 1])
  }

  /**
   A pulse begun in scan `s` cannot be retriggered, and lasts until the first later scan at which
   the time since its start has reached PT.
   */
  lemma {:induction false} PulseLasts(tr: seq<Sample>, s: nat, k: nat, pt: nat)
    requires s <= k < |tr| && PulseStart(tr[..s + 1], pt) == s
    requires forall j :: s < j < k ==> After(tr, s, j) < pt
    ensures PulseStart(tr[..k + 1], pt) == s
    ensures PulseOn(tr[..k + 1], pt) <==> k == s || After(tr, s, k) < pt
  {
    var t := tr[..k + 1];
    assert t[s + 1..] == tr[s + 1..k + 1];
    if s < k {
      PulseLasts(tr, s, k - 1, pt);
      assert t == tr[..k] + [tr[k]];
      PulseStartNext(tr[..k], tr[k], pt);
    }
  }

  // ---------------------------------------------------------------- counter

  datatype Pulse = Pulse(up: bool, reset: bool)

  /** Rises of the count input since the last reset; the edge detector runs on through a reset. */
  function Edges(tr: seq<Pulse>): nat {
    if tr == [] || tr[|tr| - 1].reset then 0
    else Edges(tr[..|tr| - 1]) + if tr[|tr| - 1].up && (|tr| == 1 || !tr[|tr| - 2].up) then 1 else 0
  }

  /** The count input rises in scan `i`, and no scan from there on resets. */
  predicate Counted(tr: seq<Pulse>, i: int)
    requires 0 <= i < |tr|
  {
    tr[i].up && (i == 0 || !tr[i - 1].up) && forall k :: i <= k < |tr| ==> !tr[k].reset
  }

  function CountedScans(tr: seq<Pulse>): set<int> {
    set i | 0 <= i < |tr| && Counted(tr, i)
  }

  lemma {:induction false} EdgesExactly(tr: seq<Pulse>)
    ensures Edges(tr) == |CountedScans(tr)|
  {
    if tr == [] {
      assert CountedScans(tr) == {};
    } else {
      var n := |tr| - 1;
      if tr[n].reset {
        assert CountedScans(tr) == {};
      } else {
        EdgesExactly(tr[..n]);
        CountedNext(tr, n);
      }
    }
  }

  lemma CountedNext(tr: seq<Pulse>, n: nat)
    requires |tr| == n + 1 && !tr[n].reset
    ensures CountedScans(tr)
         == CountedScans(tr[..n]) + if tr[n].up && (n == 0 || !tr[n - 1].up) then {n} else {}
  {
    forall i | 0 <= i < n
      ensures Counted(tr, i) <==> Counted(tr[..n], i)
    {
      assert forall k :: 0 <= k < n ==> tr[..n][k] == tr[k];
    }
    assert Counted(tr, n) <==> tr[n].up && (n == 0 || !tr[n - 1].up);
    hide Counted;
  }

  lemma NextEdge(tr: seq<Pulse>, x: Pulse)
    ensures Edges(tr + [x])
         == if x.reset then 0 else Edges(tr) + if x.up && (tr == [] || !tr[|tr| - 1].up) then 1 else 0
  {
    assert (tr + [x])[..|tr|] == tr;
  }

  class Ctu {
    var CU: bool
    var R: bool
    var Q: bool
    const PV: int
    var CV: int
    var prev: bool
    ghost var trace: seq<Pulse>

    ghost predicate Valid()
      reads this
    {
      && CV == Min(Edges(trace), INT16_MAX)
      && Q == (trace != [] && CV >= PV)
      && prev == (trace != [] && trace[|trace| - 1].up)
    }

    constructor (pv: int)
      ensures Valid() && trace == [] && PV == pv
    {
      CU, R, Q, PV, CV, prev, trace := false, false, false, pv, 0, false, [];
    }

    method Run(cu: bool, r: bool)
      requires Valid()
      modifies this
      ensures Valid() && trace == old(trace) + [Pulse(cu, r)]
      ensures CV == Min(Edges(trace), INT16_MAX) && Q == (CV >= PV)
      ensures CV == Min(|CountedScans(trace)|, 32767)
    {
      EdgesExactly(trace + [Pulse(cu, r)]);
      NextEdge(trace, Pulse(cu, r));
      hide CountedScans, Edges;
      CU, R := cu, r;
      if R {
        CV := 0;
      } else if CU && !prev && CV < INT16_MAX {
        CV := CV + 1;
      }
      Q := CV >= PV;
      prev := CU;
      trace := trace + [Pulse(cu, r)];
    }
  }
}

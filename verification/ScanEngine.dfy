/** The scan engine's notion of time: the elapsed time it hands to programs, and its pacing. */
module ScanEngine {
  import opened Words
  import opened Statuses
  import opened FunctionBlocks

  /** The timing half of plc_runtime_t. */
  class Runtime {
    const continueOnIoFault: bool
    var firstScan: bool
    var lastScan: int
    var scanNo: nat
    var ioFaults: nat
    /** Start times of the completed scans, and the elapsed times handed to the programs. */
    ghost var starts: seq<int>
    ghost var dts: seq<int>

    ghost predicate Valid()
      reads this
    {
      && scanNo == |starts| && firstScan == (starts == [])
      && (starts != [] ==> lastScan == starts[|starts| - 1])
      && Telescopes(starts, dts)
    }

    constructor (continueOnIoFault: bool)
      ensures Valid() && starts == [] && this.continueOnIoFault == continueOnIoFault
    {
      this.continueOnIoFault := continueOnIoFault;
      firstScan, lastScan, scanNo, ioFaults := true, 0, 0, 0;
      starts, dts := [], [];
    }

    /**
     plc_runtime_scan_once, begun at `t0`, with `io` the worst status of the input phase.  An aborted
     scan hands no time to the programs and leaves the time base where it was.
     */
    method ScanOnce(t0: int, io: Status) returns (st: Status, dt: int)
      requires Valid()
      modifies this
      ensures Valid() && st == io
      ensures ioFaults == old(ioFaults) + if io.Ok? then 0 else 1
      ensures if io.Ok? || continueOnIoFault then starts == old(starts) + [t0] && dts == old(dts) + [dt]
              else starts == old(starts) && dts == old(dts)
    {
      dt := 0;
      if firstScan {
        lastScan := t0;
      }
      if !io.Ok? {
        ioFaults := ioFaults + 1;
        if !continueOnIoFault {
          return io, 0;
        }
      }
      dt := if firstScan then 0 else t0 - lastScan;
      starts, dts := starts + [t0], dts + [dt];
      lastScan, firstScan, scanNo := t0, false, scanNo + 1;
      return io, dt;
    }
  }

  /** Real time between completed scan `i` and the one before; the first scan has none before it. */
  function Gap(starts: seq<int>, i: nat): int
    requires i < |starts|
  {
    if i == 0 then 0 else starts[i] - starts[i - 1]
  }

  /** Every elapsed time spans the gap to the completed scan before, whatever was lost in between. */
  ghost predicate Telescopes(starts: seq<int>, dts: seq<int>) {
    && |dts| == |starts|
    && forall i :: 0 <= i < |dts| ==> dts[i] == Gap(starts, i)
  }

  ghost predicate Monotone(starts: seq<int>) {
    forall i, j :: 0 <= i < j < |starts| ==> starts[i] <= starts[j]
  }

  function Times(tr: seq<Sample>): seq<int> {
    seq(|tr|, i requires 0 <= i < |tr| => tr[i].dt)
  }

  /** Timer inputs sampled once per completed scan. */
  ghost predicate Sampled(starts: seq<int>, tr: seq<Sample>) {
    Telescopes(starts, Times(tr))
  }

  /** Time summed over the scans `a` to `b - 1` is the real time from the scan before them to the last. */
  lemma {:induction false} ElapsedTelescopes(starts: seq<int>, tr: seq<Sample>, a: nat, b: nat)
    requires Sampled(starts, tr) && Monotone(starts) && a <= b && 0 < b <= |starts|
    ensures |tr| == |starts| && Elapsed(tr[a..b]) == starts[b - 1] - starts[Max(a - 1, 0)]
  {
    if a < b {
      var t, last := tr[a..b], tr[b - 1];
      assert t[..|t| - 1] == tr[a..b - 1] && last.dt == Times(tr)[b - 1];
      if b > 1 {
        ElapsedTelescopes(starts, tr, a, b - 1);
      }
    }
  }

  /**
   An on-delay run once per completed scan, its input false in scan `a - 1` and true in the scans
   `a` to the last, has timed exactly from the start of scan `a - 1` to the start of the last scan.
   */
  lemma TonMeasuresRealTime(starts: seq<int>, tr: seq<Sample>, a: nat)
    requires Sampled(starts, tr) && Monotone(starts) && 0 < a < |starts| == |tr|
    requires !tr[a - 1].on && forall k :: a <= k < |tr| ==> tr[k].on
    ensures OnTime(tr) == starts[|starts| - 1] - starts[a - 1]
  {
    RunStartIs(tr, a);
    ElapsedTelescopes(starts, tr, a, |tr|);
    assert tr[a..] == tr[a..|tr|];
  }

  // ---------------------------------------------------------------- pacing

  /** One paced cycle: when its scan started and ended. */
  datatype Cycle = Cycle(start: int, end: int)

  /** The deadline cycle `k` waits for: a period after the one before, re-based to now if that is past. */
  function Deadline(d0: int, period: nat, cycles: seq<Cycle>, k: nat): int
    requires k <= |cycles|
  {
    if k == 0 then d0
    else
      var next := Deadline(d0, period, cycles, k - 1) + period;
      if next < cycles[k - 1].end then cycles[k - 1].end else next
  }

  /** Scans end after they start, and sleeping until a deadline never wakes before it. */
  ghost predicate Paced(d0: int, period: nat, cycles: seq<Cycle>) {
    forall k :: 0 <= k < |cycles| ==> Deadline(d0, period, cycles, k) <= cycles[k].start <= cycles[k].end
  }

  /** Cycle `k` ended so late that the deadline after it was re-based. */
  predicate Rebased(d0: int, period: nat, cycles: seq<Cycle>, k: nat)
    requires k < |cycles|
  {
    Deadline(d0, period, cycles, k) + period < cycles[k].end
  }

  /** plc_runtime_run's pacing loop: the deadlines slept for, one after every scan. */
  method Pace(d0: int, period: nat, cycles: seq<Cycle>) returns (sleeps: seq<int>)
    ensures |sleeps| == if period > 0 then |cycles| else 0
    ensures forall k :: 0 <= k < |sleeps| ==> sleeps[k] == Deadline(d0, period, cycles, k + 1) >= cycles[k].end
    ensures forall k :: 0 <= k < |sleeps| ==> Latest(d0, period, cycles, k + 1, sleeps[k])
  {
    assert Deadline(d0, period, cycles, 0) == d0;
    hide Latest, Deadline;
    var deadline := d0;
    sleeps := [];
    if period == 0 {
      return;
    }
    for k := 0 to |cycles|
      invariant |sleeps| == k && deadline == Deadline(d0, period, cycles, k)
      invariant forall j :: 0 <= j < k ==> sleeps[j] == Deadline(d0, period, cycles, j + 1) >= cycles[j].end
    {
      RebasedToEnd(d0, period, cycles, k);
      deadline := deadline + period;
      var t := cycles[k].end;
      if deadline < t {
        deadline := t;
      }
      sleeps := sleeps + [deadline];
    }
    forall k | 0 <= k < |sleeps|
      ensures Latest(d0, period, cycles, k + 1, sleeps[k])
    {
      DeadlineIsLatest(d0, period, cycles, k + 1);
    }
  }

  lemma {:induction false} DeadlinesApart(d0: int, period: nat, cycles: seq<Cycle>, i: nat, n: nat)
    requires i + n <= |cycles|
    ensures Deadline(d0, period, cycles, i + n) >= Deadline(d0, period, cycles, i) + n * period
  {
    if n > 0 {
      DeadlinesApart(d0, period, cycles, i, n - 1);
      assert n * period == (n - 1) * period + period;
    }
  }

  lemma RebasedToNow(d0: int, period: nat, cycles: seq<Cycle>, i: nat)
    requires i < |cycles|
    ensures Deadline(d0, period, cycles, i + 1) >= cycles[i].end
  {}

  /** The deadline after `n` scans if the pacing had been re-based after scan `k`. */
  function FromEnd(period: nat, cycles: seq<Cycle>, n: nat, k: nat): int
    requires k < n <= |cycles|
  {
    cycles[k].end + (n - 1 - k) * period
  }

  /**
   `d` is the latest of the first deadline moved on by `n` periods and the end of each of the `n`
   scans moved on by the periods since: it is not earlier than any of these, and it is one of them.
   */
  ghost predicate Latest(d0: int, period: nat, cycles: seq<Cycle>, n: nat, d: int)
    requires n <= |cycles|
  {
    && d >= d0 + n * period
    && (forall k :: 0 <= k < n ==> d >= FromEnd(period, cycles, n, k))
    && (d == d0 + n * period || exists k :: 0 <= k < n && d == FromEnd(period, cycles, n, k))
  }

  lemma {:induction false} DeadlineIsLatest(d0: int, period: nat, cycles: seq<Cycle>, n: nat)
    requires n <= |cycles|
    ensures Latest(d0, period, cycles, n, Deadline(d0, period, cycles, n))
  {
    if n > 0 {
      var was := Deadline(d0, period, cycles, n - 1);
      DeadlineIsLatest(d0, period, cycles, n - 1);
      assert n * period == (n - 1) * period + period;
      forall k | 0 <= k < n - 1
        ensures FromEnd(period, cycles, n, k) == FromEnd(period, cycles, n - 1, k) + period
      {
        assert (n - 1 - k) * period == (n - 2 - k) * period + period;
      }
      assert FromEnd(period, cycles, n, n - 1) == cycles[n - 1].end;
      hide FromEnd;
      if was != d0 + (n - 1) * period {
        var k :| 0 <= k < n - 1 && was == FromEnd(period, cycles, n - 1, k);
        assert was + period == FromEnd(period, cycles, n, k);
      }
    }
  }

  /** A re-based deadline is the end of the scan before it; any other is a period after the one before. */
  lemma RebasedToEnd(d0: int, period: nat, cycles: seq<Cycle>, k: nat)
    requires k < |cycles|
    ensures Rebased(d0, period, cycles, k) ==> Deadline(d0, period, cycles, k + 1) == cycles[k].end
    ensures !Rebased(d0, period, cycles, k) ==>
              Deadline(d0, period, cycles, k + 1) == Deadline(d0, period, cycles, k) + period
  {}

  lemma StartsApart(d0: int, period: nat, cycles: seq<Cycle>, i: nat, j: nat, apart: int)
    requires Paced(d0, period, cycles) && i < j < |cycles|
    requires Deadline(d0, period, cycles, j) >= Deadline(d0, period, cycles, i + 1) + apart
    ensures cycles[j].start >= cycles[i].start + apart
  {
    RebasedToNow(d0, period, cycles, i);
    hide Deadline;
  }

  /** No catch-up bursts: lost cycles are never run faster than real time. */
  lemma NoBurst(d0: int, period: nat, cycles: seq<Cycle>, i: nat, j: nat)
    requires Paced(d0, period, cycles) && i < j < |cycles|
    ensures cycles[j].start >= cycles[i].start + (j - i - 1) * period
  {
    hide *;
    var n := j - i - 1;
    DeadlinesApart(d0, period, cycles, i + 1, n);
    StartsApart(d0, period, cycles, i, i + 1 + n, n * period);
  }

  /** Deadlines stay on the grid of the first one exactly until the first re-base. */
  lemma {:induction false} OnGridUntilRebase(d0: int, period: nat, cycles: seq<Cycle>, n: nat)
    requires n <= |cycles|
    ensures Deadline(d0, period, cycles, n) >= d0 + n * period
    ensures Deadline(d0, period, cycles, n) == d0 + n * period <==>
            forall k :: 0 <= k < n ==> !Rebased(d0, period, cycles, k)
  {
    if n > 0 {
      OnGridUntilRebase(d0, period, cycles, n - 1);
      assert n * period == (n - 1) * period + period;
      assert (forall k :: 0 <= k < n ==> !Rebased(d0, period, cycles, k)) <==>
             (forall k :: 0 <= k < n - 1 ==> !Rebased(d0, period, cycles, k)) && !Rebased(d0, period, cycles, n - 1);
    }
  }
}

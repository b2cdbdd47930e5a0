/**
 One remote device of the scanner: its connection, the 16-bit sequence filter and the image it
 leaves behind, as functions of everything that ever happened to the device.
 */
module ScannerDevice {
  import opened Words
  import opened Statuses

  /** EIP_DEVICE_OFFLINE, EIP_DEVICE_ONLINE, EIP_DEVICE_FAILSAFE. */
  const OFFLINE: byte := 0
  const ONLINE: byte := 1
  const FAILSAFE: byte := 2

  /** A frame with the unbounded number behind its 16-bit CIP sequence count. */
  datatype Frame = Frame(num: int, data: seq<byte>)

  datatype Event = Opened | Received(frame: Frame) | Lost

  function Count16(f: Frame): uint16 {
    f.num % 0x1_0000
  }

  // ---------------------------------------------------------------- the filter on one connection

  /** The filter takes `f` after `last`: `(int16_t)(f - last) > 0`. */
  predicate Advances(f: Frame, last: Frame) {
    SignedDiff16(Count16(f), Count16(last)) > 0
  }

  /** The frame in the image after these arrivals on one connection, or -1 before the first. */
  function Kept(arr: seq<Frame>): (k: int)
    ensures -1 <= k < |arr|
    ensures k < 0 <==> arr == []
  {
    if arr == [] then -1
    else
      var n := |arr| - 1;
      var k := Kept(arr[..n]);
      if k < 0 || Advances(arr[n], arr[k]) then n else k
  }

  /** Every arrival lies within half the 16-bit range of the frame then in the image. */
  predicate InWindow(arr: seq<Frame>) {
    arr == []
    || (var n := |arr| - 1; var k := Kept(arr[..n]);
        InWindow(arr[..n]) && (k >= 0 ==> -0x8000 <= arr[n].num - arr[k].num <= 0x7FFF))
  }

  lemma Mod16Is(x: int, q: int, r: int)
    requires x == 0x1_0000 * q + r && 0 <= r < 0x1_0000
    ensures x % 0x1_0000 == r
  {}

  /** A distance that a 16-bit comparison takes for an advance. */
  predicate Ahead(d: int) {
    1 <= d % 0x1_0000 <= 0x7FFF
  }

  /** What the filter does with any two frames: it sees their distance modulo 2^16. */
  lemma FilterFate(f: Frame, last: Frame)
    ensures Advances(f, last) <==> Ahead(f.num - last.num)
  {
    var d := f.num - last.num;
    var p, q, k, r := f.num / 0x1_0000, last.num / 0x1_0000, d / 0x1_0000, d % 0x1_0000;
    assert Count16(f) - Count16(last) == 0x1_0000 * (k - p + q) + r;
    Mod16Is(Count16(f) - Count16(last), k - p + q, r);
  }

  /** Inside the window the filter takes exactly the strictly newer frame. */
  lemma WindowIsExact(f: Frame, last: Frame)
    requires -0x8000 <= f.num - last.num <= 0x7FFF
    ensures Advances(f, last) <==> f.num > last.num
  {
    FilterFate(f, last);
    var d := f.num - last.num;
    if d >= 0 {
      Mod16Is(d, 0, d);
    } else {
      Mod16Is(d, -1, d + 0x1_0000);
    }
  }

  /** Whatever was kept last, one step outside the window in either direction the filter is wrong. */
  lemma WindowIsTight(f: Frame, last: Frame)
    ensures f.num - last.num == 0x8000 ==> !Advances(f, last)
    ensures f.num - last.num == -0x8001 ==> Advances(f, last)
  {
    FilterFate(f, last);
  }

  /** The first arrival with the greatest number of all. */
  ghost predicate IsNewest(arr: seq<Frame>, k: int) {
    && 0 <= k < |arr|
    && (forall i :: 0 <= i < |arr| ==> arr[i].num <= arr[k].num)
    && (forall i :: 0 <= i < k ==> arr[i].num < arr[k].num)
  }

  /** However frames are reordered, duplicated or replayed, the newest one received is kept. */
  lemma {:induction false} KeptIsNewest(arr: seq<Frame>)
    requires InWindow(arr) && arr != []
    ensures IsNewest(arr, Kept(arr))
  {
    var n := |arr| - 1;
    if n > 0 {
      var k := Kept(arr[..n]);
      KeptIsNewest(arr[..n]);
      WindowIsExact(arr[n], arr[k]);
    }
  }

  /** Two deliveries of the same frames leave the same frame in the image, whatever their order. */
  lemma OrderDoesNotMatter(a: seq<Frame>, b: seq<Frame>)
    requires InWindow(a) && InWindow(b) && a != [] && b != []
    requires forall f :: f in a <==> f in b
    requires forall i, j :: 0 <= i < |a| && 0 <= j < |a| && a[i].num == a[j].num ==> a[i] == a[j]
    ensures a[Kept(a)] == b[Kept(b)]
  {
    KeptIsNewest(a);
    KeptIsNewest(b);
    var k, l := Kept(a), Kept(b);
    assert a[k] in b && b[l] in a;
    var i :| 0 <= i < |b| && b[i] == a[k];
    var j :| 0 <= j < |a| && a[j] == b[l];
  }

  /** Deliveries drawn from these frames, in whatever order and however often. */
  predicate DrawnFrom(arr: seq<Frame>, frames: set<Frame>) {
    forall i :: 0 <= i < |arr| ==> arr[i] in frames
  }

  lemma {:induction false} CloseFramesInWindow(arr: seq<Frame>, frames: set<Frame>)
    requires DrawnFrom(arr, frames) && forall f, g :: f in frames && g in frames ==> f.num - g.num <= 0x7FFF
    ensures InWindow(arr)
  {
    if arr != [] {
      CloseFramesInWindow(arr[..|arr| - 1], frames);
    }
  }

  /** Every delivery of some frames stays in the window exactly if no two of them are half the range apart. */
  lemma EveryOrderInWindow(frames: set<Frame>)
    ensures (forall arr :: DrawnFrom(arr, frames) ==> InWindow(arr)) <==>
            (forall f, g :: f in frames && g in frames ==> f.num - g.num <= 0x7FFF)
  {
    if forall f, g :: f in frames && g in frames ==> f.num - g.num <= 0x7FFF {
      forall arr | DrawnFrom(arr, frames)
        ensures InWindow(arr)
      {
        CloseFramesInWindow(arr, frames);
      }
    }
    if forall arr :: DrawnFrom(arr, frames) ==> InWindow(arr) {
      forall f, g | f in frames && g in frames
        ensures f.num - g.num <= 0x7FFF
      {
        var arr := [g, f];
        assert DrawnFrom(arr, frames);
        assert arr[..1] == [g] && Kept([g]) == 0;
      }
    }
  }

  // ---------------------------------------------------------------- exactly when the newest frame is kept

  /** No distance and its opposite both look like advances. */
  lemma AheadOneWay(d: int)
    requires Ahead(d)
    ensures !Ahead(-d)
  {
    Mod16Is(-d, -(d / 0x1_0000) - 1, 0x1_0000 - d % 0x1_0000);
  }

  /** One more arrival, when the frame kept so far is the newest: the filter has to judge it rightly. */
  lemma NewestNext(arr: seq<Frame>)
    requires |arr| > 1 && IsNewest(arr[..|arr| - 1], Kept(arr[..|arr| - 1]))
    ensures var n := |arr| - 1;
            var d := arr[n].num - arr[Kept(arr[..n])].num;
            IsNewest(arr, Kept(arr)) <==> (Ahead(d) <==> d > 0)
  {
    hide Advances, Ahead, IsNewest;
    var n := |arr| - 1;
    var k := Kept(arr[..n]);
    FilterFate(arr[n], arr[k]);
    NewestStep(arr, k);
  }

  /** The newest frame with one more arrival: that arrival if it is newer, else the one before. */
  lemma NewestStep(arr: seq<Frame>, k: int)
    requires |arr| > 1 && IsNewest(arr[..|arr| - 1], k)
    ensures var n := |arr| - 1;
            && (IsNewest(arr, n) <==> arr[n].num > arr[k].num)
            && (IsNewest(arr, k) <==> arr[n].num <= arr[k].num)
  {
    var n := |arr| - 1;
    var p := arr[..n];
    assert p[k] == arr[k];
    forall i | 0 <= i < n
      ensures arr[i].num <= arr[k].num && (i < k ==> arr[i].num < arr[k].num)
    {
      assert p[i] == arr[i];
    }
  }

  /** Each arrival looks like an advance over the newest frame before it exactly if it is one. */
  ghost predicate JudgedRightly(arr: seq<Frame>) {
    forall n, m :: 0 < n < |arr| && IsNewest(arr[..n], m) ==> Rightly(arr, n, m)
  }

  predicate Rightly(arr: seq<Frame>, n: int, m: int)
    requires 0 <= m < n < |arr|
  {
    var d := arr[n].num - arr[m].num;
    Ahead(d) <==> d > 0
  }

  ghost predicate AlwaysNewest(arr: seq<Frame>) {
    forall n :: 0 < n <= |arr| ==> IsNewest(arr[..n], Kept(arr[..n]))
  }

  lemma NewestIsUnique(arr: seq<Frame>, k: int, m: int)
    requires IsNewest(arr, k) && IsNewest(arr, m)
    ensures k == m
  {
    assert arr[k].num <= arr[m].num <= arr[k].num;
  }

  lemma {:induction false} RightlyKeepsNewest(arr: seq<Frame>, n: nat)
    requires JudgedRightly(arr) && 0 < n <= |arr|
    ensures IsNewest(arr[..n], Kept(arr[..n]))
  {
    if n > 1 {
      RightlyKeepsNewest(arr, n - 1);
      var k := Kept(arr[..n - 1]);
      assert arr[..n][..n - 1] == arr[..n - 1];
      assert Rightly(arr, n - 1, k);
      NewestNext(arr[..n]);
    }
  }

  /**
   Exactly when one delivery has the newest frame in the image after every arrival: each arrival, set
   against the newest before it, looks like an advance to a 16-bit comparison if and only if it is one.
   */
  lemma KeptIsNewestExactly(arr: seq<Frame>)
    ensures AlwaysNewest(arr) <==> JudgedRightly(arr)
  {
    hide Kept, Ahead;
    if JudgedRightly(arr) {
      forall n | 0 < n <= |arr|
        ensures IsNewest(arr[..n], Kept(arr[..n]))
      {
        RightlyKeepsNewest(arr, n);
      }
    }
    if AlwaysNewest(arr) {
      forall n, m | 0 < n < |arr| && IsNewest(arr[..n], m)
        ensures Rightly(arr, n, m)
      {
        NewestMeansRightly(arr, n, m);
      }
    }
  }

  lemma NewestMeansRightly(arr: seq<Frame>, n: nat, m: nat)
    requires AlwaysNewest(arr) && 0 < n < |arr| && IsNewest(arr[..n], m)
    ensures Rightly(arr, n, m)
  {
    hide IsNewest, Kept, Ahead;
    var p, q := arr[..n], arr[..n + 1];
    assert q[..n] == p;
    assert IsNewest(p, Kept(p)) && IsNewest(q, Kept(q));
    NewestIsUnique(p, Kept(p), m);
    NewestNext(q);
  }

  /** Of any two of these frames the newer looks like an advance over the older. */
  ghost predicate Comparable(frames: set<Frame>) {
    forall f, g :: f in frames && g in frames && g.num < f.num ==> Ahead(f.num - g.num)
  }

  lemma JudgedByComparison(f: Frame, g: Frame, frames: set<Frame>)
    requires f in frames && g in frames && Comparable(frames)
    ensures Ahead(f.num - g.num) <==> f.num > g.num
  {
    if f.num < g.num {
      assert Ahead(g.num - f.num);
      AheadOneWay(g.num - f.num);
    }
  }

  lemma {:induction false} ComparableKeepsNewest(arr: seq<Frame>, frames: set<Frame>)
    requires arr != [] && DrawnFrom(arr, frames) && Comparable(frames)
    ensures IsNewest(arr, Kept(arr))
  {
    var n := |arr| - 1;
    if n > 0 {
      ComparableKeepsNewest(arr[..n], frames);
      JudgedByComparison(arr[n], arr[Kept(arr[..n])], frames);
      hide IsNewest, Comparable;
      NewestNext(arr);
    }
  }

  /**
   Exactly which frames can be delivered in any order and however often with the newest one kept: those
   of which any two compare rightly in 16 bits.
   */
  lemma EveryOrderKeepsNewest(frames: set<Frame>)
    ensures (forall arr :: arr != [] && DrawnFrom(arr, frames) ==> IsNewest(arr, Kept(arr))) <==> Comparable(frames)
  {
    if Comparable(frames) {
      forall arr | arr != [] && DrawnFrom(arr, frames)
        ensures IsNewest(arr, Kept(arr))
      {
        ComparableKeepsNewest(arr, frames);
      }
    }
    if forall arr :: arr != [] && DrawnFrom(arr, frames) ==> IsNewest(arr, Kept(arr)) {
      forall f, g | f in frames && g in frames && g.num < f.num
        ensures Ahead(f.num - g.num)
      {
        var arr := [g, f];
        assert DrawnFrom(arr, frames) && IsNewest(arr, Kept(arr));
        PairKeepsNewest(f, g);
      }
    }
  }

  lemma PairKeepsNewest(f: Frame, g: Frame)
    requires g.num < f.num && IsNewest([g, f], Kept([g, f]))
    ensures Ahead(f.num - g.num)
  {
    var arr := [g, f];
    assert arr[..1] == [g] && Kept([g]) == 0;
    hide Ahead;
    NewestNext(arr);
  }

  /** Frames less than half the range apart compare rightly. */
  lemma CloseFramesCompare(frames: set<Frame>)
    requires forall f, g :: f in frames && g in frames ==> f.num - g.num <= 0x7FFF
    ensures Comparable(frames)
  {
    forall f, g | f in frames && g in frames && g.num < f.num
      ensures Ahead(f.num - g.num)
    {
      Mod16Is(f.num - g.num, 0, f.num - g.num);
    }
  }

  /** Of frames that compare rightly, any two deliveries of all of them leave the same one. */
  lemma AnyOrderKeepsTheSame(a: seq<Frame>, b: seq<Frame>, frames: set<Frame>)
    requires a != [] && Comparable(frames)
    requires forall f :: f in frames <==> f in a
    requires forall f :: f in frames <==> f in b
    requires forall f, g :: f in frames && g in frames && f.num == g.num ==> f == g
    ensures b != [] && a[Kept(a)] == b[Kept(b)]
  {
    assert a[0] in b;
    assert DrawnFrom(a, frames) && DrawnFrom(b, frames);
    ComparableKeepsNewest(a, frames);
    ComparableKeepsNewest(b, frames);
    hide Comparable;
    var f, g := a[Kept(a)], b[Kept(b)];
    var i :| 0 <= i < |b| && b[i] == f;
    var j :| 0 <= j < |a| && a[j] == g;
    assert f.num <= g.num <= f.num;
  }

  /**
   Deliveries that go wrong, from any sequence number on: half the range ahead, the newer frame is
   dropped; one more than half the range behind, an older frame replaces the newer one.
   */
  lemma FilterMisjudges(num: int, x: seq<byte>, y: seq<byte>)
    ensures var dropped := [Frame(num, x), Frame(num + 0x8000, y)];
            Kept(dropped) == 0 && !IsNewest(dropped, 0)
    ensures var replaced := [Frame(num + 0x8001, x), Frame(num, y)];
            Kept(replaced) == 1 && !IsNewest(replaced, 1)
  {
    var dropped, replaced := [Frame(num, x), Frame(num + 0x8000, y)], [Frame(num + 0x8001, x), Frame(num, y)];
    WindowIsTight(dropped[1], dropped[0]);
    WindowIsTight(replaced[1], replaced[0]);
    hide Advances;
    assert dropped[..1] == [dropped[0]] && replaced[..1] == [replaced[0]];
    assert Kept([dropped[0]]) == 0 && Kept([replaced[0]]) == 0;
    assert dropped[0].num < dropped[1].num && replaced[1].num < replaced[0].num;
  }

  /** Arrivals the filter drops. */
  function Drops(arr: seq<Frame>): nat {
    if arr == [] then 0
    else Drops(arr[..|arr| - 1]) + if Kept(arr) == |arr| - 1 then 0 else 1
  }

  /** An arrival newer than everything before it on the connection. */
  predicate IsRecord(arr: seq<Frame>, i: int)
    requires 0 <= i < |arr|
  {
    forall j :: 0 <= j < i ==> arr[j].num < arr[i].num
  }

  ghost function Records(arr: seq<Frame>): set<int> {
    set i | 0 <= i < |arr| && IsRecord(arr, i)
  }

  lemma RecordsNext(arr: seq<Frame>)
    requires arr != []
    ensures var n := |arr| - 1;
            Records(arr) == Records(arr[..n]) + if IsRecord(arr, n) then {n} else {}
  {}

  /** The drop counter is the arrivals less those that were news. */
  lemma {:induction false} DropsAreNoNews(arr: seq<Frame>)
    requires InWindow(arr)
    ensures Drops(arr) == |arr| - |Records(arr)|
  {
    hide Kept, Records, IsRecord;
    if arr == [] {
      NoRecords();
    } else {
      var n := |arr| - 1;
      DropsAreNoNews(arr[..n]);
      RecordsNext(arr);
      RecordIsKept(arr);
      RecordsBelow(arr[..n]);
    }
  }

  lemma NoRecords()
    ensures Records([]) == {}
  {}

  lemma RecordsBelow(arr: seq<Frame>)
    ensures |arr| !in Records(arr)
  {}

  lemma RecordIsKept(arr: seq<Frame>)
    requires InWindow(arr) && arr != []
    ensures IsRecord(arr, |arr| - 1) <==> Kept(arr) == |arr| - 1
  {
    hide Kept;
    KeptIsNewest(arr);
  }

  // ---------------------------------------------------------------- the whole history

  /** Frames delivered on the latest connection opened. */
  function Arrivals(h: seq<Event>): seq<Frame> {
    if h == [] then []
    else
      var p := Arrivals(h[..|h| - 1]);
      match h[|h| - 1]
      case Opened => []
      case Received(f) => p + [f]
      case Lost => p
  }

  predicate Connected(h: seq<Event>) {
    h != [] && (h[|h| - 1].Opened? || (h[|h| - 1].Received? && Connected(h[..|h| - 1])))
  }

  predicate EverDelivered(h: seq<Event>) {
    exists i :: 0 <= i < |h| && h[i].Received?
  }

  /** The image of `n` bytes: the frame the filter last took, on whichever connection. */
  function Image(h: seq<Event>, n: nat): (image: seq<byte>)
    ensures |image| == n
  {
    if h == [] then Zeros(n)
    else
      var e := h[|h| - 1];
      if e.Received? && Kept(Arrivals(h)) == |Arrivals(h)| - 1 then FitTo(e.frame.data, n) else Image(h[..|h| - 1], n)
  }

  function TotalDrops(h: seq<Event>): nat {
    if h == [] then 0
    else
      var p := TotalDrops(h[..|h| - 1]);
      if h[|h| - 1].Received? && Kept(Arrivals(h)) != |Arrivals(h)| - 1 then p + 1 else p
  }

  function Health(h: seq<Event>): byte {
    if Connected(h) && Arrivals(h) != [] then ONLINE
    else if EverDelivered(h) then FAILSAFE else OFFLINE
  }

  /** The slice of the aggregate input image this device contributes. */
  function Slice(h: seq<Event>, policy: Policy, n: nat): (s: seq<byte>)
    ensures |s| == n
  {
    if Health(h) != ONLINE && policy.Clear? then Zeros(n) else Image(h, n)
  }

  // ---------------------------------------------------------------- health, read off the events

  /** The connection opened by event `i` is still open. */
  predicate OpenSince(h: seq<Event>, i: int)
    requires 0 <= i < |h|
  {
    h[i].Opened? && forall k :: i < k < |h| ==> !h[k].Opened? && !h[k].Lost?
  }

  /** Some connection is open and has delivered a frame. */
  ghost predicate Live(h: seq<Event>) {
    exists i, j :: 0 <= i < j < |h| && OpenSince(h, i) && h[j].Received?
  }

  /** The frames among these events, in order. */
  function FramesOf(h: seq<Event>): seq<Frame> {
    if h == [] then [] else FramesOf(h[..|h| - 1]) + if h[|h| - 1].Received? then [h[|h| - 1].frame] else []
  }

  /** The arrivals are the frames received since the connection was last opened. */
  lemma {:induction false} ArrivalsSinceOpened(h: seq<Event>, i: nat)
    requires i < |h| && h[i].Opened? && forall k :: i < k < |h| ==> !h[k].Opened?
    ensures Arrivals(h) == FramesOf(h[i + 1..])
  {
    var n := |h| - 1;
    if i < n {
      ArrivalsSinceOpened(h[..n], i);
      assert h[i + 1..][..n - i - 1] == h[..n][i + 1..];
    }
  }

  lemma {:induction false} FramesAreReceived(h: seq<Event>)
    ensures FramesOf(h) != [] <==> exists j :: 0 <= j < |h| && h[j].Received?
  {
    if h != [] {
      var p, n := h[..|h| - 1], |h| - 1;
      FramesAreReceived(p);
      if FramesOf(p) != [] {
        var j :| 0 <= j < |p| && p[j].Received?;
        assert h[j].Received?;
      }
      if h[n].Received? {
        assert FramesOf(h) != [];
      } else if j :| 0 <= j < |h| && h[j].Received? {
        assert p[j].Received?;
      }
    }
  }

  lemma {:induction false} ConnectedSince(h: seq<Event>)
    ensures Connected(h) <==> exists i :: 0 <= i < |h| && OpenSince(h, i)
  {
    if h != [] {
      var p, n := h[..|h| - 1], |h| - 1;
      ConnectedSince(p);
      if h[n].Opened? {
        assert OpenSince(h, n);
      } else if h[n].Received? {
        forall i | 0 <= i < n
          ensures OpenSince(h, i) <==> OpenSince(p, i)
        {
          assert forall k :: 0 <= k < n ==> h[k] == p[k];
        }
      }
    }
  }

  /**
   The health byte: ONLINE exactly while an open connection has delivered, FAILSAFE exactly if none has
   but something was once received, OFFLINE exactly if nothing ever was.
   */
  lemma HealthExactly(h: seq<Event>)
    ensures Health(h) == 1 <==> Live(h)
    ensures Health(h) == 2 <==> !Live(h) && exists j :: 0 <= j < |h| && h[j].Received?
    ensures Health(h) == 0 <==> forall j :: 0 <= j < |h| ==> !h[j].Received?
  {
    ConnectedSince(h);
    if Live(h) {
      var i, j :| 0 <= i < j < |h| && OpenSince(h, i) && h[j].Received?;
      LiveDelivers(h, i, j);
    }
    if Connected(h) && Arrivals(h) != [] {
      var i :| 0 <= i < |h| && OpenSince(h, i);
      DeliveredIsLive(h, i);
    }
  }

  lemma LiveDelivers(h: seq<Event>, i: int, j: int)
    requires 0 <= i < j < |h| && OpenSince(h, i) && h[j].Received?
    ensures Arrivals(h) != []
  {
    ArrivalsSinceOpened(h, i);
    FramesAreReceived(h[i + 1..]);
    assert h[i + 1..][j - i - 1].Received?;
  }

  lemma DeliveredIsLive(h: seq<Event>, i: int)
    requires 0 <= i < |h| && OpenSince(h, i) && Arrivals(h) != []
    ensures Live(h)
  {
    ArrivalsSinceOpened(h, i);
    FramesAreReceived(h[i + 1..]);
    var j :| 0 <= j < |h[i + 1..]| && h[i + 1..][j].Received?;
    assert h[i + 1 + j].Received?;
  }

  /** The slice of a device that is not live is all zeros under CLEAR, and the kept image otherwise. */
  lemma SliceExactly(h: seq<Event>, policy: Policy, n: nat)
    ensures !Live(h) && policy == Clear ==> Slice(h, policy, n) == Zeros(n)
    ensures Live(h) || policy == Hold ==> Slice(h, policy, n) == Image(h, n)
  {
    HealthExactly(h);
  }

  /** An ONLINE slice is the frame kept from the connection that is open now, not an earlier one. */
  lemma {:induction false} OnlineMeansThisConnection(h: seq<Event>, n: nat)
    requires Arrivals(h) != []
    ensures Image(h, n) == FitTo(Arrivals(h)[Kept(Arrivals(h))].data, n)
    ensures EverDelivered(h)
  {
    var p, e := h[..|h| - 1], h[|h| - 1];
    if e.Received? {
      assert Arrivals(h)[..|Arrivals(h)| - 1] == Arrivals(p);
      if Kept(Arrivals(h)) != |Arrivals(h)| - 1 {
        OnlineMeansThisConnection(p, n);
      }
    } else {
      OnlineMeansThisConnection(p, n);
      assert p[..|p|] == p && forall i :: 0 <= i < |p| ==> h[i] == p[i];
    }
  }

  /** While every arrival is within the window, an ONLINE slice is the newest frame of the open connection. */
  lemma OnlineShowsNewest(h: seq<Event>, policy: Policy, n: nat, k: int)
    requires Health(h) == ONLINE && InWindow(Arrivals(h)) && IsNewest(Arrivals(h), k)
    ensures Slice(h, policy, n) == FitTo(Arrivals(h)[k].data, n)
  {
    OnlineMeansThisConnection(h, n);
    KeptIsNewest(Arrivals(h));
    NewestIsUnique(Arrivals(h), k, Kept(Arrivals(h)));
  }

  /**
   As long as nothing arrives, through losses and reconnects alike, the image stays the frame kept on
   the last connection that delivered: what a HOLD device shows until its new connection delivers.
   */
  lemma {:induction false} HeldAcrossReconnects(h: seq<Event>, j: nat, n: nat)
    requires j <= |h| && Arrivals(h[..j]) != [] && forall i :: j <= i < |h| ==> !h[i].Received?
    ensures Image(h, n) == FitTo(Arrivals(h[..j])[Kept(Arrivals(h[..j]))].data, n)
    ensures Health(h) != ONLINE ==> Slice(h, Hold, n) == Image(h, n)
    decreases |h|
  {
    if j == |h| {
      assert h[..j] == h;
      OnlineMeansThisConnection(h, n);
    } else {
      var p := h[..|h| - 1];
      assert p[..j] == h[..j];
      HeldAcrossReconnects(p, j, n);
    }
  }

  /** A device that never delivered shows an all-zero slice, whatever its policy. */
  lemma {:induction false} NeverDeliveredIsZero(h: seq<Event>, n: nat)
    requires !EverDelivered(h)
    ensures Image(h, n) == Zeros(n) && Health(h) == OFFLINE
  {
    if h != [] {
      var p := h[..|h| - 1];
      assert forall i :: 0 <= i < |p| ==> p[i] == h[i];
      NeverDeliveredIsZero(p, n);
    }
    if Arrivals(h) != [] {
      OnlineMeansThisConnection(h, n);
    }
  }

  class Device {
    const t2oBytes: nat
    const o2tBytes: nat
    const policy: Policy
    var connected: bool
    var hasData: bool
    var everData: bool
    var lastSeq: uint16
    var haveSeq: bool
    var lastGood: seq<byte>
    var latest: seq<byte>
    var toSend: seq<byte>
    var outOfOrder: nat
    ghost var history: seq<Event>

    ghost predicate Valid()
      reads this
    {
      && connected == Connected(history)
      && hasData == haveSeq == (Arrivals(history) != [])
      && everData == EverDelivered(history)
      && (haveSeq ==> lastSeq == Count16(Arrivals(history)[Kept(Arrivals(history))]))
      && latest == lastGood == Image(history, t2oBytes)
      && |toSend| == o2tBytes
      && outOfOrder == TotalDrops(history)
    }

    constructor (t2oBytes: nat, o2tBytes: nat, policy: Policy)
      ensures Valid() && history == []
      ensures this.t2oBytes == t2oBytes && this.o2tBytes == o2tBytes && this.policy == policy
    {
      this.t2oBytes, this.o2tBytes, this.policy := t2oBytes, o2tBytes, policy;
      connected, hasData, everData, lastSeq, haveSeq := false, false, false, 0, false;
      lastGood, latest, toSend := Zeros(t2oBytes), Zeros(t2oBytes), Zeros(o2tBytes);
      outOfOrder, history := 0, [];
    }

    /** connect_device, once the target has accepted the connection. */
    method Open()
      requires Valid() && !connected
      modifies this
      ensures Valid() && history == old(history) + [Opened] && toSend == old(toSend)
    {
      HistoryNext(history, Opened);
      ImageNext(history, Opened, t2oBytes);
      hasData, haveSeq, connected := false, false, true;
      history := history + [Opened];
    }

    /** The receive listener. A connection that is closed delivers nothing. */
    method Receive(f: Frame)
      requires Valid() && connected
      modifies this
      ensures Valid() && history == old(history) + [Received(f)] && toSend == old(toSend)
    {
      HistoryNext(history, Received(f));
      ImageNext(history, Received(f), t2oBytes);
      hide Arrivals, Kept, Image, TotalDrops, Connected, EverDelivered, FitTo, SignedDiff16, Count16;
      history := history + [Received(f)];
      if haveSeq && SignedDiff16(Count16(f), lastSeq) <= 0 {
        OnlineMeansThisConnection(old(history), t2oBytes);
        outOfOrder := outOfOrder + 1;
        return;
      }
      lastSeq, haveSeq := Count16(f), true;
      latest := FitTo(f.data, t2oBytes);
      lastGood := latest;
      hasData, everData := true, true;
    }

    /** The close listener, or the poll finding the connection object gone. */
    method Close()
      requires Valid() && connected
      modifies this
      ensures Valid() && history == old(history) + [Lost] && toSend == old(toSend)
    {
      HistoryNext(history, Lost);
      ImageNext(history, Lost, t2oBytes);
      connected := false;
      history := history + [Lost];
    }
  }

  /** What one more event does to the connection. */
  lemma HistoryNext(h: seq<Event>, e: Event)
    ensures var g := h + [e];
            && Connected(g) == (e.Opened? || (e.Received? && Connected(h)))
            && EverDelivered(g) == (EverDelivered(h) || e.Received?)
            && Arrivals(g) == (match e case Opened => [] case Received(f) => Arrivals(h) + [f] case Lost => Arrivals(h))
  {
    var g := h + [e];
    assert g[..|h|] == h && g[|h|] == e;
    if EverDelivered(h) {
      var i :| 0 <= i < |h| && h[i].Received?;
      assert g[i].Received?;
    }
  }

  /** What one more event does to the image and the drops: only a frame the filter takes changes the image. */
  lemma ImageNext(h: seq<Event>, e: Event, n: nat)
    ensures var g, arr, k := h + [e], Arrivals(h), Kept(Arrivals(h));
            var taken := e.Received? && (k < 0 || Advances(e.frame, arr[k]));
            && Image(g, n) == (if taken then FitTo(e.frame.data, n) else Image(h, n))
            && TotalDrops(g) == TotalDrops(h) + (if e.Received? && !taken then 1 else 0)
            && (e.Received? ==> Kept(Arrivals(g)) == if taken then |arr| else k)
  {
    var g := h + [e];
    assert g[..|h|] == h && g[|h|] == e;
    HistoryNext(h, e);
    hide Arrivals, Advances;
    if e.Received? {
      assert Arrivals(g)[..|Arrivals(h)|] == Arrivals(h);
    }
  }
}

/** The scanner's aggregate exchange: every device's health byte and slice, written in place. */
module ScannerExchange {
  import opened Words
  import opened Statuses
  import opened ScannerDevice
  import opened ScannerTable

  /** What the core publishes in shared memory after reading its own copy of the table. */
  datatype Layout = Layout(deviceCount: nat, healthBytes: nat, o2tTotal: nat, t2oTotal: nat, inputBytes: nat)

  /** The core's half of start-up: the aggregate input image has to fit one frame. */
  function CoreLayout(t: Table): Option<Layout> {
    var inBytes := |t.devices| + t.totalT2o;
    if inBytes > MAX_FRAME_BYTES then None
    else Some(Layout(|t.devices|, |t.devices|, t.totalO2t, t.totalT2o, inBytes))
  }

  /** The scanner's half: its own table has to agree with the published layout. */
  predicate CrossCheck(l: Layout, t: Table) {
    l.deviceCount == |t.devices| && l.o2tTotal == t.totalO2t && l.t2oTotal == t.totalT2o
  }

  /** Both checks passed, on two tables that need not be the same one. */
  ghost predicate Agreed(core: Table, t: Table, l: Layout) {
    Packed(core) && Packed(t) && CoreLayout(core) == Some(l) && CrossCheck(l, t)
  }

  /** Both start exactly if the image fits a frame and the two tables agree in size, and then on this layout. */
  lemma AgreedExactly(core: Table, t: Table, l: Layout)
    requires Packed(core) && Packed(t)
    ensures Agreed(core, t, l) <==>
              && |core.devices| + core.totalT2o <= 496
              && |t.devices| == |core.devices| && t.totalO2t == core.totalO2t && t.totalT2o == core.totalT2o
              && l == Layout(|t.devices|, |t.devices|, t.totalO2t, t.totalT2o, |t.devices| + t.totalT2o)
  {
    hide Packed;
  }

  /** The device objects stand for the rows of the table. */
  ghost predicate Serves(devices: seq<Device>, t: Table)
    reads devices
  {
    && |devices| == |t.devices|
    && (forall i, j :: 0 <= i < j < |devices| ==> devices[i] != devices[j])
    && forall i :: 0 <= i < |devices| ==> StandsFor(devices[i], t, i)
  }

  // ---------------------------------------------------------------- the aggregate image

  /** What one device contributes to the input image. */
  datatype View = View(health: byte, slice: seq<byte>)

  ghost function ViewOf(d: Device): View
    reads d
  {
    View(Health(d.history), Slice(d.history, d.policy, d.t2oBytes))
  }

  ghost function Views(devices: seq<Device>): seq<View>
    reads devices
  {
    seq(|devices|, i requires 0 <= i < |devices| reads devices => ViewOf(devices[i]))
  }

  /** One view per row, each slice of the row's size. */
  predicate Shaped(vs: seq<View>, t: Table) {
    |vs| == |t.devices| && forall i :: 0 <= i < |vs| ==> |vs[i].slice| == t.devices[i].row.t2oBytes
  }

  function Slices(vs: seq<View>): seq<byte> {
    if vs == [] then [] else Slices(vs[..|vs| - 1]) + vs[|vs| - 1].slice
  }

  function Healths(vs: seq<View>): seq<byte> {
    seq(|vs|, i requires 0 <= i < |vs| => vs[i].health)
  }

  /** The input image: one health byte per device, then the slices one after another. */
  function Aggregate(vs: seq<View>): seq<byte> {
    Healths(vs) + Slices(vs)
  }

  lemma {:induction false} SlicesLength(vs: seq<View>, t: Table, n: nat)
    requires Shaped(vs, t) && n <= |vs|
    ensures |Slices(vs[..n])| == SumT2o(Rows(t)[..n])
  {
    if n > 0 {
      SlicesLength(vs, t, n - 1);
      assert vs[..n][..n - 1] == vs[..n - 1];
      assert Rows(t)[..n][..n - 1] == Rows(t)[..n - 1];
    }
  }

  lemma {:induction false} SlicesPrefix(vs: seq<View>, n: nat)
    requires n <= |vs|
    ensures Slices(vs[..n]) <= Slices(vs)
  {
    if n < |vs| {
      var p := vs[..|vs| - 1];
      SlicesPrefix(p, n);
      assert p[..n] == vs[..n];
    } else {
      assert vs[..n] == vs;
    }
  }

  /** The image shows every device exactly where the table places it. */
  lemma AggregateAt(vs: seq<View>, t: Table, i: nat)
    requires Packed(t) && Shaped(vs, t) && i < |vs|
    ensures |Aggregate(vs)| == |vs| + t.totalT2o && Aggregate(vs)[i] == vs[i].health
    ensures var at := |vs| + t.devices[i].t2oOffset;
            at + |vs[i].slice| <= |Aggregate(vs)| && Aggregate(vs)[at..at + |vs[i].slice|] == vs[i].slice
  {
    assert PlacedAt(t, i);
    SlicesLength(vs, t, |vs|);
    assert vs[..|vs|] == vs && Rows(t)[..|vs|] == Rows(t);
    SlicesLength(vs, t, i);
    SlicesPrefix(vs, i + 1);
    assert vs[..i + 1][..i] == vs[..i];
    assert Slices(vs[..i + 1]) == Slices(vs[..i]) + vs[i].slice;
  }

  /** One device's state affects only its own health byte and its own slice. */
  lemma OnlyOwnBytes(vs: seq<View>, ws: seq<View>, t: Table, i: nat, p: nat)
    requires Packed(t) && Shaped(vs, t) && Shaped(ws, t) && i < |vs|
    requires forall j :: 0 <= j < |vs| && j != i ==> vs[j] == ws[j]
    requires p < |vs| + t.totalT2o && p != i && (p >= |vs| ==> !Owns(t, i, p - |vs|))
    ensures |Aggregate(vs)| == |Aggregate(ws)| == |vs| + t.totalT2o && Aggregate(vs)[p] == Aggregate(ws)[p]
  {
    hide Aggregate;
    AggregateAt(vs, t, i);
    AggregateAt(ws, t, i);
    if p < |vs| {
      AggregateAt(vs, t, p);
      AggregateAt(ws, t, p);
    } else {
      var q := p - |vs|;
      assert Rows(t)[..|vs|] == Rows(t);
      SlicesCover(t, |vs|, q);
      var j :| 0 <= j < |vs| && Owns(t, j, q);
      AggregateAt(vs, t, j);
      AggregateAt(ws, t, j);
      var b := q - t.devices[j].t2oOffset;
      var at := |vs| + t.devices[j].t2oOffset;
      assert Aggregate(vs)[p] == Aggregate(vs)[at..at + |vs[j].slice|][b];
      assert Aggregate(ws)[p] == Aggregate(ws)[at..at + |ws[j].slice|][b];
    }
  }

  /** An image that shows every device in its place is the aggregate image. */
  lemma {:induction false} ShownIsAggregate(image: seq<byte>, vs: seq<View>, t: Table, n: nat)
    requires Packed(t) && Shaped(vs, t) && n <= |vs| && |image| == |vs| + t.totalT2o
    requires forall i :: 0 <= i < |vs| ==> Shows(image, vs, t, i)
    ensures |vs| + SumT2o(Rows(t)[..n]) <= |image|
    ensures image[|vs|..|vs| + SumT2o(Rows(t)[..n])] == Slices(vs[..n])
  {
    hide Packed, Rows, SumT2o, SumO2t, Slices, Shows;
    if n == 0 {
      NoSlices(vs, t);
    } else {
      ShownIsAggregate(image, vs, t, n - 1);
      SlicePlace(t, n - 1);
      SlicesLast(vs, n);
      assert Shows(image, vs, t, n - 1);
      ShownAt(image, vs, t, n - 1);
      var at := |vs| + t.devices[n - 1].t2oOffset;
      Join(image, |vs|, at, at + |vs[n - 1].slice|);
    }
  }

  lemma NoSlices(vs: seq<View>, t: Table)
    ensures SumT2o(Rows(t)[..0]) == 0 && Slices(vs[..0]) == []
  {}

  lemma ShownAt(image: seq<byte>, vs: seq<View>, t: Table, i: nat)
    requires Shaped(vs, t) && i < |vs| && Shows(image, vs, t, i)
    ensures var at := |vs| + t.devices[i].t2oOffset;
            at + |vs[i].slice| <= |image| && image[at..at + |vs[i].slice|] == vs[i].slice
  {}

  lemma Join(s: seq<byte>, a: nat, b: nat, c: nat)
    requires a <= b <= c <= |s|
    ensures s[a..c] == s[a..b] + s[b..c]
  {}

  lemma SlicePlace(t: Table, i: nat)
    requires Packed(t) && i < |t.devices|
    ensures t.devices[i].t2oOffset == SumT2o(Rows(t)[..i])
    ensures SumT2o(Rows(t)[..i + 1]) == t.devices[i].t2oOffset + t.devices[i].row.t2oBytes <= t.totalT2o
  {
    assert PlacedAt(t, i);
    SliceEnds(t, i);
  }

  lemma SlicesLast(vs: seq<View>, n: nat)
    requires 0 < n <= |vs|
    ensures Slices(vs[..n]) == Slices(vs[..n - 1]) + vs[n - 1].slice
  {
    assert vs[..n][..n - 1] == vs[..n - 1];
  }

  /** Device `i`'s health byte and slice are in the image. */
  predicate Shows(image: seq<byte>, vs: seq<View>, t: Table, i: int)
    requires Shaped(vs, t) && 0 <= i < |vs|
  {
    var at := |vs| + t.devices[i].t2oOffset;
    && i < |image| && image[i] == vs[i].health
    && at + |vs[i].slice| <= |image| && image[at..at + |vs[i].slice|] == vs[i].slice
  }

  lemma AllShown(reply: seq<byte>, vs: seq<View>, t: Table)
    requires Packed(t) && Shaped(vs, t) && |vs| + t.totalT2o <= |reply|
    requires forall i :: 0 <= i < |vs| ==> Shows(reply, vs, t, i)
    ensures reply[..|vs| + t.totalT2o] == Aggregate(vs)
  {
    var image := reply[..|vs| + t.totalT2o];
    forall i | 0 <= i < |vs|
      ensures Shows(image, vs, t, i) && image[i] == Healths(vs)[i]
    {
      SliceEnds(t, i);
      assert Shows(reply, vs, t, i);
    }
    ShownIsAggregate(image, vs, t, |vs|);
    hide Shows;
    assert vs[..|vs|] == vs && Rows(t)[..|vs|] == Rows(t);
    assert image[..|vs|] == Healths(vs);
    assert image == image[..|vs|] + image[|vs|..];
  }

  // ---------------------------------------------------------------- the exchange

  /** memcpy into the reply. */
  method Write(reply: array<byte>, at: nat, data: seq<byte>)
    requires at + |data| <= reply.Length
    modifies reply
    ensures reply[at..at + |data|] == data
    ensures forall p :: 0 <= p < reply.Length && !(at <= p < at + |data|) ==> reply[p] == old(reply[p])
  {
    forall b | 0 <= b < |data| {
      reply[at + b] := data[b];
    }
  }

  /** Writing device `i` leaves the devices before it as they are. */
  lemma WritesKeepEarlier(before: seq<byte>, after: seq<byte>, vs: seq<View>, t: Table, j: int, i: int)
    requires Packed(t) && Shaped(vs, t) && 0 <= j < i < |vs| && |after| == |before| && Shows(before, vs, t, j)
    requires forall p :: 0 <= p < |after| && p != i && !(|vs| <= p && Owns(t, i, p - |vs|)) ==> after[p] == before[p]
    ensures Shows(after, vs, t, j)
  {
    var at, n := |vs| + t.devices[j].t2oOffset, |vs[j].slice|;
    forall p | at <= p < at + n
      ensures after[p] == before[p]
    {
      SlicesDisjoint(t, j, i, p - |vs|);
    }
    assert after[at..at + n] == before[at..at + n];
  }

  /** A device's failsafe, slice and health byte. */
  method WriteView(d: Device, i: nat, at: nat, reply: array<byte>)
    requires d.Valid() && i < at && at + d.t2oBytes <= reply.Length
    modifies reply
    ensures reply[i] == ViewOf(d).health && reply[at..at + d.t2oBytes] == ViewOf(d).slice
    ensures forall p :: 0 <= p < reply.Length && p != i && !(at <= p < at + d.t2oBytes) ==> reply[p] == old(reply[p])
  {
    hide Health, Slice, Device.Valid;
    var health, slice := Look(d);
    Write(reply, at, slice);
    reply[i] := health;
  }

  /** A health byte and slice that say what happened to the device. */
  ghost predicate Told(d: Device, health: byte, slice: seq<byte>)
    reads d
  {
    && (health == 1 <==> Live(d.history))
    && (health == 2 <==> !Live(d.history) && exists j :: 0 <= j < |d.history| && d.history[j].Received?)
    && (health == 0 <==> forall j :: 0 <= j < |d.history| ==> !d.history[j].Received?)
    && slice == if !Live(d.history) && d.policy == Clear then Zeros(d.t2oBytes) else Image(d.history, d.t2oBytes)
  }

  lemma ViewTold(d: Device)
    ensures Told(d, ViewOf(d).health, ViewOf(d).slice)
  {
    HealthExactly(d.history);
    SliceExactly(d.history, d.policy, d.t2oBytes);
  }

  /** Every device is told of at its place in the image. */
  ghost predicate AllTold(devices: seq<Device>, t: Table, image: seq<byte>)
    reads devices
  {
    |devices| == |t.devices| &&
    forall i :: 0 <= i < |devices| ==>
                  var at := |devices| + t.devices[i].t2oOffset;
                  && at + devices[i].t2oBytes <= |image|
                  && Told(devices[i], image[i], image[at..at + devices[i].t2oBytes])
  }

  lemma AggregateTold(devices: seq<Device>, t: Table)
    requires Packed(t) && Serves(devices, t)
    ensures AllTold(devices, t, Aggregate(Views(devices)))
  {
    var vs := Views(devices);
    hide Aggregate, Told, Packed;
    forall i | 0 <= i < |devices|
      ensures var at := |devices| + t.devices[i].t2oOffset;
              && at + devices[i].t2oBytes <= |Aggregate(vs)|
              && Told(devices[i], Aggregate(vs)[i], Aggregate(vs)[at..at + devices[i].t2oBytes])
    {
      assert StandsFor(devices[i], t, i) && vs[i] == ViewOf(devices[i]);
      AggregateAt(vs, t, i);
      ViewTold(devices[i]);
    }
  }

  /** What a device has to show: its latest frame while online, else what its failsafe policy says. */
  method Look(d: Device) returns (health: byte, slice: seq<byte>)
    requires d.Valid()
    ensures health == ViewOf(d).health && slice == ViewOf(d).slice && |slice| == d.t2oBytes
    ensures Told(d, health, slice)
  {
    HealthExactly(d.history);
    SliceExactly(d.history, d.policy, d.t2oBytes);
    hide Live, Image, Arrivals, Connected, EverDelivered, TotalDrops, Kept;
    if d.connected && d.hasData {
      return ONLINE, d.latest;
    }
    slice := if d.policy.Clear? then Zeros(d.t2oBytes) else d.lastGood;
    health := if d.everData then FAILSAFE else OFFLINE;
  }

  /** The outputs staged for device `i` are its slice of what the core sent, if it was sent in full. */
  ghost predicate Staged(o2t: seq<byte>, t: Table, i: int, d: Device, before: seq<byte>)
    requires 0 <= i < |t.devices|
    reads d
  {
    var at, n := t.devices[i].o2tOffset, t.devices[i].row.o2tBytes;
    d.toSend == if at + n <= |o2t| then o2t[at..at + n] else before
  }

  /** Device `i` stands for row `i`. */
  ghost predicate StandsFor(d: Device, t: Table, i: int)
    requires 0 <= i < |t.devices|
    reads d
  {
    var r := t.devices[i].row;
    d.Valid() && d.t2oBytes == r.t2oBytes && d.o2tBytes == r.o2tBytes && d.policy == r.policy
  }

  /** The body of scanner_exchange's loop; `h` health bytes precede the `total` bytes of slices. */
  method ExchangeDevice(d: Device, t: Table, i: nat, o2t: seq<byte>, reply: array<byte>, h: nat, total: nat)
    requires Packed(t) && i < |t.devices| && i < h && StandsFor(d, t, i) && h + total <= reply.Length
    modifies reply, d`toSend
    ensures StandsFor(d, t, i) && Staged(o2t, t, i, d, old(d.toSend))
    ensures var at := h + t.devices[i].t2oOffset;
            && (at + d.t2oBytes <= h + total ==>
                  reply[i] == ViewOf(d).health && reply[at..at + d.t2oBytes] == ViewOf(d).slice)
            && forall p :: 0 <= p < reply.Length && p != i && !(h <= p && Owns(t, i, p - h)) ==>
                             reply[p] == old(reply[p])
  {
    var at, n := t.devices[i].o2tOffset, t.devices[i].row.o2tBytes;
    if at + n <= |o2t| {
      d.toSend := o2t[at..at + n];
    }
    if t.devices[i].t2oOffset + t.devices[i].row.t2oBytes > total {
      return;
    }
    WriteView(d, i, h + t.devices[i].t2oOffset, reply);
  }

  /** scanner_exchange, with one health byte per device in front of the slices. */
  method ExchangeImages(devices: seq<Device>, t: Table, o2t: seq<byte>, reply: array<byte>) returns (total: nat)
    requires Packed(t) && Serves(devices, t) && |devices| <= reply.Length
    modifies reply, devices`toSend
    ensures Serves(devices, t) && Views(devices) == old(Views(devices))
    ensures total == Min(t.totalT2o, reply.Length - |devices|)
    ensures forall i :: 0 <= i < |devices| ==> Staged(o2t, t, i, devices[i], old(devices[i].toSend))
    ensures total == t.totalT2o ==> reply[..|devices| + total] == Aggregate(Views(devices))
  {
    hide Health, Slice, Aggregate, Packed, Shows, Staged, Owns, Device.Valid;
    ghost var vs := Views(devices);
    var h := |devices|;
    total := Min(t.totalT2o, reply.Length - h);
    for i := 0 to |devices|
      invariant Serves(devices, t)
      invariant forall j :: 0 <= j < |devices| ==> ViewOf(devices[j]) == vs[j]
      invariant forall j :: 0 <= j < i ==> Staged(o2t, t, j, devices[j], old(devices[j].toSend))
      invariant forall j :: i <= j < |devices| ==> devices[j].toSend == old(devices[j].toSend)
      invariant total == t.totalT2o ==> forall j :: 0 <= j < i ==> Shows(reply[..], vs, t, j)
    {
      ghost var before := reply[..];
      ExchangeDevice(devices[i], t, i, o2t, reply, h, total);
      if total == t.totalT2o {
        ViewShown(before, reply[..], vs, t, i);
      }
    }
    assert Views(devices) == vs;
    if total == t.totalT2o {
      AllShown(reply[..], vs, t);
    }
  }

  /** Once device `i` is written too, the devices up to `i` are shown. */
  lemma ViewShown(before: seq<byte>, after: seq<byte>, vs: seq<View>, t: Table, i: nat)
    requires Packed(t) && Shaped(vs, t) && i < |vs| && |after| == |before| && |vs| + t.totalT2o <= |after|
    requires forall j :: 0 <= j < i ==> Shows(before, vs, t, j)
    requires forall p :: 0 <= p < |after| && p != i && !(|vs| <= p && Owns(t, i, p - |vs|)) ==> after[p] == before[p]
    requires var at := |vs| + t.devices[i].t2oOffset;
             at + |vs[i].slice| <= |vs| + t.totalT2o ==>
               after[i] == vs[i].health && after[at..at + |vs[i].slice|] == vs[i].slice
    ensures forall j :: 0 <= j <= i ==> Shows(after, vs, t, j)
  {
    SliceEnds(t, i);
    forall j | 0 <= j < i
      ensures Shows(after, vs, t, j)
    {
      WritesKeepEarlier(before, after, vs, t, j, i);
    }
  }

  /**
   The scanner's answer to one request. After the core's size check and the scanner's own check
   against the published layout, no slice is skipped and the reply is the whole input image the
   core asked for.
   */
  method Answer(core: Table, t: Table, l: Layout, devices: seq<Device>, o2t: seq<byte>, reply: array<byte>)
    returns (len: nat)
    requires Agreed(core, t, l) && Serves(devices, t) && reply.Length == MAX_FRAME_BYTES
    modifies reply, devices`toSend
    ensures Serves(devices, t) && Views(devices) == old(Views(devices))
    ensures len == l.inputBytes && reply[..len] == Aggregate(Views(devices)) && AllTold(devices, t, reply[..len])
    ensures |o2t| == l.o2tTotal ==>
              forall i :: 0 <= i < |devices| ==>
                            var at := t.devices[i].o2tOffset;
                            at + devices[i].o2tBytes <= |o2t| && devices[i].toSend == o2t[at..at + devices[i].o2tBytes]
  {
    hide AllTold, Aggregate, Health, Slice, Device.Valid;
    forall b | 0 <= b < l.healthBytes {
      reply[b] := 0;
    }
    var data := ExchangeImages(devices, t, o2t, reply);
    len := l.healthBytes + data;
    AggregateTold(devices, t);
    forall i | 0 <= i < |devices|
      ensures Staged(o2t, t, i, devices[i], old(devices[i].toSend))
      ensures t.devices[i].o2tOffset + devices[i].o2tBytes <= t.totalO2t
    {
      SliceEnds(t, i);
    }
  }

  /** The devices among the first `n` that have a connection open that delivered. */
  ghost function LiveDevices(devices: seq<Device>, n: nat): set<int>
    requires n <= |devices|
    reads devices
  {
    set i | 0 <= i < n && Live(devices[i].history)
  }

  lemma LiveNext(devices: seq<Device>, n: nat)
    requires n < |devices|
    ensures |LiveDevices(devices, n + 1)| == |LiveDevices(devices, n)| + if Live(devices[n].history) then 1 else 0
  {
    hide Live;
    assert LiveDevices(devices, n + 1) == LiveDevices(devices, n) + if Live(devices[n].history) then {n} else {};
  }

  lemma DeviceLive(d: Device)
    requires d.Valid()
    ensures d.connected && d.hasData <==> Live(d.history)
  {
    HealthExactly(d.history);
  }

  lemma HealthsLength(devices: seq<Device>)
    ensures |Healths(Views(devices))| == |devices|
  {}

  lemma HealthShown(devices: seq<Device>, i: nat)
    requires i < |devices|
    ensures i < |Healths(Views(devices))| && (Healths(Views(devices))[i] == 1 <==> Live(devices[i].history))
  {
    HealthExactly(devices[i].history);
  }

  /** The devices that are live are those the image shows ONLINE. */
  lemma {:induction false} LiveIsShown(devices: seq<Device>, n: nat)
    requires n <= |devices|
    ensures |LiveDevices(devices, n)| == multiset(Healths(Views(devices))[..n])[1]
  {
    hide *;
    var healths := Healths(Views(devices));
    HealthsLength(devices);
    if n == 0 {
      NoneLive(devices);
      assert healths[..0] == [];
    } else {
      LiveIsShown(devices, n - 1);
      LiveNext(devices, n - 1);
      HealthShown(devices, n - 1);
      assert healths[..n] == healths[..n - 1] + [healths[n - 1]];
    }
  }

  /** scanner_online: as many devices as are live, and as the input image shows ONLINE. */
  method Online(devices: seq<Device>, t: Table) returns (n: nat)
    requires Serves(devices, t)
    ensures n == |LiveDevices(devices, |devices|)|
    ensures n == multiset(Aggregate(Views(devices))[..|devices|])[ONLINE]
  {
    hide Live, LiveDevices, Packed, Slices, Slice, Health, Device.Valid;
    n := 0;
    NoneLive(devices);
    for i := 0 to |devices|
      invariant n == |LiveDevices(devices, i)|
    {
      assert StandsFor(devices[i], t, i);
      DeviceLive(devices[i]);
      LiveNext(devices, i);
      if devices[i].connected && devices[i].hasData {
        n := n + 1;
      }
    }
    LiveIsShown(devices, |devices|);
    ghost var healths := Healths(Views(devices));
    assert healths[..|devices|] == healths == Aggregate(Views(devices))[..|devices|];
  }

  lemma NoneLive(devices: seq<Device>)
    ensures LiveDevices(devices, 0) == {}
  {}
}

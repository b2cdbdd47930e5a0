/**
 One exchange of the scanner role, across both processes: the scanner answers the core's request with
 the aggregate image, and the proxy hands exactly that image to the scan.
 */
module ScannerCall {
  import opened Words
  import opened Statuses
  import opened Failsafe
  import opened ReplyWait
  import opened Adapters
  import opened ScannerDevice
  import opened ScannerTable
  import opened ScannerExchange

  /** In time and woken, and nothing but late frames. */
  predicate OnlyLate(rounds: seq<Round>, seqno: uint32, deadline: nat) {
    forall k :: 0 <= k < |rounds| ==>
                  && rounds[k].now < deadline && rounds[k].wake.Woke?
                  && forall l :: 0 <= l < |rounds[k].frames| ==> ReplyWait.Late(rounds[k].frames[l], seqno)
  }

  /** After late frames only, the first frame with the own sequence number is the reply. */
  lemma ReplyAfterLate(before: seq<Round>, last: Round, late: seq<Popped>, reply: Popped, seqno: uint32, deadline: nat)
    requires OnlyLate(before, seqno, deadline) && last.now < deadline && last.wake.Woke?
    requires last.frames == late + [reply] && reply.Got? && reply.seqno == seqno
    requires forall l :: 0 <= l < |late| ==> ReplyWait.Late(late[l], seqno)
    ensures Await(before + [last], seqno, deadline) == Reply(reply)
  {
    var rounds := before + [last];
    assert forall k :: 0 <= k < |before| ==> rounds[k] == before[k];
    assert forall l :: 0 <= l < |late| ==> last.frames[l] == late[l];
    ReplyAccepted(rounds, seqno, deadline, |before|, |late|);
  }

  /** The proxy's half: an answer in time is the image, and the count of devices online decides the state. */
  method TakeReply(p: ScannerProxy, out: seq<byte>, image: array<byte>, env: Env, reply: Popped)
    returns (st: Status)
    requires p.Valid() && !p.state.Closed? && image != p.lastGood
    requires |out| <= p.outputBytes && image.Length <= p.inputBytes
    requires Plausible(env) && env.pushed && Later(p.config, p.history, env.end)
    requires Await(env.rounds, p.nextSeq, env.t0 + p.budget) == Reply(reply)
    requires reply.Got? && |reply.data| == image.Length
    modifies p, p.lastGood, image
    ensures p.Valid() && st == Ok && image[..] == reply.data
    ensures p.state == if env.devicesOnline > 0 then AdapterState.Online else Degraded
  {
    hide *;
    AwaitExactly(env.rounds, p.nextSeq, env.t0 + p.budget);
    FitWhole(reply.data);
    ghost var h, seqno, was := p.history, p.nextSeq, p.state;
    st := p.Exchange(out, image, env);
    AnsweredCall(env, seqno, p.budget, false, st, image[..], reply);
    StateOnSuccess(p.config, h, env.end, was, env.devicesOnline > 0, p.state);
  }

  /**
   A call of the scanner proxy that the scanner answers in time, whatever late replies it has to drop
   first: it succeeds, the image it returns is the aggregate of all devices, every device's outputs are
   staged, and the proxy reports ONLINE exactly if the image shows some device ONLINE.
   */
  method ScanDevices(p: ScannerProxy, core: Table, t: Table, l: Layout, devices: seq<Device>,
                     out: seq<byte>, image: array<byte>, reply: array<byte>,
                     t0: nat, before: seq<Round>, now: nat, late: seq<Popped>, end: nat)
    returns (st: Status)
    requires p.Valid() && !p.state.Closed? && p.inputBytes == l.inputBytes && p.outputBytes == l.o2tTotal
    requires Agreed(core, t, l) && Serves(devices, t) && reply.Length == MAX_FRAME_BYTES
    requires |out| == l.o2tTotal && image.Length == l.inputBytes
    requires image != p.lastGood && reply != p.lastGood && image != reply
    requires t0 <= now <= end && now < t0 + p.budget && Later(p.config, p.history, end)
    requires forall k :: 0 <= k < |before| ==> t0 <= before[k].now <= end
    requires OnlyLate(before, p.nextSeq, t0 + p.budget)
    requires forall k :: 0 <= k < |late| ==> ReplyWait.Late(late[k], p.nextSeq)
    modifies p, p.lastGood, image, reply, devices`toSend
    ensures p.Valid() && Serves(devices, t) && Views(devices) == old(Views(devices))
    ensures st == Ok && image[..] == Aggregate(Views(devices)) && AllTold(devices, t, image[..])
    ensures forall i :: 0 <= i < |devices| ==>
                          var at := t.devices[i].o2tOffset;
                          at + devices[i].o2tBytes <= |out| && devices[i].toSend == out[at..at + devices[i].o2tBytes]
    ensures p.state == if ONLINE in image[..|devices|] then AdapterState.Online else Degraded
    ensures p.state == if LiveDevices(devices, |devices|) != {} then AdapterState.Online else Degraded
  {
    hide OnlyLate, Await, Packed, Aggregate, Later, ScannerProxy.Valid, AllTold, Live, LiveDevices;
    hide Health, Slice, Device.Valid;
    var len := Answer(core, t, l, devices, out, reply);
    var n := ScannerExchange.Online(devices, t);
    var frame := Got(p.nextSeq, false, reply[..len]);
    var last := Round(now, Woke, late + [frame]);
    ReplyAfterLate(before, last, late, frame, p.nextSeq, t0 + p.budget);
    st := TakeReply(p, out, image, Env(t0, true, before + [last], end, n), frame);
  }
}

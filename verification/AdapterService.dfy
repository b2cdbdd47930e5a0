/**
 The adapter's service loop as it runs on the shared rings: one turn of the loop is the
 wait, pop, serve, push and post steps of module Exchange, taken in that order.
 */
module AdapterService {
  import opened Words
  import opened Statuses
  import opened SpscRing
  import opened MirrorBackend
  import E = Exchange

  /** PLC_IPC_FRAME_DATA_INVALID. */
  const DATA_INVALID: uint32 := 1

  /** What the two processes share: ring contents and pending posts. */
  datatype Channel = Channel(req: seq<Frame>, rsp: seq<Frame>, reqPosts: nat, rspPosts: nat)

  /** One turn of the loop, seen on the channel. */
  function Turn(c: Channel, inputBytes: nat, invalid: bool): Channel {
    if c.reqPosts == 0 then c
    else
      var woken := c.(reqPosts := c.reqPosts - 1);
      if c.req == [] then woken
      else
        var popped := woken.(req := c.req[1..]);
        if c.req[0].Malformed? then popped
        else if |c.rsp| == SLOTS then popped.(rsp := [])
        else popped.(rsp := c.rsp + [Answer(c.req[0], inputBytes, invalid)], rspPosts := c.rspPosts + 1)
  }

  /** The mirror's answer to a request: its own sequence number, its own outputs. */
  function Answer(f: Frame, inputBytes: nat, invalid: bool): Frame
    requires f.Frame?
  {
    var data := f.data[..Min(|f.data|, MAX_FRAME_BYTES)];
    Frame(f.seqno, if invalid then DATA_INVALID else 0, MirrorReply(data, inputBytes, MAX_FRAME_BYTES))
  }

  /** A reply that carries the request's sequence number and, at the configured length, its bytes. */
  predicate Reflects(r: Frame, f: Frame, inputBytes: nat)
    requires f.Frame?
  {
    && r.Frame? && r.seqno == f.seqno
    && |r.data| == Min(if inputBytes != 0 then inputBytes else |f.data|, MAX_FRAME_BYTES)
    && forall i :: 0 <= i < |r.data| ==> r.data[i] == if i < |f.data| then f.data[i] else 0
  }

  lemma AnswerReflects(f: Frame, inputBytes: nat, invalid: bool)
    requires f.Frame?
    ensures var r := Answer(f, inputBytes, invalid);
            Reflects(r, f, inputBytes) && r.flags == if invalid then 1 else 0
  {}

  /** Cutting a request to a frame's room does not change its answer. */
  lemma AnswerOfCut(f: Frame, cut: Frame, inputBytes: nat, invalid: bool)
    requires f.Frame? && cut == Clamped(f, MAX_FRAME_BYTES)
    ensures Answer(cut, inputBytes, invalid) == Answer(f, inputBytes, invalid)
  {
    assert cut.data[..Min(|cut.data|, MAX_FRAME_BYTES)] == f.data[..Min(|f.data|, MAX_FRAME_BYTES)];
  }

  /** How the doorbell wait ended. */
  datatype Bell = Rung | Silent | Broken

  /** The status block the service keeps up to date. */
  datatype Report = Report(cycles: nat, lastError: Status, ioConnections: nat, assemblyWrites: nat)

  /** The status block after a turn that found the channel so; `writes` counts the publications so far. */
  function Reported(r: Report, c: Channel, connections: nat, writes: nat): Report {
    if c.reqPosts == 0 || c.req == [] then r
    else if c.req[0].Malformed? then r.(lastError := ErrProto)
    else Report(r.cycles + 1, if |c.rsp| == SLOTS then ErrAgain else r.lastError, connections, writes + 1)
  }

  class Service {
    const req: Ring
    const rsp: Ring
    const backend: Mirror
    const coreTimeout: nat
    var reqPosts: nat
    var rspPosts: nat
    var lastRequest: nat
    var report: Report

    ghost predicate Valid()
      reads this, req, req.slots, rsp, rsp.slots, backend, backend.image
    {
      && req != rsp && req.slots != rsp.slots
      && req.Valid() && rsp.Valid() && backend.Valid()
    }

    ghost function View(): Channel
      requires Valid()
      reads this, req, req.slots, rsp, rsp.slots, backend, backend.image
    {
      Channel(req.Contents(), rsp.Contents(), reqPosts, rspPosts)
    }

    /** The service attaches to rings the core has set up. */
    constructor (req: Ring, rsp: Ring, backend: Mirror, coreTimeout: nat, reqPosts: nat, rspPosts: nat, now: nat)
      requires req != rsp && req.slots != rsp.slots
      requires req.Valid() && rsp.Valid() && backend.Valid()
      ensures Valid() && View() == Channel(req.Contents(), rsp.Contents(), reqPosts, rspPosts)
      ensures this.req == req && this.rsp == rsp && this.backend == backend
      ensures this.coreTimeout == coreTimeout && lastRequest == now && report == Report(0, Ok, 0, 0)
    {
      this.req, this.rsp, this.backend := req, rsp, backend;
      this.coreTimeout := coreTimeout;
      this.reqPosts, this.rspPosts := reqPosts, rspPosts;
      lastRequest, report := now, Report(0, Ok, 0, 0);
    }

    /**
     One turn at time `now`, with `connections` open to the backend and `peerRuns` the peer's run bit.
     The wait is silent only if no post is pending.  The loop stops on a broken doorbell, which changes
     nothing, and when a core has asked nothing for `coreTimeout`.
     */
    method ServeOnce(bell: Bell, now: nat, connections: nat, peerRuns: bool) returns (stop: bool)
      requires Valid() && lastRequest <= now && (bell.Rung? <==> !bell.Broken? && reqPosts > 0)
      modifies this, req`tail, rsp, rsp.slots, backend, backend.image
      ensures Valid()
      ensures View() == if bell.Broken? then old(View())
                        else Turn(old(View()), backend.inputBytes, connections == 0 || !peerRuns)
      ensures stop <==> bell.Broken? || (bell.Silent? && now - old(lastRequest) >= coreTimeout)
      ensures lastRequest == if bell.Rung? && old(req.Contents()) != [] then now else old(lastRequest)
      ensures report == if bell.Broken? then old(report)
                        else Reported(old(report), old(View()), connections, old(backend.writes))
      ensures bell.Rung? ==>
                && reqPosts == old(reqPosts) - 1
                && req.Contents() == (if old(req.Contents()) == [] then [] else old(req.Contents())[1..])
      ensures !bell.Rung? || old(req.Contents()) == [] || old(req.Contents())[0].Malformed? ==>
                && rsp.Contents() == old(rsp.Contents()) && rspPosts == old(rspPosts)
                && report.cycles == old(report).cycles
                && (bell.Rung? && old(req.Contents()) != [] ==> report.lastError == ErrProto)
      ensures bell.Rung? && old(req.Contents()) != [] && old(req.Contents())[0].Frame? ==>
                var f := old(req.Contents())[0];
                && report.cycles == old(report).cycles + 1 && report.ioConnections == connections
                && if |old(rsp.Contents())| == 4 then
                  rsp.Contents() == [] && rspPosts == old(rspPosts) && report.lastError == ErrAgain
                else
                  && |rsp.Contents()| == |old(rsp.Contents())| + 1 && rspPosts == old(rspPosts) + 1
                  && rsp.Contents()[..|old(rsp.Contents())|] == old(rsp.Contents())
                  && Reflects(rsp.Contents()[|old(rsp.Contents())|], f, backend.inputBytes)
                  && rsp.Contents()[|old(rsp.Contents())|].flags == if connections == 0 || !peerRuns then 1 else 0
    {
      hide Ring.Valid, Ring.Contents, Mirror.Valid, MirrorReply, Reflects, Answer;
      if bell.Silent? {
        return now - lastRequest >= coreTimeout;
      }
      if bell.Broken? {
        return true;
      }
      stop := false;
      reqPosts := reqPosts - 1;
      var st, frame := req.Pop(MAX_FRAME_BYTES);
      if st == ErrAgain {
        return;
      }
      lastRequest := now;
      if st != Ok {
        report := report.(lastError := st);
        return;
      }
      assert frame.data[..Min(|frame.data|, MAX_FRAME_BYTES)] == frame.data;
      ghost var f := old(req.Contents())[0];
      AnswerReflects(f, backend.inputBytes, connections == 0 || !peerRuns);
      AnswerOfCut(f, frame, backend.inputBytes, connections == 0 || !peerRuns);
      AnswerFrame(frame, connections, peerRuns);
    }

    /** The rest of a turn, once a request has been popped. */
    method AnswerFrame(frame: Frame, connections: nat, peerRuns: bool)
      requires frame.Frame? && rsp.Valid() && backend.Valid()
      modifies this`rspPosts, this`report, rsp, rsp.slots, backend, backend.image
      ensures rsp.Valid() && backend.Valid() && backend.image == old(backend.image)
      ensures var full := |old(rsp.Contents())| == SLOTS;
              var answer := Answer(frame, backend.inputBytes, connections == 0 || !peerRuns);
              && rsp.Contents() == (if full then [] else old(rsp.Contents()) + [answer])
              && rspPosts == old(rspPosts) + (if full then 0 else 1)
              && report == Report(old(report).cycles + 1, if full then ErrAgain else old(report).lastError,
                                  connections, old(backend.writes) + 1)
      ensures |old(rsp.Contents())| < 4 ==>
                var r := rsp.Contents()[|old(rsp.Contents())|];
                Reflects(r, frame, backend.inputBytes) && r.flags == if connections == 0 || !peerRuns then 1 else 0
    {
      hide Ring.Valid, Ring.Contents, Mirror.Valid, MirrorReply, Reflects;
      AnswerReflects(frame, backend.inputBytes, connections == 0 || !peerRuns);
      var reply := Mirrored(frame.data);
      var flags: uint32 := 0;
      if connections == 0 {
        flags := DATA_INVALID;
      } else if !peerRuns {
        flags := DATA_INVALID;
      }
      var st := Reply(frame.seqno, flags, reply);
      if st != Ok {
        report := report.(lastError := st);
      }
      report := report.(cycles := report.cycles + 1, ioConnections := connections, assemblyWrites := backend.writes);
    }

    /** Publish the outputs to the backend and fetch the inputs. */
    method Mirrored(data: seq<byte>) returns (reply: seq<byte>)
      requires backend.Valid()
      modifies backend, backend.image
      ensures backend.Valid() && backend.image == old(backend.image) && backend.writes == old(backend.writes) + 1
      ensures |reply| <= MAX_FRAME_BYTES
      ensures reply == MirrorReply(data[..Min(|data|, MAX_FRAME_BYTES)], backend.inputBytes, MAX_FRAME_BYTES)
    {
      backend.Publish(data);
      var buffer := new byte[MAX_FRAME_BYTES];
      var n := backend.Fetch(buffer);
      reply := buffer[..n];
    }

    /** Queue the reply and ring the doorbell; a full ring is emptied instead. */
    method Reply(seqno: uint32, flags: uint32, data: seq<byte>) returns (st: Status)
      requires rsp.Valid() && |data| <= MAX_FRAME_BYTES
      modifies this`rspPosts, rsp, rsp.slots
      ensures rsp.Valid() && st == if |old(rsp.Contents())| == SLOTS then ErrAgain else Ok
      ensures if |old(rsp.Contents())| == SLOTS then rsp.Contents() == [] && rspPosts == old(rspPosts)
              else rsp.Contents() == old(rsp.Contents()) + [Frame(seqno, flags, data)] && rspPosts == old(rspPosts) + 1
    {
      st := rsp.Push(seqno, flags, data);
      if st != Ok {
        rsp.Drain();
      } else {
        rspPosts := rspPosts + 1;
      }
    }
  }

  // ---------------------------------------------------------------- the turn as steps of the exchange

  /** A frame of the exchange as it is written into a slot. */
  function Wire(f: E.Frame): Frame {
    Frame(E.Seq(f), if f.invalid then DATA_INVALID else 0, f.data)
  }

  function Wires(fs: seq<E.Frame>): (r: seq<Frame>)
    ensures |r| == |fs| && forall i :: 0 <= i < |fs| ==> r[i] == Wire(fs[i])
  {
    if fs == [] then [] else [Wire(fs[0])] + Wires(fs[1..])
  }

  /** The channel of an exchange state. */
  function Shared(s: E.State): Channel {
    Channel(Wires(s.req), Wires(s.rsp), s.reqPosts, s.rspPosts)
  }

  /** The steps of one turn that is not interrupted. */
  function Steps(s: E.State, inputBytes: nat, invalid: bool): seq<E.Action>
    requires s.adapter.Top?
  {
    if s.reqPosts == 0 then []
    else if s.req == [] then [E.Wake, E.PopRequest]
    else
      var served := [E.Wake, E.PopRequest, E.Serve(MirrorReply(s.req[0].data, inputBytes, MAX_FRAME_BYTES), invalid)];
      if |s.rsp| >= SLOTS then served + [E.PushReply] else served + [E.PushReply, E.PostReply]
  }

  /** The steps can be taken one after the other from `s` and end in `t`. */
  ghost predicate Leads(s: E.State, acts: seq<E.Action>, t: E.State)
    decreases |acts|
  {
    if acts == [] then s == t
    else E.Enabled(s, acts[0]) && Leads(E.Apply(s, acts[0]), acts[1..], t)
  }

  lemma LeadsFirst(s: E.State, a: E.Action, rest: seq<E.Action>, t: E.State)
    requires E.Enabled(s, a) && Leads(E.Apply(s, a), rest, t)
    ensures Leads(s, [a] + rest, t)
  {}

  /** The exchange state after a turn that is not interrupted. */
  function Ended(s: E.State, inputBytes: nat, invalid: bool): E.State {
    if s.reqPosts == 0 then s
    else
      var woken := s.(reqPosts := s.reqPosts - 1);
      if s.req == [] then woken
      else
        var f := s.req[0];
        var reply := E.Frame(f.num, invalid, MirrorReply(f.data, inputBytes, MAX_FRAME_BYTES));
        var popped := woken.(req := s.req[1..], taken := f.num, served := s.served[f.num := reply]);
        if |s.rsp| >= SLOTS then popped.(rsp := [])
        else popped.(rsp := s.rsp + [reply], rspPosts := s.rspPosts + 1)
  }

  lemma TurnLeads(s: E.State, inputBytes: nat, invalid: bool)
    requires s.adapter.Top?
    ensures Leads(s, Steps(s, inputBytes, invalid), Ended(s, inputBytes, invalid))
  {
    hide Leads, MirrorReply;
    var t := Ended(s, inputBytes, invalid);
    LeadsNowhere(t);
    if s.reqPosts > 0 {
      var rest := Steps(s, inputBytes, invalid)[1..];
      assert Steps(s, inputBytes, invalid) == [E.Wake] + rest;
      if s.req == [] {
        SpuriousLeads(s);
      } else {
        AnswerLeads(s, inputBytes, invalid);
      }
      hide E.Apply, Steps, Ended;
      LeadsFirst(s, E.Wake, rest, t);
    }
  }

  /** A wake-up that finds no request. */
  lemma SpuriousLeads(s: E.State)
    requires s.adapter.Top? && s.reqPosts > 0 && s.req == []
    ensures Leads(E.Apply(s, E.Wake), [E.PopRequest], s.(reqPosts := s.reqPosts - 1))
  {
    hide Leads;
    var t := s.(reqPosts := s.reqPosts - 1);
    LeadsNowhere(t);
    LeadsFirst(E.Apply(s, E.Wake), E.PopRequest, [], t);
    assert [E.PopRequest] + [] == [E.PopRequest];
  }

  lemma LeadsNowhere(t: E.State)
    ensures Leads(t, [], t)
  {}

  lemma AnswerLeads(s: E.State, inputBytes: nat, invalid: bool)
    requires s.adapter.Top? && s.reqPosts > 0 && s.req != []
    ensures Leads(E.Apply(s, E.Wake), Steps(s, inputBytes, invalid)[1..], Ended(s, inputBytes, invalid))
  {
    hide Leads, MirrorReply;
    var t := Ended(s, inputBytes, invalid);
    var serve := E.Serve(MirrorReply(s.req[0].data, inputBytes, MAX_FRAME_BYTES), invalid);
    var woken := E.Apply(s, E.Wake);
    var popped := E.Apply(woken, E.PopRequest);
    MirrorFits(s.req[0].data, inputBytes);
    var ready := E.Apply(popped, serve);
    assert Replied(ready) == t;
    ReplyLeads(ready);
    LeadsFirst(popped, serve, ReplySteps(ready), t);
    LeadsFirst(woken, E.PopRequest, [serve] + ReplySteps(ready), t);
    assert Steps(s, inputBytes, invalid)[1..] == [E.PopRequest] + ([serve] + ReplySteps(ready));
  }

  /** The last steps of a turn: push and post, or push into a full ring. */
  function ReplySteps(s: E.State): seq<E.Action> {
    if |s.rsp| >= SLOTS then [E.PushReply] else [E.PushReply, E.PostReply]
  }

  function Replied(s: E.State): E.State
    requires s.adapter.Ready?
  {
    if |s.rsp| >= SLOTS then s.(adapter := E.Top, rsp := [])
    else s.(adapter := E.Top, rsp := s.rsp + [s.adapter.reply], rspPosts := s.rspPosts + 1)
  }

  lemma ReplyLeads(s: E.State)
    requires s.adapter.Ready?
    ensures Leads(s, ReplySteps(s), Replied(s))
  {
    hide Leads;
    var t, pushed := Replied(s), E.Apply(s, E.PushReply);
    LeadsNowhere(t);
    if |s.rsp| < SLOTS {
      LeadsFirst(pushed, E.PostReply, [], t);
      assert [E.PostReply] + [] == [E.PostReply];
    }
    LeadsFirst(s, E.PushReply, ReplySteps(s)[1..], t);
    assert ReplySteps(s) == [E.PushReply] + ReplySteps(s)[1..];
  }

  lemma MirrorFits(data: seq<byte>, inputBytes: nat)
    ensures |MirrorReply(data, inputBytes, MAX_FRAME_BYTES)| <= MAX_FRAME_BYTES
  {}

  /**
   A turn is a run of steps of the exchange, from the top of the loop to its top again, and leaves on
   the channel what those steps leave.
   */
  lemma TurnRefines(s: E.State, inputBytes: nat, invalid: bool)
    requires s.adapter.Top? && |s.rsp| <= SLOTS
    requires forall i :: 0 <= i < |s.req| ==> |s.req[i].data| <= MAX_FRAME_BYTES
    ensures Leads(s, Steps(s, inputBytes, invalid), Ended(s, inputBytes, invalid))
    ensures Ended(s, inputBytes, invalid).adapter.Top?
    ensures Shared(Ended(s, inputBytes, invalid)) == Turn(Shared(s), inputBytes, invalid)
  {
    TurnLeads(s, inputBytes, invalid);
    TurnShared(s, inputBytes, invalid);
    hide Leads, Steps, MirrorReply, Shared, Turn;
  }

  lemma TurnShared(s: E.State, inputBytes: nat, invalid: bool)
    requires |s.rsp| <= SLOTS && forall i :: 0 <= i < |s.req| ==> |s.req[i].data| <= MAX_FRAME_BYTES
    ensures Shared(Ended(s, inputBytes, invalid)) == Turn(Shared(s), inputBytes, invalid)
  {
    hide MirrorReply, Wires;
    if s.reqPosts > 0 && s.req != [] {
      var f := s.req[0];
      WiresTail(s.req);
      assert f.data[..Min(|f.data|, MAX_FRAME_BYTES)] == f.data;
      if |s.rsp| < SLOTS {
        WiresPush(s.rsp, E.Frame(f.num, invalid, MirrorReply(f.data, inputBytes, MAX_FRAME_BYTES)));
      }
    }
  }

  lemma WiresPush(fs: seq<E.Frame>, f: E.Frame)
    ensures Wires(fs + [f]) == Wires(fs) + [Wire(f)]
  {}

  lemma WiresTail(fs: seq<E.Frame>)
    requires fs != []
    ensures Wires(fs)[0] == Wire(fs[0]) && Wires(fs)[1..] == Wires(fs[1..])
  {}
}

/**
 One exchange of the adapter role on the real rings, across both processes: the proxy's request goes
 through the request ring, the service loop answers it, and the proxy reads the answer off the
 response ring.
 */
module AdapterCall {
  import opened Words
  import opened Statuses
  import opened ReplyWait
  import opened Failsafe
  import opened Adapters
  import opened AdapterService
  import R = SpscRing
  import E = Exchange
  import ProxyCall

  /** A ring frame as proxy_exchange looks at it: the lowest flag bit says that the data is not valid. */
  function Read(f: R.Frame): Popped {
    if f.Malformed? then BadFrame else Got(f.seqno, f.flags % 2 == 1, f.data)
  }

  /** What the proxy reads of a frame of the exchange is that frame. */
  lemma ReadsWire(f: E.Frame)
    ensures Read(Wire(f)) == ProxyCall.Shown(f)
    ensures Wire(f).seqno == E.Seq(f) && Wire(f).data == f.data && Wire(f).flags == if f.invalid then 1 else 0
  {}

  /** The only frame popped in time, with the awaited number, answers the call. */
  lemma OnlyFrameAnswers(now: nat, frame: Popped, seqno: uint32, deadline: nat)
    requires now < deadline && frame.Got? && frame.seqno == seqno
    ensures Answers([Round(now, Woke, [frame])], seqno, deadline, frame)
  {
    var rounds := [Round(now, Woke, [frame])];
    LateExactly(frame, seqno);
    assert FrameAt(rounds, seqno, deadline, 0, 0) && rounds[0].frames[0] == frame;
  }

  lemma InTime(env: Env, now: nat, frame: Popped, seqno: uint32, budget: nat)
    requires env.t0 <= now <= env.end && now < env.t0 + budget && frame.Got? && frame.seqno == seqno
    requires env.rounds == [Round(now, Woke, [frame])]
    ensures Plausible(env) && Answers(env.rounds, seqno, env.t0 + budget, frame)
  {
    OnlyFrameAnswers(now, frame, seqno, env.t0 + budget);
  }

  /**
   A call that the service answers in time.  With no connection, or a peer that is not running, it
   returns PLC_ERR_AGAIN; otherwise PLC_OK, with the call's own outputs in the image as far as the
   backend's input size goes.
   */
  method CallService(p: EipProxy, sv: Service, out: seq<byte>, image: array<byte>, connections: nat, peerRuns: bool,
                     t0: nat, now: nat, end: nat)
    returns (st: Status)
    requires p.Valid() && !p.state.Closed? && sv.Valid()
    requires |out| <= p.outputBytes && image.Length <= p.inputBytes
    requires image != p.lastGood && image != sv.backend.image && p.lastGood != sv.backend.image
    requires sv.req.Contents() == [] && sv.reqPosts == 0 && sv.lastRequest <= now
    requires t0 <= now <= end && now < t0 + p.budget && Later(p.config, p.history, end)
    modifies p, p.lastGood, image, sv, sv.req, sv.req.slots, sv.rsp, sv.rsp.slots, sv.backend, sv.backend.image
    ensures p.Valid() && sv.Valid() && sv.req.Contents() == [] && sv.rsp.Contents() == []
    ensures connections == 0 || !peerRuns ==> st == ErrAgain
    ensures connections > 0 && peerRuns ==>
              && st == Ok
              && forall i :: 0 <= i < image.Length ==>
                               image[i] == if i < |out| && (sv.backend.inputBytes == 0 || i < sv.backend.inputBytes)
                                           then out[i] else 0
  {
    assert p.outputBytes <= MAX_FRAME_BYTES;
    hide EipProxy.Valid, R.Ring.Valid, R.Ring.Contents, Later, Service.Valid;
    var frame := Ask(sv, p.nextSeq, out, now, connections, peerRuns);
    st := Take(p, out, image, frame, t0, now, end);
  }

  /** The proxy's half: the answer popped in time. */
  method Take(p: EipProxy, out: seq<byte>, image: array<byte>, frame: Popped, t0: nat, now: nat, end: nat)
    returns (st: Status)
    requires p.Valid() && !p.state.Closed? && image != p.lastGood
    requires |out| <= p.outputBytes && image.Length <= p.inputBytes
    requires frame.Got? && frame.seqno == p.nextSeq
    requires t0 <= now <= end && now < t0 + p.budget && Later(p.config, p.history, end)
    modifies p, p.lastGood, image
    ensures p.Valid() && st == (if frame.invalid then ErrAgain else Ok)
    ensures st == Ok ==> image[..] == FitTo(frame.data, image.Length)
  {
    hide *;
    var env := Env(t0, true, [Round(now, Woke, [frame])], end, 0);
    InTime(env, now, frame, p.nextSeq, p.budget);
    ghost var seqno := p.nextSeq;
    st := p.Exchange(out, image, env);
    AnsweredCall(env, seqno, p.budget, true, st, image[..], frame);
  }

  /** The rings' half: drain, push, post, a turn of the service, and the pop of its answer. */
  method Ask(sv: Service, seqno: uint32, out: seq<byte>, now: nat, connections: nat, peerRuns: bool)
    returns (frame: Popped)
    requires sv.Valid() && |out| <= MAX_FRAME_BYTES
    requires sv.req.Contents() == [] && sv.reqPosts == 0 && sv.lastRequest <= now
    modifies sv, sv.req, sv.req.slots, sv.rsp, sv.rsp.slots, sv.backend, sv.backend.image
    ensures sv.Valid() && sv.req.Contents() == [] && sv.rsp.Contents() == []
    ensures frame.Got? && frame.seqno == seqno && (frame.invalid <==> connections == 0 || !peerRuns)
    ensures |frame.data| == Min(if sv.backend.inputBytes != 0 then sv.backend.inputBytes else |out|, MAX_FRAME_BYTES)
    ensures forall i :: 0 <= i < |frame.data| ==> frame.data[i] == if i < |out| then out[i] else 0
  {
    hide R.Ring.Valid, R.Ring.Contents;
    sv.rsp.Drain();
    sv.rspPosts := 0;
    var pushed := sv.req.Push(seqno, 0, out);
    sv.reqPosts := sv.reqPosts + 1;
    var stop := sv.ServeOnce(Rung, now, connections, peerRuns);
    sv.rspPosts := sv.rspPosts - 1;
    var popped, f := sv.rsp.Pop(MAX_FRAME_BYTES);
    frame := Read(f);
  }
}

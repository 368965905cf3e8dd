/** The multi-frame path of a request and its reply: client, broker, reader, broker, client. */
module Routing {
  import opened Records
  import opened Wire
  import opened ReaderModel
  import opened ReaderRuns

  type Frame = Bytes

  // ---------------------------------------------------------------- reception

  /** `struct lcapnet_request`, as a value. */
  datatype Parsed = Parsed(remote: Option<Ident>, forward: Option<Ident>, body: Bytes)

  const NOTHING := Parsed(None, None, [])

  /** What one more frame adds: delimiters are ignored, the first frame is the sender unless there
      is no envelope, the next one the identity to forward to, and the rest is the body. */
  function Update(p: Parsed, frame: Frame, noEnvelope: bool): Parsed {
    if frame == [] then p
    else if p.remote.None? && !noEnvelope then p.(remote := Some(frame))
    else if p.forward.None? then p.(forward := Some(frame))
    else p.(body := p.body + frame)
  }

  function Parse(p: Parsed, frames: seq<Frame>, noEnvelope: bool): Parsed
    decreases |frames|
  {
    if frames == [] then p else Parse(Update(p, frames[0], noEnvelope), frames[1..], noEnvelope)
  }

  function NonEmpty(frames: seq<Frame>): seq<Frame> {
    if frames == [] then []
    else if frames[0] == [] then NonEmpty(frames[1..])
    else [frames[0]] + NonEmpty(frames[1..])
  }

  /** `struct lcapnet_request`, filled frame by frame. */
  class Request {
    const noEnvelope: bool
    var remote: Option<Ident>
    var forward: Option<Ident>
    var body: Bytes

    constructor (noEnvelope: bool)
      ensures this.noEnvelope == noEnvelope && Value() == NOTHING
    {
      this.noEnvelope := noEnvelope;
      remote, forward, body := None, None, [];
    }

    function Value(): Parsed
      reads this
    {
      Parsed(remote, forward, body)
    }

    /** `lcapnet_req_update` */
    method Add(frame: Frame)
      modifies this
      ensures Value() == Update(old(Value()), frame, noEnvelope)
    {
      if |frame| == 0 {
        return;
      }
      if remote.None? && !noEnvelope {
        remote := Some(frame);
        return;
      }
      if forward.None? {
        forward := Some(frame);
        return;
      }
      body := body + frame;
    }
  }

  /** The frame loop of `lcap_rpc_recv_once`. */
  method ReceiveOnce(frames: seq<Frame>, noEnvelope: bool) returns (req: Request)
    ensures fresh(req) && req.Value() == Parse(NOTHING, frames, noEnvelope)
  {
    req := new Request(noEnvelope);
    for i := 0 to |frames|
      invariant req.noEnvelope == noEnvelope
      invariant Parse(req.Value(), frames[i..], noEnvelope) == Parse(NOTHING, frames, noEnvelope)
    {
      assert frames[i..] == [frames[i]] + frames[i + 1..];
      req.Add(frames[i]);
    }
  }

  lemma {:induction false} ParseBody(p: Parsed, frames: seq<Frame>, noEnvelope: bool)
    requires p.forward.Some? && (p.remote.Some? || noEnvelope)
    ensures Parse(p, frames, noEnvelope) == p.(body := p.body + Flatten(NonEmpty(frames)))
    decreases |frames|
  {
    if frames == [] {
      assert p.body + [] == p.body;
    } else {
      ParseBody(Update(p, frames[0], noEnvelope), frames[1..], noEnvelope);
      if frames[0] != [] {
        assert (p.body + frames[0]) + Flatten(NonEmpty(frames[1..])) == p.body + Flatten(NonEmpty(frames));
      }
    }
  }

  lemma {:induction false} ParseForward(p: Parsed, frames: seq<Frame>, noEnvelope: bool)
    requires p.forward.None? && p.body == [] && (p.remote.Some? || noEnvelope) && NonEmpty(frames) != []
    ensures Parse(p, frames, noEnvelope)
         == Parsed(p.remote, Some(NonEmpty(frames)[0]), Flatten(NonEmpty(frames)[1..]))
  {
    if frames[0] == [] {
      ParseForward(p, frames[1..], noEnvelope);
    } else {
      ParseBody(Update(p, frames[0], noEnvelope), frames[1..], noEnvelope);
    }
  }

  /** With an envelope, the non-empty frames are the sender, the identity to forward to, and the
      pieces of the body, however they are split and whatever delimiters lie between them. */
  lemma {:induction false} ParseEnvelope(frames: seq<Frame>)
    requires |NonEmpty(frames)| >= 2
    ensures var ns := NonEmpty(frames);
      Parse(NOTHING, frames, false) == Parsed(Some(ns[0]), Some(ns[1]), Flatten(ns[2..]))
  {
    if frames[0] == [] {
      ParseEnvelope(frames[1..]);
    } else {
      ParseForward(Update(NOTHING, frames[0], false), frames[1..], false);
      assert NonEmpty(frames)[1..] == NonEmpty(frames[1..]);
      assert NonEmpty(frames)[2..] == NonEmpty(frames[1..])[1..];
    }
  }

  lemma {:induction false} NonEmptyConcat(xs: seq<Frame>, ys: seq<Frame>)
    ensures NonEmpty(xs + ys) == NonEmpty(xs) + NonEmpty(ys)
  {
    if xs == [] {
      assert xs + ys == ys;
    } else {
      assert (xs + ys)[1..] == xs[1..] + ys;
      NonEmptyConcat(xs[1..], ys);
    }
  }

  // ---------------------------------------------------------------- emission

  /** The frames of `peer_rpc_send`. */
  function PeerFrames(src: Option<Ident>, dst: Ident, msg: Bytes): seq<Frame> {
    (if src.Some? then [src.value, []] else []) + [dst, [], msg]
  }

  class Socket {
    var sent: seq<Frame>

    /** `peer_rpc_send`, every send succeeding */
    method PeerRpcSend(src: Option<Ident>, dst: Ident, msg: Bytes)
      modifies this
      ensures sent == old(sent) + PeerFrames(src, dst, msg)
    {
      if src.Some? {
        sent := sent + [src.value];
        sent := sent + [[]];
      }
      sent := sent + [dst];
      sent := sent + [[]];
      sent := sent + [msg];
    }
  }

  lemma PeerNonEmpty(src: Option<Ident>, dst: Ident, msg: Bytes)
    requires dst != [] && msg != [] && (src.Some? ==> src.value != [])
    ensures NonEmpty(PeerFrames(src, dst, msg)) == (if src.Some? then [src.value] else []) + [dst, msg]
  {
    assert NonEmpty([msg]) == [msg] && NonEmpty([[], msg]) == [msg] by {
      assert [[], msg][1..] == [msg];
    }
    assert NonEmpty([dst, [], msg]) == [dst, msg] by {
      assert [dst, [], msg][1..] == [[], msg];
    }
    if src.Some? {
      assert NonEmpty([src.value, []]) == [src.value] by {
        assert [src.value, []][1..] == [[]];
        assert NonEmpty([[]]) == [];
      }
      NonEmptyConcat([src.value, []], [dst, [], msg]);
    } else {
      assert [] + [dst, [], msg] == [dst, [], msg];
    }
  }

  // ---------------------------------------------------------------- the broker

  /** `lcapd_process_request`: the frames the broker sends in answer to those it receives, if any.
      `registered` is the outcome of recording a reader's signal. */
  function Broker(frames: seq<Frame>, registered: int): Option<seq<Frame>> {
    var req := Parse(NOTHING, frames, false);
    if req.body == [] || req.remote.None? || req.forward.None? then None
    else if |req.body| < HEADER_SIZE then Some(PeerFrames(None, req.remote.value, AckMsg(-EPROTO)))
    else
      var op := OpType(req.body);
      if op > OP_SIGNAL then Some(PeerFrames(None, req.remote.value, AckMsg(-EINVAL)))
      else if op <= OP_FINI then
        if |req.body| < ExpectedLength(op) then Some(PeerFrames(None, req.remote.value, AckMsg(-EINVAL)))
        else Some(PeerFrames(req.forward, req.remote.value, req.body))
      else if op == OP_ENQUEUE || op == OP_ACK then Some(PeerFrames(None, req.forward.value, req.body))
      else if |req.body| < SIGNAL_SIZE then Some(PeerFrames(None, req.remote.value, AckMsg(-EINVAL)))
      else if registered < 0 then Some(PeerFrames(None, req.remote.value, AckMsg(registered)))
      else None
  }

  /** A ROUTER socket prepends the identity of the sender to what it receives, and takes the first
      frame of what it sends as the identity of the destination. */
  function FromPeer(id: Ident, frames: seq<Frame>): seq<Frame> {
    [id] + frames
  }

  /** A REQ socket adds the leading delimiter on emission and strips it on reception; the client
      joins the frames left (`cl_rep_recv`). */
  function FromClient(id: Ident, frames: seq<Frame>): seq<Frame> {
    FromPeer(id, [[]] + frames)
  }

  function AtClient(frames: seq<Frame>): Bytes {
    if frames != [] && frames[0] == [] then Flatten(frames[1..]) else Flatten(frames)
  }

  /** `frames` carries request `body` for `mdtname`, in any number of pieces, with delimiters. */
  ghost predicate Carries(frames: seq<Frame>, mdtname: Bytes, body: Bytes) {
    var ns := NonEmpty(frames);
    ns != [] && ns[0] == mdtname && Flatten(ns[1..]) == body
  }

  lemma ClientParsed(id: Ident, mdtname: Bytes, frames: seq<Frame>, body: Bytes)
    requires id != [] && body != [] && Carries(frames, mdtname, body)
    ensures Parse(NOTHING, FromClient(id, frames), false) == Parsed(Some(id), Some(mdtname), body)
  {
    var all, ns := FromClient(id, frames), NonEmpty(frames);
    assert all == [id, []] + frames;
    assert [id, []][1..] == [[]] && NonEmpty([[]]) == [];
    assert NonEmpty([id, []]) == [id];
    NonEmptyConcat([id, []], frames);
    ParseEnvelope(all);
    assert ([id] + ns)[2..] == ns[1..];
  }

  /** A well-formed request reaches the reader it names, with its sender and its exact body. */
  lemma RequestArrives(id: Ident, mdtname: Bytes, frames: seq<Frame>, body: Bytes, registered: int)
    requires id != [] && mdtname != [] && Carries(frames, mdtname, body)
    requires |body| >= HEADER_SIZE && OpType(body) <= OP_FINI && |body| >= ExpectedLength(OpType(body))
    ensures var out := Broker(FromClient(id, frames), registered);
      && out.Some? && out.value != [] && out.value[0] == mdtname
      && Parse(NOTHING, out.value[1..], true) == Parsed(None, Some(id), body)
  {
    ClientParsed(id, mdtname, frames, body);
    var out := PeerFrames(Some(mdtname), id, body);
    assert out[1..] == [[]] + PeerFrames(None, id, body);
    PeerNonEmpty(None, id, body);
    NonEmptyConcat([[]], PeerFrames(None, id, body));
    assert NonEmpty([[]]) == [];
    ParseForward(NOTHING, out[1..], true);
    FlattenOne(body);
    assert [id, body][1..] == [body];
  }

  /** A message sent to a client with an empty delimiter in front is what that client reads. */
  lemma PeerAtClient(id: Ident, msg: Bytes)
    ensures var out := PeerFrames(None, id, msg); out[0] == id && AtClient(out[1..]) == msg
  {
    var out := PeerFrames(None, id, msg);
    assert out[1..] == [[], msg] && out[1..][1..] == [msg];
    FlattenOne(msg);
  }

  /** A reader's reply reaches the client it is addressed to, body unchanged. */
  lemma ReplyArrives(id: Ident, mdtname: Bytes, reply: Bytes, registered: int)
    requires id != [] && mdtname != [] && ReplyMessage(reply)
    ensures var out := Broker(FromPeer(mdtname, PeerFrames(None, id, reply)), registered);
      out.Some? && out.value != [] && out.value[0] == id && AtClient(out.value[1..]) == reply
  {
    var all := FromPeer(mdtname, PeerFrames(None, id, reply));
    PeerNonEmpty(None, id, reply);
    NonEmptyConcat([mdtname], PeerFrames(None, id, reply));
    assert NonEmpty([mdtname]) == [mdtname];
    ParseEnvelope(all);
    assert [mdtname, id, reply][2..] == [reply];
    FlattenOne(reply);
    PeerAtClient(id, reply);
  }

  // ---------------------------------------------------------------- one exchange

  datatype Arrival = Arrival(to: Ident, body: Bytes)

  /** What arrives at clients when the broker sends `frames`. */
  function Arrivals(frames: Option<seq<Frame>>): seq<Arrival> {
    if frames.None? || frames.value == [] then []
    else [Arrival(frames.value[0], AtClient(frames.value[1..]))]
  }

  /** Everything that arrives at clients once `id` has sent `frames`, the reader called `mdtname`
      being in state `s`: the broker answers or forwards, the reader answers, the broker forwards. */
  function Answers(s: State, id: Ident, mdtname: Bytes, frames: seq<Frame>, registered: int, now: Timespec, up: Upstream)
    : seq<Arrival>
  {
    var out := Broker(FromClient(id, frames), registered);
    if out.None? || out.value == [] then []
    else if out.value[0] != mdtname then Arrivals(out)
    else
      var req := Parse(NOTHING, out.value[1..], true);
      if req.body == [] || req.forward.None? then []
      else
        var t := Dispatch(s, req.forward.value, req.body, now, up);
        Relayed(mdtname, t.outbox[|s.outbox|..], registered)
  }

  /** The broker relays what the reader sent. */
  function Relayed(mdtname: Bytes, sent: seq<Envelope>, registered: int): seq<Arrival> {
    if sent == [] then []
    else Arrivals(Broker(FromPeer(mdtname, PeerFrames(None, sent[0].dst, sent[0].body)), registered))
         + Relayed(mdtname, sent[1..], registered)
  }

  /** Exactly one reply: for every START, DEQUEUE, CLEAR or FINI, and for every message that is none
      of the known operations, in every state of the reader and however it is framed, one message
      arrives, at the sender.  What is too short or unknown is refused by the broker; otherwise
      what arrives is the reader's own reply, unchanged. */
  lemma OneReplyPerRequest(s: State, id: Ident, mdtname: Bytes, frames: seq<Frame>, body: Bytes,
                           registered: int, now: Timespec, up: Upstream)
    requires id != [] && mdtname != [] && id != mdtname && body != [] && Carries(frames, mdtname, body)
    requires |body| >= HEADER_SIZE ==> OpType(body) <= OP_FINI || OpType(body) > OP_SIGNAL
    ensures var got := Answers(s, id, mdtname, frames, registered, now, up);
      && |got| == 1 && got[0].to == id
      && (Refusal(body).Some? ==> got[0].body == AckMsg(Refusal(body).value))
      && (Refusal(body).None? ==>
            Dispatch(s, id, body, now, up).outbox == s.outbox + [Envelope(id, got[0].body)])
  {
    ClientParsed(id, mdtname, frames, body);
    if Refusal(body).Some? {
      PeerAtClient(id, AckMsg(Refusal(body).value));
    } else {
      RequestArrives(id, mdtname, frames, body, registered);
      OneReply(s, id, body, now, up);
      var reply :| ReplyMessage(reply) && Dispatch(s, id, body, now, up).outbox == s.outbox + [Envelope(id, reply)];
      var sent := [Envelope(id, reply)];
      assert Dispatch(s, id, body, now, up).outbox[|s.outbox|..] == sent;
      ReplyArrives(id, mdtname, reply, registered);
      assert sent[1..] == [];
      assert Relayed(mdtname, sent, registered) == [Arrival(id, reply)] + [];
    }
  }

  /** Too few frames leave no body. */
  lemma {:induction false} ParseBodyless(p: Parsed, frames: seq<Frame>)
    requires p.forward.Some? ==> p.remote.Some?
    requires |NonEmpty(frames)| <= (if p.remote.None? then 1 else 0) + (if p.forward.None? then 1 else 0)
    ensures Parse(p, frames, false).body == p.body
    decreases |frames|
  {
    if frames != [] {
      ParseBodyless(Update(p, frames[0], false), frames[1..]);
    }
  }

  /** A message without a body goes nowhere and is not answered. */
  lemma BodylessIgnored(id: Ident, frames: seq<Frame>, registered: int)
    requires id != [] && |NonEmpty(frames)| <= 1
    ensures Broker(FromClient(id, frames), registered).None?
  {
    var all := FromClient(id, frames);
    assert all == [id, []] + frames;
    assert [id, []][1..] == [[]] && NonEmpty([[]]) == [];
    assert NonEmpty([id, []]) == [id];
    NonEmptyConcat([id, []], frames);
    ParseBodyless(NOTHING, all);
  }

  /** A reader's signal: when it is recorded, nothing is sent to anybody; when it is too short or cannot
      be recorded, the reader, and nobody else, is told why. */
  lemma SignalAnswer(reader: Ident, mdtname: Bytes, frames: seq<Frame>, body: Bytes, registered: int)
    requires reader != [] && Carries(frames, mdtname, body)
    requires |body| >= HEADER_SIZE && OpType(body) == OP_SIGNAL
    ensures var out := Broker(FromClient(reader, frames), registered);
      && (out.None? <==> |body| >= SIGNAL_SIZE && registered >= 0)
      && (|body| < SIGNAL_SIZE ==> Arrivals(out) == [Arrival(reader, AckMsg(-EINVAL))])
      && (|body| >= SIGNAL_SIZE && registered < 0 ==> Arrivals(out) == [Arrival(reader, AckMsg(registered))])
  {
    ClientParsed(reader, mdtname, frames, body);
    PeerAtClient(reader, AckMsg(-EINVAL));
    PeerAtClient(reader, AckMsg(registered));
  }

  /** The code with which the broker itself refuses a message, if it does. */
  function Refusal(body: Bytes): Option<int> {
    if |body| < HEADER_SIZE then Some(-EPROTO)
    else if OpType(body) > OP_SIGNAL then Some(-EINVAL)
    else if |body| < ExpectedLength(OpType(body)) then Some(-EINVAL)
    else None
  }
}

/** What every message to the reader is answered, and what it leaves alone: the refusals, and the
    replies of the handlers that succeed or meet an upstream error. */
module Answers {
  import opened Records
  import opened Wire
  import opened ReaderModel
  import opened ReaderInvariant
  import opened ReaderRuns
  import opened Exchange

  predicate Is(body: Bytes, op: nat) {
    |body| >= HEADER_SIZE && OpType(body) == op
  }

  /** The message is answered `rc` and nothing else happens. */
  ghost predicate OnlyAnswered(s: State, t: State, id: Ident, rc: int) {
    t == s.(outbox := s.outbox + [Envelope(id, AckMsg(rc))])
  }

  /** What cannot be a request is refused, whoever sends it. */
  lemma MalformedRefused(s: State, id: Ident, body: Bytes, now: Timespec, up: Upstream)
    ensures var t := Dispatch(s, id, body, now, up);
      && (|body| < HEADER_SIZE ==> OnlyAnswered(s, t, id, -EPROTO))
      && (|body| >= HEADER_SIZE && OpType(body) > OP_SIGNAL ==> OnlyAnswered(s, t, id, -EINVAL))
      && (Is(body, OP_ENQUEUE) || Is(body, OP_ACK) || Is(body, OP_SIGNAL) ==> OnlyAnswered(s, t, id, -EPROTO))
      && (Is(body, OP_START) && |body| < START_SIZE ==> OnlyAnswered(s, t, id, -EINVAL))
      && (Is(body, OP_CLEAR) && |body| < CLEAR_SIZE ==> OnlyAnswered(s, t, id, -EPROTO))
  {
  }

  /** A client the reader does not know can only join. */
  lemma StrangerRefused(s: State, id: Ident, body: Bytes, now: Timespec, up: Upstream)
    requires !Registered(s, id)
    requires Is(body, OP_DEQUEUE) || Is(body, OP_CLEAR) || Is(body, OP_FINI)
    ensures OnlyAnswered(s, Dispatch(s, id, body, now, up), id, -EPROTO)
  {
  }

  /** A client the reader knows cannot join again, nor ask again before it has acknowledged; what it
      acknowledges when it holds nothing is granted. */
  lemma PresentAnswered(s: State, id: Ident, body: Bytes, now: Timespec, up: Upstream)
    requires Registered(s, id)
    ensures var t := Dispatch(s, id, body, now, up);
      && (Is(body, OP_START) && |body| >= START_SIZE ==> OnlyAnswered(s, t, id, -EALREADY))
      && (Is(body, OP_DEQUEUE) && Owned(s, id).Some? ==> OnlyAnswered(s, t, id, -EPROTO))
      && (Is(body, OP_CLEAR) && |body| >= CLEAR_SIZE && Owned(s, id).None? ==> OnlyAnswered(s, t, id, 0))
  {
  }

  /** A newcomer is appended to the clients, with the start record it asked for, and is welcomed. */
  lemma NewcomerWelcomed(s: State, id: Ident, flags: nat, mdtname: Bytes, startrec: int, now: Timespec, up: Upstream)
    requires !Registered(s, id)
    ensures Dispatch(s, id, StartMsg(flags, mdtname, startrec), now, up)
         == s.(peers := s.peers + [Peer(id, startrec % TWO_64, None)], outbox := s.outbox + [Envelope(id, AckMsg(0))])
  {
    StartOp(flags, mdtname, startrec);
    StartRecord(flags, mdtname, startrec);
  }

  /** A client that leaves is taken off the list, where it was once, and is told so. */
  lemma LeaverReleased(s: State, id: Ident, body: Bytes, now: Timespec, up: Upstream)
    requires OwnerInv(s) && Registered(s, id) && Is(body, OP_FINI)
    ensures exists k: nat :: LeftFrom(s, Dispatch(s, id, body, now, up), id, k)
  {
    assert LeftFrom(s, Dispatch(s, id, body, now, up), id, PeerAt(s.peers, id));
  }

  ghost predicate LeftFrom(s: State, t: State, id: Ident, k: nat) {
    && k < |s.peers| && s.peers[k].ident == id
    && t == s.(peers := s.peers[..k] + s.peers[k + 1..], outbox := s.outbox + [Envelope(id, AckMsg(0))])
  }

  /** The answer to a CLEAR from a client that holds a bucket.  The upstream refuses one of the clears
      exactly when a ready bucket stays at the head; then all those before it were granted, and the
      client gets the very code of the upstream.  Otherwise the client gets 0. */
  lemma ClearAnswered(s: State, id: Ident, body: Bytes, now: Timespec, up: Upstream)
    requires Inv(s) && Is(body, OP_CLEAR) && |body| >= CLEAR_SIZE && Owned(s, id).Some?
    ensures var t := Dispatch(s, id, body, now, up);
      var granted := |t.trimmed| - |s.trimmed|;
      && granted >= 0
      && (up.FailAt? ==> granted <= up.call)
      && (t.buckets[0].ready ==> up.FailAt? && granted == up.call && Replied(s, t, id, AckMsg(up.rc)))
      && (!t.buckets[0].ready ==> Replied(s, t, id, AckMsg(0)))
  {
    var a := Acknowledge(s, id);
    AcknowledgeFacts(s, id);
    DispatchClear(s, id, body, now, up);
    CleanupAnswer(a, up);
  }

  lemma CleanupAnswer(a: State, up: Upstream)
    requires ListInv(a)
    ensures var (t, rc) := Cleanup(a, up);
      var granted := |t.trimmed| - |a.trimmed|;
      && granted >= 0
      && (up.FailAt? ==> granted <= up.call)
      && (if t.buckets[0].ready then up.FailAt? && granted == up.call && rc == up.rc else rc == 0)
  {
    ReadyBeforeCursor(a);
    CleanupShape(a, up);
  }

  // ---------------------------------------------------------------- over runs

  /** Replies with different codes differ, and no batch is a code. */
  lemma RepliesDiffer(s: State, t: State, id: Ident, x: int, reply: Bytes)
    requires -TWO_31 <= x < TWO_31 && Replied(s, t, id, reply)
    ensures forall y :: -TWO_31 <= y < TWO_31 && reply == AckMsg(y) ==> (Replied(s, t, id, AckMsg(x)) <==> x == y)
    ensures (exists recs :: reply == EnqueueMsg(recs)) ==> !Replied(s, t, id, AckMsg(x))
  {
    assert Replied(s, t, id, AckMsg(x)) <==> reply == AckMsg(x) by {
      var n := |s.outbox|;
      assert t.outbox[n] == Envelope(id, reply);
      if Replied(s, t, id, AckMsg(x)) {
        assert t.outbox[n] == Envelope(id, AckMsg(x));
      }
    }
    forall y | -TWO_31 <= y < TWO_31 && reply == AckMsg(y)
      ensures Replied(s, t, id, AckMsg(x)) <==> x == y
    {
      AckRoundTrip(x);
      AckRoundTrip(y);
    }
    if recs :| reply == EnqueueMsg(recs) {
      ReplyOps(x, recs);
    }
  }

  /** Over any run, who is refused for what: a client that has not joined, or has left, can neither
      ask, nor clear, nor leave; one that has joined cannot join again; one that holds a bucket
      cannot ask.  Nobody else is answered like that. */
  lemma RefusedExactly(cfg: Config, events: seq<Event>, id: Ident, body: Bytes, now: Timespec, up: Upstream)
    requires cfg.Valid()
    ensures var s := Run(Init(cfg), events);
      var t := Step(s, Message(id, body, now, up));
      && (Is(body, OP_START) && |body| >= START_SIZE ==>
            (Replied(s, t, id, AckMsg(-EALREADY)) <==> Live(events, id)))
      && (Is(body, OP_DEQUEUE) ==>
            (Replied(s, t, id, AckMsg(-EPROTO)) <==> !Live(events, id) || Owned(s, id).Some?))
      && (Is(body, OP_FINI) ==> (Replied(s, t, id, AckMsg(-EPROTO)) <==> !Live(events, id)))
      && (Is(body, OP_CLEAR) && !Live(events, id) ==> OnlyAnswered(s, t, id, -EPROTO))
  {
    var s := Run(Init(cfg), events);
    RunInv(cfg, events);
    LookupIsLive(cfg, events, id);
    if Registered(s, id) {
      PresentRefused(s, id, body, now, up);
    } else {
      StrangerAnswers(s, id, body, now, up);
    }
  }

  lemma StrangerAnswers(s: State, id: Ident, body: Bytes, now: Timespec, up: Upstream)
    requires Inv(s) && !Registered(s, id)
    ensures var t := Dispatch(s, id, body, now, up);
      && (Is(body, OP_START) && |body| >= START_SIZE ==> !Replied(s, t, id, AckMsg(-EALREADY)))
      && (Is(body, OP_DEQUEUE) || Is(body, OP_CLEAR) || Is(body, OP_FINI) ==> OnlyAnswered(s, t, id, -EPROTO))
  {
    var t := Dispatch(s, id, body, now, up);
    if Is(body, OP_START) && |body| >= START_SIZE {
      assert Replied(s, t, id, AckMsg(0));
      RepliesDiffer(s, t, id, -EALREADY, AckMsg(0));
    } else if Is(body, OP_DEQUEUE) || Is(body, OP_CLEAR) || Is(body, OP_FINI) {
      StrangerRefused(s, id, body, now, up);
    }
  }

  lemma PresentRefused(s: State, id: Ident, body: Bytes, now: Timespec, up: Upstream)
    requires Inv(s) && Registered(s, id)
    ensures var t := Dispatch(s, id, body, now, up);
      && (Is(body, OP_START) && |body| >= START_SIZE ==> Replied(s, t, id, AckMsg(-EALREADY)))
      && (Is(body, OP_DEQUEUE) ==> (Replied(s, t, id, AckMsg(-EPROTO)) <==> Owned(s, id).Some?))
      && (Is(body, OP_FINI) ==> !Replied(s, t, id, AckMsg(-EPROTO)))
  {
    var t := Dispatch(s, id, body, now, up);
    PresentAnswered(s, id, body, now, up);
    if Is(body, OP_FINI) {
      LeaverReleased(s, id, body, now, up);
      assert Replied(s, t, id, AckMsg(0));
      RepliesDiffer(s, t, id, -EPROTO, AckMsg(0));
    } else if Is(body, OP_DEQUEUE) && Owned(s, id).None? {
      FreeServed(s, id, body, now, up);
    }
  }

  /** A client that holds nothing is not refused. */
  lemma FreeServed(s: State, id: Ident, body: Bytes, now: Timespec, up: Upstream)
    requires Inv(s) && Registered(s, id) && Is(body, OP_DEQUEUE) && Owned(s, id).None?
    ensures !Replied(s, Dispatch(s, id, body, now, up), id, AckMsg(-EPROTO))
  {
    var t := Dispatch(s, id, body, now, up);
    DequeueServes(s, id, body, now);
    if HandleDequeue(s, id, body, now).1 == 1 {
      assert Replied(s, t, id, AckMsg(1));
      RepliesDiffer(s, t, id, -EPROTO, AckMsg(1));
    } else {
      var recs := s.buckets[if Expired(s, now) then 0 else s.deliver].recs;
      assert Replied(s, t, id, EnqueueMsg(recs));
      RepliesDiffer(s, t, id, -EPROTO, EnqueueMsg(recs));
    }
  }
}

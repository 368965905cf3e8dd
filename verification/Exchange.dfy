/** One request and its reply, as seen from outside the reader: what each of the four requests does
    to its sender, to the other clients, to the batches and to their acknowledgement. */
module Exchange {
  import opened Records
  import opened Wire
  import opened ReaderModel
  import opened ReaderInvariant
  import opened ReaderRuns

  /** Batch `x` is acknowledged: trimmed already, or ready to be. */
  predicate Acked(s: State, x: nat) {
    x + 1 < |s.trimmed| + |s.buckets| && (x < |s.trimmed| || s.buckets[x - |s.trimmed|].ready)
  }

  /** What a request of `id` cannot do: reopen a closed batch, change who else is registered or give
      anybody else a bucket, or acknowledge a batch other than the one `id` holds. */
  ghost predicate Contained(s: State, t: State, id: Ident) {
    && Closed(s) <= Closed(t)
    && Accepted(t) == Accepted(s) && t.session == s.session && t.cfg == s.cfg
    && (forall other :: other != id ==> (Registered(t, other) <==> Registered(s, other)))
    && (forall other :: other != id && Owned(t, other).Some? ==> Owned(t, other) == Owned(s, other))
    && (forall x: nat :: Acked(t, x) ==> Acked(s, x) || Owned(s, id) == Some(x))
  }

  ghost predicate Replied(s: State, t: State, id: Ident, reply: Bytes) {
    t.outbox == s.outbox + [Envelope(id, reply)]
  }

  lemma UnchangedContained(s: State, t: State, id: Ident)
    requires t.buckets == s.buckets && t.trimmed == s.trimmed && t.session == s.session && t.cfg == s.cfg
    requires forall other :: other != id ==>
      (Registered(t, other) <==> Registered(s, other)) && Owned(t, other) == Owned(s, other)
    ensures Contained(s, t, id)
  {
    assert Batches(t) == Batches(s);
  }

  lemma StartExchange(s: State, id: Ident, body: Bytes, now: Timespec, up: Upstream)
    requires Reachable(s) && |body| >= START_SIZE && OpType(body) == OP_START && !Registered(s, id)
    ensures var t := Dispatch(s, id, body, now, up);
      && Contained(s, t, id) && Replied(s, t, id, AckMsg(0)) && Registered(t, id) && Owned(t, id).None?
      && (forall x: nat :: Acked(t, x) ==> Acked(s, x))
  {
    ReachableInv(s);
    var t := Dispatch(s, id, body, now, up);
    forall other | other != id
      ensures (Registered(t, other) <==> Registered(s, other)) && Owned(t, other) == Owned(s, other)
    {
      OthersUndisturbed(s, id, body, other);
      StartRegisters(s, id, body, other);
    }
    UnchangedContained(s, t, id);
    OwnedAt(t, |s.peers|, id);
  }

  lemma FiniExchange(s: State, id: Ident, body: Bytes, now: Timespec, up: Upstream)
    requires Reachable(s) && |body| >= HEADER_SIZE && OpType(body) == OP_FINI && Registered(s, id)
    ensures var t := Dispatch(s, id, body, now, up);
      && Contained(s, t, id) && Replied(s, t, id, AckMsg(0)) && !Registered(t, id)
      && (forall x: nat :: Acked(t, x) ==> Acked(s, x))
  {
    ReachableInv(s);
    var t := Dispatch(s, id, body, now, up);
    forall other | other != id
      ensures (Registered(t, other) <==> Registered(s, other)) && Owned(t, other) == Owned(s, other)
    {
      OthersUndisturbed(s, id, body, other);
      FiniRegisters(s, id, body, other);
    }
    UnchangedContained(s, t, id);
    FiniRegisters(s, id, body, id);
  }

  /** DEQUEUE: refused while a bucket is held; otherwise end of stream, or a closed, non-empty batch
      which the sender now holds. */
  lemma DequeueExchange(s: State, id: Ident, body: Bytes, now: Timespec, up: Upstream)
    requires Reachable(s) && |body| >= HEADER_SIZE && OpType(body) == OP_DEQUEUE && Registered(s, id)
    ensures var t := Dispatch(s, id, body, now, up);
      && Contained(s, t, id) && Registered(t, id)
      && (forall x: nat :: Acked(t, x) ==> Acked(s, x))
      && (Owned(s, id).Some? ==> Replied(s, t, id, AckMsg(-EPROTO)) && Owned(t, id) == Owned(s, id))
      && (Owned(s, id).None? && Owned(t, id).None? ==> Replied(s, t, id, AckMsg(1)))
      && (Owned(s, id).None? && Owned(t, id).Some? ==>
            var x := Owned(t, id).value;
            && x < |Closed(t)| && Closed(t)[x] != [] && |Closed(t)[x]| <= s.cfg.batch
            && Replied(s, t, id, EnqueueMsg(Closed(t)[x])))
  {
    ReachableInv(s);
    var t := Dispatch(s, id, body, now, up);
    if Owned(s, id).Some? {
      UnchangedContained(s, t, id);
    } else {
      DequeueServes(s, id, body, now);
      var (r, rc) := HandleDequeue(s, id, body, now);
      if rc == 1 {
        UnchangedContained(s, t, id);
      } else {
        assert t == r;
        ServedContained(s, t, id, body, now);
      }
    }
  }

  lemma ServedContained(s: State, t: State, id: Ident, body: Bytes, now: Timespec)
    requires Inv(s) && |body| >= HEADER_SIZE && Registered(s, id) && Owned(s, id).None?
    requires HandleDequeue(s, id, body, now) == (t, 0)
    ensures Contained(s, t, id) && Registered(t, id)
    ensures forall x: nat :: Acked(t, x) ==> Acked(s, x)
    ensures Owned(t, id).Some?
    ensures var x := Owned(t, id).value;
      && x < |Closed(t)| && Closed(t)[x] != [] && |Closed(t)[x]| <= s.cfg.batch
      && Replied(s, t, id, EnqueueMsg(Closed(t)[x]))
  {
    DequeueServes(s, id, body, now);
    DequeueKept(s, id, body, now);
    var at := if Expired(s, now) then 0 else s.deliver;
    ServedClosed(s, t, at);
    ServedAcked(s, t, at);
    ServedPeers(s, t, id, body, now);
  }

  lemma ServedPeers(s: State, t: State, id: Ident, body: Bytes, now: Timespec)
    requires Inv(s) && Registered(s, id) && HandleDequeue(s, id, body, now) == (t, 0)
    ensures t.cfg == s.cfg
    ensures forall other :: Registered(t, other) <==> Registered(s, other)
  {
    PositionedShape(s, now);
    forall other
      ensures Registered(t, other) <==> Registered(s, other)
    {
      SamePeers(s.peers, t.peers, other);
    }
  }

  lemma ServedClosed(s: State, t: State, at: nat)
    requires ListInv(s) && at < |s.buckets| && s.buckets[at].recs != []
    requires t.trimmed == s.trimmed && |t.buckets| > at + 1
    requires t.buckets[at].recs == s.buckets[at].recs
    ensures var x := s.buckets[at].index;
      x < |Closed(t)| && Closed(t)[x] == s.buckets[at].recs && |Closed(t)[x]| <= s.cfg.batch
  {
    assert Closed(t)[|s.trimmed| + at] == BucketRecs(t.buckets)[at];
  }

  lemma ServedAcked(s: State, t: State, at: nat)
    requires ListInv(s) && t.trimmed == s.trimmed
    requires |t.buckets| == (if at + 1 == |s.buckets| then |s.buckets| + 1 else |s.buckets|)
    requires at + 1 == |s.buckets| ==> t.buckets[at + 1] == EmptyBucket(s.bktIdx)
    requires forall i :: 0 <= i < |s.buckets| && t.buckets[i].ready ==> s.buckets[i].ready
    ensures forall x: nat :: Acked(t, x) ==> Acked(s, x)
  {
  }

  /** CLEAR: whatever the upstream answers, the sender holds nothing afterwards, and only the batch
      it held can have become acknowledged. */
  lemma ClearExchange(s: State, id: Ident, body: Bytes, now: Timespec, up: Upstream)
    requires Reachable(s) && |body| >= CLEAR_SIZE && OpType(body) == OP_CLEAR && Registered(s, id)
    ensures var t := Dispatch(s, id, body, now, up);
      && Contained(s, t, id) && Registered(t, id) && Owned(t, id).None?
      && exists rc :: -TWO_31 <= rc <= 0 && Replied(s, t, id, AckMsg(rc))
  {
    ReachableInv(s);
    var t := Dispatch(s, id, body, now, up);
    if Owned(s, id).None? {
      assert Replied(s, t, id, AckMsg(0));
      UnchangedContained(s, t, id);
    } else {
      DispatchClear(s, id, body, now, up);
      ClearedContained(s, id, up);
    }
  }

  /** The state after a CLEAR by a client that holds a bucket, and the code it is answered with. */
  function ClearedBy(s: State, id: Ident, up: Upstream): State
    requires Owned(s, id).Some?
  {
    var (u, rc) := Cleanup(Acknowledge(s, id), up);
    Send(u, id, AckMsg(rc))
  }

  lemma ClearedContained(s: State, id: Ident, up: Upstream)
    requires Inv(s) && Owned(s, id).Some?
    ensures var t := ClearedBy(s, id, up);
      && Contained(s, t, id) && Registered(t, id) && Owned(t, id).None?
      && exists rc :: -TWO_31 <= rc <= 0 && Replied(s, t, id, AckMsg(rc))
  {
    var (u, rc) := Cleanup(Acknowledge(s, id), up);
    var t := ClearedBy(s, id, up);
    ClearedBatches(s, id, up);
    ClearedPeers(s, t, id);
    assert Replied(s, t, id, AckMsg(rc));
  }

  lemma ClearedBatches(s: State, id: Ident, up: Upstream)
    requires Inv(s) && Owned(s, id).Some?
    ensures var (u, rc) := Cleanup(Acknowledge(s, id), up);
      var t := ClearedBy(s, id, up);
      && Batches(t) == Batches(s) && t.session == s.session && t.cfg == s.cfg
      && u.outbox == s.outbox && -TWO_31 <= rc <= 0
      && t.peers == SetBucket(s.peers, PeerAt(s.peers, id), None)
      && forall x: nat :: Acked(t, x) ==> Acked(s, x) || Owned(s, id) == Some(x)
  {
    var a := Acknowledge(s, id);
    AcknowledgeFacts(s, id);
    CleanupShape(a, up);
    var (u, rc) := Cleanup(a, up);
    ClearedFrom(s, a, u, ClearedBy(s, id, up), rc, Owned(s, id).value);
  }

  lemma ClearedFrom(s: State, a: State, u: State, t: State, rc: int, x: nat)
    requires ListInv(s) && Marked(s, a, x) && a.trimmed == s.trimmed && Batches(a) == Batches(s)
    requires CleanedUp(a, u, rc) && t.buckets == u.buckets && t.trimmed == u.trimmed
    ensures Batches(t) == Batches(s)
    ensures forall y: nat :: Acked(t, y) ==> Acked(s, y) || y == x
  {
    assert Batches(t) == Batches(u);
    IndexIsPosition(s, a, x);
    ClearedAcked(s, a, t, x);
  }

  lemma IndexIsPosition(s: State, a: State, x: nat)
    requires ListInv(s) && Marked(s, a, x)
    ensures forall i :: 0 <= i < |s.buckets| && a.buckets[i].ready && i + |s.trimmed| != x ==> s.buckets[i].ready
  {
  }

  /** A CLEAR does acknowledge the batch its sender holds. */
  lemma ClearAcknowledges(s: State, id: Ident, body: Bytes, now: Timespec, up: Upstream)
    requires Reachable(s) && |body| >= CLEAR_SIZE && OpType(body) == OP_CLEAR && Owned(s, id).Some?
    ensures Acked(Dispatch(s, id, body, now, up), Owned(s, id).value)
  {
    ReachableInv(s);
    DispatchClear(s, id, body, now, up);
    AcknowledgedStays(s, id, up);
  }

  lemma DispatchClear(s: State, id: Ident, body: Bytes, now: Timespec, up: Upstream)
    requires |body| >= CLEAR_SIZE && OpType(body) == OP_CLEAR && Owned(s, id).Some?
    ensures Dispatch(s, id, body, now, up) == ClearedBy(s, id, up)
  {
  }

  lemma AcknowledgedStays(s: State, id: Ident, up: Upstream)
    requires Inv(s) && Owned(s, id).Some?
    ensures Acked(ClearedBy(s, id, up), Owned(s, id).value)
  {
    var a, x := Acknowledge(s, id), Owned(s, id).value;
    AcknowledgeFacts(s, id);
    CleanupShape(a, up);
    MarkedAcked(s, a, x);
    TrimmedAcked(a, ClearedBy(s, id, up), x);
  }

  lemma MarkedAcked(s: State, a: State, x: nat)
    requires ListInv(s) && Outstanding(s, x) && Marked(s, a, x) && a.trimmed == s.trimmed
    ensures Acked(a, x)
  {
    assert s.buckets[x - |s.trimmed|].index == x;
  }

  /** Trimming keeps what is acknowledged. */
  lemma TrimmedAcked(a: State, t: State, x: nat)
    requires Acked(a, x) && 0 <= |t.trimmed| - |a.trimmed| < |a.buckets|
    requires t.buckets == a.buckets[|t.trimmed| - |a.trimmed|..]
    ensures Acked(t, x)
  {
    var m := |t.trimmed| - |a.trimmed|;
    if x >= |t.trimmed| {
      assert t.buckets[x - |t.trimmed|] == a.buckets[x - |a.trimmed|];
    }
  }

  lemma ClearedPeers(s: State, t: State, id: Ident)
    requires Registered(s, id) && t.peers == SetBucket(s.peers, PeerAt(s.peers, id), None)
    ensures forall other :: Registered(t, other) <==> Registered(s, other)
    ensures forall other :: Owned(t, other) == if other == id then None else Owned(s, other)
  {
    forall other
      ensures PeerAt(t.peers, other) == PeerAt(s.peers, other)
    {
      SamePeers(s.peers, t.peers, other);
    }
  }

  lemma ClearedAcked(s: State, a: State, t: State, x: nat)
    requires a.trimmed == s.trimmed && |a.buckets| == |s.buckets|
    requires forall i :: 0 <= i < |s.buckets| && a.buckets[i].ready && i + |s.trimmed| != x ==> s.buckets[i].ready
    requires 0 <= |t.trimmed| - |s.trimmed| <= |a.buckets|
    requires t.buckets == a.buckets[|t.trimmed| - |s.trimmed|..]
    requires forall i :: 0 <= i < |t.trimmed| - |s.trimmed| ==> a.buckets[i].ready
    ensures forall y: nat :: Acked(t, y) ==> Acked(s, y) || y == x
  {
    var m := |t.trimmed| - |s.trimmed|;
    forall y: nat | Acked(t, y)
      ensures Acked(s, y) || y == x
    {
      if y >= |s.trimmed| {
        var i := y - |s.trimmed|;
        if i >= m {
          assert t.buckets[i - m] == a.buckets[i];
        }
        assert a.buckets[i].ready;
      }
    }
  }

  /** An intake touches no client and no closed batch, and acknowledges nothing. */
  lemma IntakeContained(s: State, startRc: int, feed: seq<Rec>, last: EndCode)
    requires Reachable(s)
    ensures var t := Intake(s, startRc, feed, last).0;
      && Closed(s) <= Closed(t) && t.peers == s.peers && t.cfg == s.cfg
      && (forall x: nat :: Acked(t, x) ==> Acked(s, x))
  {
    ReachableInv(s);
    var pending := if s.session.Some? then s.session.value.pending else feed;
    var u, t := Pull(s, pending, 0).0, Intake(s, startRc, feed, last).0;
    PullGrows(s, pending, 0);
    PullPeers(s, pending, 0);
    PullCfg(s, pending, 0);
    PullAcked(s, pending, 0);
    if !Full(s) && (s.session.Some? || startRc == 0) {
      SessionContained(u, t);
    }
  }

  lemma SessionContained(u: State, t: State)
    requires t == u.(session := t.session)
    ensures Batches(t) == Batches(u) && Closed(t) == Closed(u)
    ensures forall x: nat :: Acked(t, x) <==> Acked(u, x)
  {
  }

  lemma {:induction false} PullCfg(s: State, feed: seq<Rec>, stored: nat)
    ensures Pull(s, feed, stored).0.cfg == s.cfg
    decreases |feed|
  {
    if feed == [] {
    } else if feed[0].index < s.srec {
      PullCfg(s, feed[1..], stored);
    } else if stored + 1 < s.cfg.batch && !Full(Store(s, feed[0])) {
      PullCfg(Store(s, feed[0]), feed[1..], stored + 1);
    }
  }

  lemma StoreAcked(s: State, rec: Rec)
    requires ListInv(s)
    ensures forall x: nat :: Acked(Store(s, rec), x) ==> Acked(s, x)
  {
  }

  lemma {:induction false} PullAcked(s: State, feed: seq<Rec>, stored: nat)
    requires ListInv(s)
    ensures forall x: nat :: Acked(Pull(s, feed, stored).0, x) ==> Acked(s, x)
    decreases |feed|
  {
    if feed == [] {
    } else if feed[0].index < s.srec {
      PullAcked(s, feed[1..], stored);
    } else {
      StoreAcked(s, feed[0]);
      StoreListInv(s, feed[0]);
      if stored + 1 < s.cfg.batch && !Full(Store(s, feed[0])) {
        PullAcked(Store(s, feed[0]), feed[1..], stored + 1);
      }
    }
  }

  /** Every record accepted or left pending was accepted before or comes from the session. */
  lemma {:induction false} PullSources(s: State, feed: seq<Rec>, stored: nat)
    ensures var (t, rest, ended) := Pull(s, feed, stored);
      && (forall r :: r in Accepted(t) ==> r in Accepted(s) || r in feed)
      && (forall r :: r in rest ==> r in feed)
    decreases |feed|
  {
    if feed == [] {
    } else if feed[0].index < s.srec {
      assert feed == [feed[0]] + feed[1..];
      PullSources(s, feed[1..], stored);
    } else {
      StoreFacts(s, feed[0]);
      assert feed == [feed[0]] + feed[1..];
      if stored + 1 < s.cfg.batch && !Full(Store(s, feed[0])) {
        PullSources(Store(s, feed[0]), feed[1..], stored + 1);
      }
    }
  }
}

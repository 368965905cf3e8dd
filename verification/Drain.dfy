/** One client alone empties the cache in as many rounds as there are non-empty buckets. */
module Drain {
  import opened Records
  import opened Wire
  import opened ReaderModel
  import opened ReaderInvariant
  import opened ReaderRuns

  /** The non-empty buckets of the list. */
  function Filled(s: State): nat {
    if Last(s).recs == [] then |s.buckets| - 1 else |s.buckets|
  }

  /** One round: `id` asks for a bucket and acknowledges it, the upstream agreeing. */
  function Round(s: State, id: Ident, ask: Bytes, ack: Bytes, now: Timespec): State {
    HandleClear(HandleDequeue(s, id, ask, now).0, id, ack, AllSucceed).0
  }

  function Rounds(s: State, id: Ident, ask: Bytes, ack: Bytes, clock: seq<Timespec>): State
    decreases |clock|
  {
    if clock == [] then s else Rounds(Round(s, id, ask, ack, clock[0]), id, ask, ack, clock[1..])
  }

  /** Nothing prevents the head from being served to `id`: the client holds nothing and either
      nothing is outstanding or the head's deadline has passed. */
  ghost predicate Due(s: State, id: Ident, now: Timespec) {
    && Inv(s) && Registered(s, id) && Owned(s, id).None?
    && (s.deliver == 0 || Expired(s, now))
  }

  ghost predicate RoundMessages(ask: Bytes, ack: Bytes) {
    |ask| >= HEADER_SIZE && |ack| >= CLEAR_SIZE
  }

  /** The head, and nothing else, is with `id`. */
  ghost predicate HeadSent(s: State, t: State, id: Ident) {
    && Inv(t) && Owned(t, id) == Some(t.buckets[0].index)
    && t.deliver == 1 && t.trimmed == s.trimmed
    && |t.buckets| >= 2 && Filled(t) == Filled(s) && t.buckets[0].recs == s.buckets[0].recs
    && (forall i :: 0 <= i < |t.buckets| ==> !t.buckets[i].ready)
    && |t.deliveries| == |s.deliveries| + 1 && s.deliveries <= t.deliveries
    && t.deliveries[|s.deliveries|].to == id && t.deliveries[|s.deliveries|].recs == s.buckets[0].recs
    && Accepted(t) == Accepted(s)
  }

  /** Serving the head: it is the only bucket sent and no bucket is ready. */
  lemma ServeHead(s: State, id: Ident, ask: Bytes, now: Timespec)
    requires Due(s, id, now) && |ask| >= HEADER_SIZE && Filled(s) > 0
    ensures HeadSent(s, HandleDequeue(s, id, ask, now).0, id)
  {
    var t := HandleDequeue(s, id, ask, now).0;
    DequeueServes(s, id, ask, now);
    DequeueInv(s, id, ask, now);
    DequeueKept(s, id, ask, now);
    ServedHead(s, t, id, now);
  }

  lemma ServedHead(s: State, t: State, id: Ident, now: Timespec)
    requires Due(s, id, now) && Filled(s) > 0 && Inv(t) && Served(s, t, id, now, 0) && Accepted(t) == Accepted(s)
    ensures HeadSent(s, t, id)
  {
    UnreadyBeyond(s, t, now);
  }

  /** Nothing is ready once the head has been served to a client for which it was due. */
  lemma UnreadyBeyond(s: State, t: State, now: Timespec)
    requires ListInv(s) && ListInv(t) && (s.deliver == 0 || Expired(s, now))
    requires |s.buckets| <= |t.buckets| && t.deliver == 1
    requires forall i :: 0 <= i < |s.buckets| ==> (t.buckets[i].ready <==> s.buckets[i].ready && !Expired(s, now))
    ensures forall i :: 0 <= i < |t.buckets| ==> !t.buckets[i].ready
  {
  }

  /** The head of `s` was trimmed, and `id` holds nothing. */
  ghost predicate HeadGone(s: State, t: State, id: Ident) {
    && Inv(t) && Registered(t, id) && Owned(t, id).None? && t.deliver == 0
    && t.trimmed == s.trimmed + [s.buckets[0].recs]
    && Last(t).recs == Last(s).recs && |t.buckets| == |s.buckets| - 1
    && t.deliveries == s.deliveries
    && Accepted(t) == Accepted(s)
  }

  /** Acknowledging the only bucket sent trims exactly it. */
  lemma AckHead(s: State, u: State, id: Ident, ack: Bytes)
    requires HeadSent(s, u, id) && |ack| >= CLEAR_SIZE
    ensures HeadGone(u, HandleClear(u, id, ack, AllSucceed).0, id)
  {
    ClearInv(u, id, ack, AllSucceed);
    ClearKept(u, id, ack, AllSucceed);
    var a := Acknowledge(u, id);
    AcknowledgeFacts(u, id);
    assert a.buckets[0].ready && !a.buckets[1].ready;
    TrimHead(a);
    ReleasedOwnsNothing(u, HandleClear(u, id, ack, AllSucceed).0, id);
  }

  lemma TrimHead(a: State)
    requires |a.buckets| >= 2 && a.buckets[0].ready && !a.buckets[1].ready && a.deliver == 1
    ensures var t := Cleanup(a, AllSucceed).0;
      && t.buckets == a.buckets[1..] && t.trimmed == a.trimmed + [a.buckets[0].recs] && t.deliver == 0
      && t.peers == a.peers && t.deliveries == a.deliveries && Cleanup(a, AllSucceed).1 == 0
  {
    assert ReadyPrefix(a.buckets[1..]) == 0;
    assert BucketRecs(a.buckets[..1]) == [a.buckets[0].recs];
  }

  lemma ReleasedOwnsNothing(s: State, t: State, id: Ident)
    requires Registered(s, id) && t.peers == SetBucket(s.peers, PeerAt(s.peers, id), None)
    ensures Registered(t, id) && Owned(t, id).None?
  {
    SamePeers(s.peers, t.peers, id);
  }

  /** Between `s` and `t`, `n` batches were sent, all to `id`, and these very batches trimmed. */
  ghost predicate SentAndTrimmed(s: State, t: State, id: Ident, n: nat) {
    && s.trimmed <= t.trimmed && |t.trimmed| == |s.trimmed| + n
    && s.deliveries <= t.deliveries && |t.deliveries| == |s.deliveries| + n
    && forall d :: |s.deliveries| <= d < |t.deliveries| ==>
         && t.deliveries[d].to == id
         && t.deliveries[d].recs == t.trimmed[|s.trimmed| + d - |s.deliveries|]
  }

  lemma SentCompose(s: State, u: State, t: State, id: Ident, n: nat)
    requires SentAndTrimmed(s, u, id, 1) && SentAndTrimmed(u, t, id, n)
    ensures SentAndTrimmed(s, t, id, n + 1)
  {
    assert t.deliveries[|s.deliveries|] == u.deliveries[|s.deliveries|];
    assert t.trimmed[|s.trimmed|] == u.trimmed[|s.trimmed|];
  }

  lemma RoundDrainsOne(s: State, id: Ident, ask: Bytes, ack: Bytes, now: Timespec)
    requires Due(s, id, now) && RoundMessages(ask, ack) && Filled(s) > 0
    ensures var t := Round(s, id, ask, ack, now);
      && Inv(t) && Registered(t, id) && Owned(t, id).None? && t.deliver == 0
      && Filled(t) == Filled(s) - 1
      && SentAndTrimmed(s, t, id, 1)
      && Accepted(t) == Accepted(s)
  {
    var u := HandleDequeue(s, id, ask, now).0;
    ServeHead(s, id, ask, now);
    AckHead(s, u, id, ack);
    RoundTrimsOne(s, u, Round(s, id, ask, ack, now), id);
  }

  lemma RoundTrimsOne(s: State, u: State, t: State, id: Ident)
    requires HeadSent(s, u, id) && HeadGone(u, t, id)
    ensures Filled(t) == Filled(s) - 1 && SentAndTrimmed(s, t, id, 1)
  {
  }

  /** From any reachable state, once the head's deadline has passed (or nothing is outstanding) and
      intake stops, one registered client that holds nothing and alternates DEQUEUE and CLEAR
      empties the cache in exactly as many rounds as there are non-empty buckets, whatever the
      clock does in between: one empty open bucket is left, no record is cached, the last
      upstream clear is of the last record read, each round sent the client the very batch it
      trimmed, and asking again yields end of stream. */
  lemma {:induction false} DrainsInExactlyThatManyRounds(s: State, id: Ident, ask: Bytes, ack: Bytes, clock: seq<Timespec>)
    requires Inv(s) && Registered(s, id) && Owned(s, id).None?
    requires RoundMessages(ask, ack) && |clock| == Filled(s)
    requires clock != [] ==> s.deliver == 0 || Expired(s, clock[0])
    ensures var t := Rounds(s, id, ask, ack, clock);
      && |t.buckets| == 1 && t.buckets[0].recs == [] && t.recCnt == 0
      && Flatten(t.trimmed) == Accepted(s)
      && (s.srec > 0 ==> t.cleared != [] && t.cleared[|t.cleared| - 1] == s.srec - 1)
      && SentAndTrimmed(s, t, id, |clock|)
      && (forall now :: HandleDequeue(t, id, ask, now) == (t, 1))
    decreases |clock|
  {
    if clock == [] {
      Drained(s, id, ask);
    } else {
      var u := Round(s, id, ask, ack, clock[0]);
      RoundDrainsOne(s, id, ask, ack, clock[0]);
      SrecFollowsAccepted(s, u);
      DrainsInExactlyThatManyRounds(u, id, ask, ack, clock[1..]);
      SentCompose(s, u, Rounds(s, id, ask, ack, clock), id, |clock| - 1);
    }
  }

  lemma SrecFollowsAccepted(s: State, t: State)
    requires LogInv(s) && LogInv(t) && Accepted(s) == Accepted(t)
    ensures s.srec == t.srec
  {
  }

  lemma Drained(s: State, id: Ident, ask: Bytes)
    requires Inv(s) && Registered(s, id) && Owned(s, id).None?
    requires |ask| >= HEADER_SIZE && Filled(s) == 0
    ensures |s.buckets| == 1 && s.buckets[0].recs == [] && s.recCnt == 0
    ensures Flatten(s.trimmed) == Accepted(s)
    ensures s.srec > 0 ==> s.cleared != [] && s.cleared[|s.cleared| - 1] == s.srec - 1
    ensures forall now :: HandleDequeue(s, id, ask, now) == (s, 1)
  {
    assert BucketRecs(s.buckets) == [[]];
    FlattenOne<Rec>([]);
    assert Batches(s) == s.trimmed + [[]];
    FlattenSnoc(s.trimmed, []);
    if s.srec > 0 {
      LastOfFlatten(s.trimmed);
    }
    forall now
      ensures HandleDequeue(s, id, ask, now) == (s, 1)
    {
      DequeueServes(s, id, ask, now);
    }
  }
}

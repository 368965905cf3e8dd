/** What every step of the reader keeps.  The invariant is split by subject; each elementary
    change of state is shown to keep it, and the handlers are sequences of such changes. */
module ReaderInvariant {
  import opened Records
  import opened Wire
  import opened ReaderModel

  /** The bucket list: consecutive indices, only the open bucket may be empty, no bucket holds
      more than a batch, `size` is the length of the payload, and every ready bucket lies before
      the delivery cursor. */
  ghost predicate ListInv(s: State) {
    && s.cfg.Valid()
    && s.bktIdx == |s.trimmed| + |s.buckets|
    && (forall i :: 0 <= i < |s.buckets| ==> s.buckets[i].index == |s.trimmed| + i)
    && (forall i :: 0 <= i < |s.buckets| - 1 ==> s.buckets[i].recs != [])
    && (forall i :: 0 <= i < |s.buckets| ==> |s.buckets[i].recs| <= s.cfg.batch)
    && (forall i :: 0 <= i < |s.buckets| ==> s.buckets[i].size == |Payload(s.buckets[i].recs)|)
    && (forall i :: s.deliver <= i < |s.buckets| ==> !s.buckets[i].ready)
  }

  /** The clients: identities are distinct, a client owns only a bucket that was sent and is
      neither acknowledged nor trimmed, and no two clients own the same one. */
  ghost predicate OwnerInv(s: State) {
    && (forall j, k :: 0 <= j < k < |s.peers| ==> s.peers[j].ident != s.peers[k].ident)
    && (forall k :: 0 <= k < |s.peers| && s.peers[k].bucket.Some? ==> Outstanding(s, s.peers[k].bucket.value))
    && (forall j, k :: 0 <= j < k < |s.peers| && s.peers[j].bucket.Some? ==>
          s.peers[j].bucket != s.peers[k].bucket)
  }

  /** Bucket `x` was sent in this round and is not acknowledged. */
  ghost predicate Outstanding(s: State, x: nat) {
    && |s.trimmed| <= x < |s.trimmed| + s.deliver
    && !s.buckets[x - |s.trimmed|].ready
  }

  /** The counters. */
  ghost predicate CountInv(s: State) {
    && s.recCnt == |Flatten(BucketRecs(s.buckets))|
    && s.recCnt <= s.cfg.batch * s.cfg.maxBuckets
    && s.recRead == |Accepted(s)|
  }

  /** The records accepted are strictly increasing and end just below `srec`; the upstream clears
      are exactly the ends of the trimmed batches. */
  ghost predicate LogInv(s: State) {
    && Increasing(Accepted(s))
    && (Accepted(s) == [] ==> s.srec == 0)
    && (Accepted(s) != [] ==> s.srec == Accepted(s)[|Accepted(s)| - 1].index + 1)
    && (forall i :: 0 <= i < |s.trimmed| ==> s.trimmed[i] != [] && |s.trimmed[i]| <= s.cfg.batch)
    && s.cleared == MaxIndices(s.trimmed)
  }

  /** The deliveries: those of the current round are consecutive and cover every sent bucket still
      in the list, each delivery carried the contents its bucket has for ever, and a sent bucket
      carries the deadline of its delivery in the current round. */
  ghost predicate RoundInv(s: State) {
    var n := |s.deliveries|;
    && s.deliver <= n - s.roundStart <= |s.trimmed| + s.deliver
    && (forall i :: s.roundStart <= i < n ==> Numbered(s, i))
    && (forall i :: 0 <= i < n ==> Faithful(s, s.deliveries[i]))
    && (forall p :: 0 <= p < s.deliver ==> Stamped(s, p))
  }

  /** The last delivery was of the bucket just before the cursor, and so on backwards. */
  ghost predicate Numbered(s: State, i: nat)
    requires i < |s.deliveries|
  {
    s.deliveries[i].bucket == |s.trimmed| + s.deliver - (|s.deliveries| - i)
  }

  /** The bucket at position `p` carries the deadline of its delivery in the current round. */
  ghost predicate Stamped(s: State, p: nat)
    requires p < s.deliver <= |s.deliveries|
  {
    s.buckets[p].expiry == Deadline(s.deliveries[|s.deliveries| - s.deliver + p].at)
  }

  ghost predicate Faithful(s: State, d: Delivery) {
    d.bucket < |Closed(s)| && d.recs == Closed(s)[d.bucket]
  }

  ghost predicate Inv(s: State) {
    ListInv(s) && OwnerInv(s) && CountInv(s) && LogInv(s) && RoundInv(s)
  }

  // ---------------------------------------------------------------- elementary changes

  lemma InitInv(cfg: Config)
    requires cfg.Valid()
    ensures Inv(Init(cfg))
  {
    var s := Init(cfg);
    assert BucketRecs(s.buckets) == [[]];
    assert Batches(s) == [[]];
    FlattenOne<Rec>([]);
  }

  /** Everything the invariant speaks of, clients apart. */
  ghost predicate SameCache(s: State, t: State) {
    && t.cfg == s.cfg && t.buckets == s.buckets && t.deliver == s.deliver && t.bktIdx == s.bktIdx
    && t.recCnt == s.recCnt && t.srec == s.srec && t.recRead == s.recRead
    && t.trimmed == s.trimmed && t.cleared == s.cleared
    && t.deliveries == s.deliveries && t.roundStart == s.roundStart
  }

  lemma SameCacheInv(s: State, t: State)
    requires Inv(s) && SameCache(s, t) && OwnerInv(t)
    ensures Inv(t)
  {
    assert Batches(t) == Batches(s);
    RoundCarry(s, t);
  }

  /** Clients keep what they own as long as it stays outstanding. */
  lemma OwnerCarry(s: State, t: State)
    requires OwnerInv(s) && t.peers == s.peers
    requires forall x: nat :: Outstanding(s, x) ==> Outstanding(t, x)
    ensures OwnerInv(t)
  {
  }

  lemma FaithfulCarry(s: State, t: State)
    requires Closed(s) <= Closed(t)
    ensures forall d :: Faithful(s, d) ==> Faithful(t, d)
  {
    forall d | Faithful(s, d)
      ensures Faithful(t, d)
    {
      assert Closed(s)[d.bucket] == Closed(t)[d.bucket];
    }
  }

  /** The round is untouched as long as cursor, deliveries and deadlines are. */
  lemma RoundCarry(s: State, t: State)
    requires RoundInv(s) && Closed(s) <= Closed(t)
    requires t.trimmed == s.trimmed && t.deliver == s.deliver
    requires t.deliveries == s.deliveries && t.roundStart == s.roundStart
    requires forall p :: 0 <= p < s.deliver ==> t.buckets[p].expiry == s.buckets[p].expiry
    ensures RoundInv(t)
  {
    FaithfulCarry(s, t);
    assert forall i :: s.roundStart <= i < |s.deliveries| ==> Numbered(s, i) ==> Numbered(t, i);
    assert forall p :: 0 <= p < s.deliver ==> Stamped(s, p) ==> Stamped(t, p);
  }

  /** Neither the outbox nor the session takes part in the invariant. */
  lemma SendInv(s: State, dst: Ident, body: Bytes)
    requires Inv(s)
    ensures Inv(Send(s, dst, body))
  {
    var t := Send(s, dst, body);
    assert forall x: nat :: Outstanding(s, x) ==> Outstanding(t, x);
    OwnerCarry(s, t);
    SameCacheInv(s, t);
  }

  lemma SessionInv(s: State, session: Option<Session>)
    requires Inv(s)
    ensures Inv(s.(session := session))
  {
    var t := s.(session := session);
    assert forall x: nat :: Outstanding(s, x) ==> Outstanding(t, x);
    OwnerCarry(s, t);
    SameCacheInv(s, t);
  }

  /** Clients may be dropped, added with nothing owned, or relieved of what they own. */
  lemma PeersInv(s: State, peers: seq<Peer>)
    requires Inv(s)
    requires forall j, k :: 0 <= j < k < |peers| ==> peers[j].ident != peers[k].ident
    requires forall k :: 0 <= k < |peers| && peers[k].bucket.Some? ==> peers[k] in s.peers
    ensures Inv(s.(peers := peers))
  {
    var t := s.(peers := peers);
    assert forall x: nat :: Outstanding(s, x) ==> Outstanding(t, x);
    SameCacheInv(s, t);
  }

  lemma StartInv(s: State, id: Ident, body: Bytes)
    requires Inv(s)
    ensures Inv(HandleStart(s, id, body).0)
  {
    if |body| >= START_SIZE && !Registered(s, id) {
      var peers := s.peers + [Peer(id, Unlittle(body[16..24]), None)];
      PeersInv(s, peers);
      SendInv(s.(peers := peers), id, AckMsg(0));
    }
  }

  lemma FiniInv(s: State, id: Ident, body: Bytes)
    requires Inv(s)
    ensures Inv(HandleFini(s, id, body).0)
  {
    if |body| >= HEADER_SIZE && Registered(s, id) {
      var k := PeerAt(s.peers, id);
      var t := s.(peers := s.peers[..k] + s.peers[k + 1..]);
      DropInv(s, k);
      SendInv(t, id, AckMsg(0));
      assert HandleFini(s, id, body).0 == Send(t, id, AckMsg(0));
    }
  }

  lemma DropInv(s: State, k: nat)
    requires Inv(s) && k < |s.peers|
    ensures Inv(s.(peers := s.peers[..k] + s.peers[k + 1..]))
  {
    var peers := s.peers[..k] + s.peers[k + 1..];
    assert forall j :: 0 <= j < |peers| ==> peers[j] == s.peers[if j < k then j else j + 1];
    PeersInv(s, peers);
  }

  lemma ReleaseInv(s: State, k: nat)
    requires Inv(s) && k < |s.peers|
    ensures Inv(s.(peers := SetBucket(s.peers, k, None)))
  {
    PeersInv(s, SetBucket(s.peers, k, None));
  }

  /** What a rewind does to the list and to the clients: the same records in the same places,
      none of them ready, and nobody owns anything. */
  lemma RewindFacts(s: State)
    requires ListInv(s) && OwnerInv(s)
    ensures var r := Rewind(s);
      && r.deliver == 0 && |r.buckets| == |s.buckets|
      && (forall i :: 0 <= i < |r.buckets| ==> r.buckets[i] == s.buckets[i].(ready := false))
      && BucketRecs(r.buckets) == BucketRecs(s.buckets)
      && Closed(r) == Closed(s)
      && |r.peers| == |s.peers|
      && (forall k :: 0 <= k < |r.peers| ==> r.peers[k] == s.peers[k].(bucket := None))
  {
    var r := Rewind(s);
    assert BucketRecs(r.buckets) == BucketRecs(s.buckets);
    forall k | 0 <= k < |r.peers|
      ensures r.peers[k] == s.peers[k].(bucket := None)
    {
      if s.peers[k].bucket.Some? {
        var x := s.peers[k].bucket.value;
        assert Outstanding(s, x);
        assert s.buckets[..s.deliver][x - |s.trimmed|].index == x;
      }
    }
  }

  lemma RewindInv(s: State)
    requires Inv(s)
    ensures Inv(Rewind(s))
  {
    var r := Rewind(s);
    RewindFacts(s);
    assert Batches(r) == Batches(s);
    assert ListInv(r) && OwnerInv(r) && CountInv(r) && LogInv(r);
    RewindRound(s);
  }

  lemma RewindRound(s: State)
    requires ListInv(s) && OwnerInv(s) && RoundInv(s)
    ensures RoundInv(Rewind(s))
  {
    var r := Rewind(s);
    RewindFacts(s);
    FaithfulCarry(s, r);
    assert forall i :: r.roundStart <= i < |s.deliveries| ==> Numbered(s, i) ==> Numbered(r, i);
  }

  lemma DeliverRecs(s: State, k: nat, now: Timespec)
    requires k < |s.peers|
    ensures var before, after := BucketRecs(s.buckets), BucketRecs(Deliver(s, k, now).buckets);
      after == if s.deliver + 1 == |s.buckets| then before + [[]] else before
  {
  }

  /** Sending the bucket at the cursor leaves every batch in place and closes it. */
  lemma DeliverFacts(s: State, k: nat, now: Timespec)
    requires k < |s.peers|
    ensures var t := Deliver(s, k, now);
      && Closed(s) <= Closed(t)
      && Flatten(BucketRecs(t.buckets)) == Flatten(BucketRecs(s.buckets))
      && Accepted(t) == Accepted(s)
      && |s.trimmed| + s.deliver < |Closed(t)|
      && Closed(t)[|s.trimmed| + s.deliver] == s.buckets[s.deliver].recs
  {
    var t := Deliver(s, k, now);
    DeliverRecs(s, k, now);
    if s.deliver + 1 == |s.buckets| {
      FlattenSnoc(BucketRecs(s.buckets), []);
      assert Batches(t) == Batches(s) + [[]];
      FlattenSnoc(Batches(s), []);
    } else {
      assert Batches(t) == Batches(s);
    }
  }

  lemma DeliverList(s: State, k: nat, now: Timespec)
    requires ListInv(s) && k < |s.peers| && s.buckets[s.deliver].recs != []
    ensures ListInv(Deliver(s, k, now))
  {
  }

  lemma DeliverOwner(s: State, k: nat, now: Timespec)
    requires ListInv(s) && OwnerInv(s) && k < |s.peers| && s.peers[k].bucket.None?
    ensures OwnerInv(Deliver(s, k, now))
  {
    var t := Deliver(s, k, now);
    assert forall x: nat :: Outstanding(s, x) ==> Outstanding(t, x);
    assert Outstanding(t, s.buckets[s.deliver].index);
  }

  lemma DeliverRound(s: State, k: nat, now: Timespec)
    requires RoundInv(s) && k < |s.peers| && s.buckets[s.deliver].index == |s.trimmed| + s.deliver
    ensures RoundInv(Deliver(s, k, now))
  {
    var t, n := Deliver(s, k, now), |s.deliveries|;
    DeliverFacts(s, k, now);
    FaithfulCarry(s, t);
    assert Faithful(t, t.deliveries[n]);
    forall i | t.roundStart <= i < n + 1
      ensures Numbered(t, i)
    {
      assert i < n ==> Numbered(s, i);
    }
    forall p | 0 <= p < t.deliver
      ensures Stamped(t, p)
    {
      assert p < s.deliver ==> Stamped(s, p);
    }
  }

  lemma DeliverInv(s: State, k: nat, now: Timespec)
    requires Inv(s) && k < |s.peers| && s.peers[k].bucket.None?
    requires s.buckets[s.deliver].recs != []
    ensures Inv(Deliver(s, k, now))
  {
    DeliverFacts(s, k, now);
    DeliverList(s, k, now);
    DeliverOwner(s, k, now);
    DeliverRound(s, k, now);
  }

  lemma MarkReadyFacts(s: State, x: nat)
    ensures var t := MarkReady(s, x);
      BucketRecs(t.buckets) == BucketRecs(s.buckets) && Batches(t) == Batches(s) && Closed(t) == Closed(s)
  {
    var t := MarkReady(s, x);
    assert BucketRecs(t.buckets) == BucketRecs(s.buckets);
  }

  /** The client's bucket, once released, becomes ready. */
  lemma MarkReadyInv(s: State, x: nat)
    requires Inv(s) && Outstanding(s, x)
    requires forall k :: 0 <= k < |s.peers| ==> s.peers[k].bucket != Some(x)
    ensures Inv(MarkReady(s, x))
  {
    var t := MarkReady(s, x);
    MarkReadyFacts(s, x);
    MarkReadyOwner(s, x);
    RoundCarry(s, t);
    assert ListInv(t) && CountInv(t) && LogInv(t);
  }

  lemma MarkReadyOwner(s: State, x: nat)
    requires ListInv(s) && OwnerInv(s)
    requires forall k :: 0 <= k < |s.peers| ==> s.peers[k].bucket != Some(x)
    ensures OwnerInv(MarkReady(s, x))
  {
    var t := MarkReady(s, x);
    assert forall y: nat :: Outstanding(s, y) && y != x ==> Outstanding(t, y);
  }

  /** `t` has the buckets of `s`, with bucket `x` ready. */
  ghost predicate Marked(s: State, t: State, x: nat) {
    && |t.buckets| == |s.buckets|
    && forall i :: 0 <= i < |s.buckets| ==>
         t.buckets[i] == if s.buckets[i].index == x then s.buckets[i].(ready := true) else s.buckets[i]
  }

  /** What an acknowledgement changes: the client's bucket is ready and the client owns nothing. */
  lemma AcknowledgeFacts(s: State, id: Ident)
    requires Inv(s) && Owned(s, id).Some?
    ensures var t, x := Acknowledge(s, id), Owned(s, id).value;
      && Inv(t) && Outstanding(s, x)
      && Batches(t) == Batches(s)
      && t.peers == SetBucket(s.peers, PeerAt(s.peers, id), None)
      && Marked(s, t, x)
  {
    var k, x := PeerAt(s.peers, id), Owned(s, id).value;
    var freed := s.(peers := SetBucket(s.peers, k, None));
    ReleaseInv(s, k);
    assert Outstanding(s, x) && Outstanding(freed, x);
    MarkReadyInv(freed, x);
    MarkReadyFacts(freed, x);
  }

  lemma BucketRecsSplit(bs: seq<Bucket>, m: nat)
    requires m <= |bs|
    ensures BucketRecs(bs) == BucketRecs(bs[..m]) + BucketRecs(bs[m..])
  {
  }

  /** Trimming moves batches from the list to the history and touches none. */
  lemma TrimFacts(s: State, m: nat)
    requires m < |s.buckets|
    ensures var t := Trim(s, m);
      && Batches(t) == Batches(s) && Closed(t) == Closed(s)
      && t.recCnt - |Flatten(BucketRecs(t.buckets))| == s.recCnt - |Flatten(BucketRecs(s.buckets))|
  {
    var gone, kept := BucketRecs(s.buckets[..m]), BucketRecs(s.buckets[m..]);
    BucketRecsSplit(s.buckets, m);
    FlattenConcat(gone, kept);
    assert s.trimmed + (gone + kept) == (s.trimmed + gone) + kept;
  }

  lemma ReadyBeforeCursor(s: State)
    requires ListInv(s)
    ensures ReadyPrefix(s.buckets) <= s.deliver
  {
    var n := ReadyPrefix(s.buckets);
    assert n > 0 ==> s.buckets[n - 1].ready;
  }

  lemma TrimOwner(s: State, m: nat)
    requires ListInv(s) && OwnerInv(s) && m <= ReadyPrefix(s.buckets)
    ensures OwnerInv(Trim(s, m))
  {
    var t := Trim(s, m);
    ReadyBeforeCursor(s);
    forall x: nat | Outstanding(s, x)
      ensures Outstanding(t, x)
    {
      var i := x - |s.trimmed|;
      assert i >= m;
      assert t.buckets[i - m] == s.buckets[i];
    }
    OwnerCarry(s, t);
  }

  lemma TrimStamped(s: State, m: nat, p: nat)
    requires m <= s.deliver <= |s.deliveries| && p + m < s.deliver && Stamped(s, p + m)
    ensures Stamped(Trim(s, m), p)
  {
    assert Trim(s, m).buckets[p] == s.buckets[p + m];
  }

  lemma TrimRound(s: State, m: nat)
    requires RoundInv(s) && m <= s.deliver
    ensures RoundInv(Trim(s, m))
  {
    var t := Trim(s, m);
    TrimFacts(s, m);
    FaithfulCarry(s, t);
    forall i | t.roundStart <= i < |s.deliveries|
      ensures Numbered(t, i)
    {
      assert Numbered(s, i);
    }
    forall p | 0 <= p < t.deliver
      ensures Stamped(t, p)
    {
      TrimStamped(s, m, p);
    }
  }

  lemma TrimLog(s: State, m: nat)
    requires ListInv(s) && LogInv(s) && m < |s.buckets|
    ensures LogInv(Trim(s, m))
  {
    TrimFacts(s, m);
    var t := Trim(s, m);
    assert t.cleared == MaxIndices(t.trimmed);
  }

  lemma TrimInv(s: State, m: nat)
    requires Inv(s) && m <= ReadyPrefix(s.buckets)
    ensures Inv(Trim(s, m))
  {
    ReadyBeforeCursor(s);
    TrimFacts(s, m);
    TrimList(s, m);
    TrimOwner(s, m);
    TrimRound(s, m);
    TrimLog(s, m);
  }

  lemma TrimList(s: State, m: nat)
    requires ListInv(s) && m <= s.deliver
    ensures ListInv(Trim(s, m))
  {
  }

  lemma CleanupInv(s: State, up: Upstream)
    requires Inv(s)
    ensures Inv(Cleanup(s, up).0)
  {
    match up
    case FailAt(call, rc) => TrimInv(s, if call < ReadyPrefix(s.buckets) then call else ReadyPrefix(s.buckets));
    case AllSucceed => TrimInv(s, ReadyPrefix(s.buckets));
  }

  /** What storing a record does to the batches. */
  lemma StoreFacts(s: State, rec: Rec)
    ensures var t := Store(s, rec);
      && Accepted(t) == Accepted(s) + [rec]
      && |Flatten(BucketRecs(t.buckets))| == |Flatten(BucketRecs(s.buckets))| + 1
      && |Closed(t)| >= |Closed(s)| && Closed(t)[..|Closed(s)|] == Closed(s)
  {
    var t, n := Store(s, rec), |s.buckets| - 1;
    var before, after := BucketRecs(s.buckets), BucketRecs(t.buckets);
    if |s.buckets[n].recs| == s.cfg.batch {
      assert after == before + [[rec]];
      FlattenSnoc(before, [rec]);
      assert Batches(t) == Batches(s) + [[rec]];
      FlattenSnoc(Batches(s), [rec]);
    } else {
      assert after == before[n := before[n] + [rec]];
      FlattenGrowLast(before, rec);
      var all := Batches(s);
      assert Batches(t) == all[|all| - 1 := all[|all| - 1] + [rec]];
      FlattenGrowLast(all, rec);
    }
  }

  lemma StoreListInv(s: State, rec: Rec)
    requires ListInv(s)
    ensures ListInv(Store(s, rec))
  {
    var t, n := Store(s, rec), |s.buckets| - 1;
    PayloadSnoc(s.buckets[n].recs, rec);
    PayloadSnoc([], rec);
    assert [] + [rec] == [rec];
  }

  lemma StoreRound(s: State, rec: Rec)
    requires RoundInv(s)
    ensures RoundInv(Store(s, rec))
  {
    var t := Store(s, rec);
    StoreFacts(s, rec);
    RoundCarry(s, t);
  }

  lemma StoreLog(s: State, rec: Rec)
    requires LogInv(s) && rec.index >= s.srec
    ensures LogInv(Store(s, rec))
  {
    StoreFacts(s, rec);
  }

  lemma StoreInv(s: State, rec: Rec)
    requires Inv(s) && !Full(s) && rec.index >= s.srec
    ensures Inv(Store(s, rec))
  {
    var t := Store(s, rec);
    StoreFacts(s, rec);
    StoreListInv(s, rec);
    StoreRound(s, rec);
    StoreLog(s, rec);
    assert OwnerInv(t) by {
      assert forall x: nat :: Outstanding(s, x) ==> Outstanding(t, x);
      OwnerCarry(s, t);
    }
  }

  /** Induction over the records of a session: what storing a record keeps, reading it keeps. */
  lemma {:induction false} PullKeeps(P: State -> bool, s: State, feed: seq<Rec>, stored: nat)
    requires P(s) && !Full(s)
    requires forall t: State, rec: Rec :: P(t) && !Full(t) && rec.index >= t.srec ==> P(Store(t, rec))
    ensures P(Pull(s, feed, stored).0)
    decreases |feed|
  {
    if feed == [] {
    } else if feed[0].index < s.srec {
      PullKeeps(P, s, feed[1..], stored);
    } else {
      var t := Store(s, feed[0]);
      assert P(t);
      if stored + 1 < s.cfg.batch && !Full(t) {
        PullKeeps(P, t, feed[1..], stored + 1);
      }
    }
  }

  lemma PullInv(s: State, feed: seq<Rec>, stored: nat)
    requires Inv(s) && !Full(s)
    ensures Inv(Pull(s, feed, stored).0)
  {
    var P := (t: State) => Inv(t);
    forall t: State, rec: Rec | P(t) && !Full(t) && rec.index >= t.srec
      ensures P(Store(t, rec))
    {
      StoreInv(t, rec);
    }
    PullKeeps(P, s, feed, stored);
  }

  /** When a session is read to its end, nothing of it is left. */
  lemma {:induction false} PullEnds(s: State, feed: seq<Rec>, stored: nat)
    ensures var (t, rest, ended) := Pull(s, feed, stored); ended ==> rest == []
    decreases |feed|
  {
    if feed == [] {
    } else if feed[0].index < s.srec {
      PullEnds(s, feed[1..], stored);
    } else if stored + 1 < s.cfg.batch && !Full(Store(s, feed[0])) {
      PullEnds(Store(s, feed[0]), feed[1..], stored + 1);
    }
  }

  // ---------------------------------------------------------------- handlers

  lemma PositionedInv(s: State, now: Timespec)
    requires Inv(s)
    ensures Inv(Positioned(s, now))
  {
    if Expired(s, now) {
      RewindInv(s);
    }
  }

  /** A rewind leaves the identities alone and can only free clients. */
  lemma PositionedPeers(s: State, now: Timespec)
    ensures var r := Positioned(s, now);
      && |r.peers| == |s.peers|
      && (forall k :: 0 <= k < |s.peers| ==> r.peers[k].ident == s.peers[k].ident)
      && (forall k :: 0 <= k < |s.peers| && s.peers[k].bucket.None? ==> r.peers[k].bucket.None?)
  {
  }

  lemma DequeueInv(s: State, id: Ident, body: Bytes, now: Timespec)
    requires Inv(s)
    ensures Inv(HandleDequeue(s, id, body, now).0)
  {
    if |body| >= HEADER_SIZE && Registered(s, id) && Owned(s, id).None? {
      var r := Positioned(s, now);
      PositionedInv(s, now);
      PositionedPeers(s, now);
      if r.buckets[r.deliver].recs != [] {
        DeliverInv(r, PeerAt(s.peers, id), now);
      }
    }
  }

  lemma ClearInv(s: State, id: Ident, body: Bytes, up: Upstream)
    requires Inv(s)
    ensures Inv(HandleClear(s, id, body, up).0)
  {
    if |body| >= CLEAR_SIZE && Registered(s, id) {
      if Owned(s, id).None? {
        SendInv(s, id, AckMsg(0));
      } else {
        AcknowledgeFacts(s, id);
        CleanupInv(Acknowledge(s, id), up);
        SendInv(Cleanup(Acknowledge(s, id), up).0, id, AckMsg(0));
      }
    }
  }

  lemma HandleInv(s: State, id: Ident, body: Bytes, now: Timespec, up: Upstream)
    requires Inv(s)
    ensures Inv(Handle(s, id, body, now, up).0)
  {
    if |body| < HEADER_SIZE || OpType(body) > OP_SIGNAL {
    } else if OpType(body) == OP_START {
      StartInv(s, id, body);
    } else if OpType(body) == OP_DEQUEUE {
      DequeueInv(s, id, body, now);
    } else if OpType(body) == OP_CLEAR {
      ClearInv(s, id, body, up);
    } else if OpType(body) == OP_FINI {
      FiniInv(s, id, body);
    }
  }

  lemma DispatchInv(s: State, id: Ident, body: Bytes, now: Timespec, up: Upstream)
    requires Inv(s)
    ensures Inv(Dispatch(s, id, body, now, up))
  {
    var (r, rc) := Handle(s, id, body, now, up);
    HandleInv(s, id, body, now, up);
    SendInv(r, id, AckMsg(rc));
  }

  lemma IntakeInv(s: State, startRc: int, feed: seq<Rec>, last: EndCode)
    requires Inv(s)
    ensures Inv(Intake(s, startRc, feed, last).0)
  {
    if !Full(s) && !(s.session.None? && startRc != 0) {
      var session := if s.session.Some? then s.session.value else Session(feed, last);
      var (t, rest, ended) := Pull(s, session.pending, 0);
      var u := Intake(s, startRc, feed, last).0;
      PullInv(s, session.pending, 0);
      SessionInv(t, u.session);
      assert u == t.(session := u.session);
    }
  }

  /** Every step of the reader keeps the invariant. */
  lemma StepInv(s: State, e: Event)
    requires Inv(s)
    ensures Inv(Step(s, e))
  {
    match e
    case Message(from, body, now, up) => DispatchInv(s, from, body, now, up);
    case Read(startRc, feed, last) => IntakeInv(s, startRc, feed, last);
  }

  /** The invariant holds in every state any run reaches: whatever the messages, whoever sends
      them, whatever the upstream yields and answers, and whatever the clock reads. */
  lemma {:induction false} RunInv(cfg: Config, events: seq<Event>)
    requires cfg.Valid()
    ensures Inv(Run(Init(cfg), events))
    decreases |events|
  {
    if events == [] {
      InitInv(cfg);
    } else {
      var n := |events| - 1;
      RunInv(cfg, events[..n]);
      StepInv(Run(Init(cfg), events[..n]), events[n]);
    }
  }

  /** States some run reaches. */
  ghost predicate Reachable(s: State) {
    exists cfg: Config, events :: cfg.Valid() && s == Run(Init(cfg), events)
  }

  lemma ReachableInv(s: State)
    requires Reachable(s)
    ensures Inv(s)
  {
    var cfg: Config, events :| cfg.Valid() && s == Run(Init(cfg), events);
    RunInv(cfg, events);
  }

  lemma ReachableInit(cfg: Config)
    requires cfg.Valid()
    ensures Reachable(Init(cfg))
  {
    assert Run(Init(cfg), []) == Init(cfg);
  }

  lemma ReachableStep(s: State, e: Event)
    requires Reachable(s)
    ensures Reachable(Step(s, e))
  {
    var cfg: Config, events :| cfg.Valid() && s == Run(Init(cfg), events);
    var longer := events + [e];
    assert longer[..|events|] == events;
    assert Step(s, e) == Run(Init(cfg), longer);
  }
}

/** What the invariant means over whole runs of the reader. */
module ReaderRuns {
  import opened Records
  import opened Wire
  import opened ReaderModel
  import opened ReaderInvariant

  // ---------------------------------------------------------------- the log

  /** Nothing accepted is forgotten, no closed batch changes, and the histories only grow. */
  ghost predicate Extends(s: State, t: State) {
    && Accepted(s) <= Accepted(t) && Closed(s) <= Closed(t)
    && s.cleared <= t.cleared && s.deliveries <= t.deliveries
  }

  /** What a message cannot change: intake and everything accepted. */
  ghost predicate Kept(s: State, t: State) {
    && Accepted(t) == Accepted(s) && t.session == s.session && t.srec == s.srec
    && Closed(s) <= Closed(t) && s.cleared <= t.cleared && s.deliveries <= t.deliveries
  }

  lemma SameBatchesKept(s: State, t: State)
    requires Batches(t) == Batches(s) && t.session == s.session && t.srec == s.srec
    requires s.cleared <= t.cleared && s.deliveries <= t.deliveries
    ensures Kept(s, t)
  {
  }

  lemma CleanupKept(s: State, up: Upstream)
    ensures Kept(s, Cleanup(s, up).0)
    ensures Batches(Cleanup(s, up).0) == Batches(s)
  {
    var n := ReadyPrefix(s.buckets);
    TrimFacts(s, n);
    if up.FailAt? && up.call < n {
      TrimFacts(s, up.call);
    }
    SameBatchesKept(s, Cleanup(s, up).0);
  }

  lemma PositionedKept(s: State, now: Timespec)
    requires ListInv(s) && OwnerInv(s)
    ensures Kept(s, Positioned(s, now))
  {
    RewindFacts(s);
    SameBatchesKept(s, Positioned(s, now));
  }

  lemma DequeueKept(s: State, id: Ident, body: Bytes, now: Timespec)
    requires ListInv(s) && OwnerInv(s)
    ensures Kept(s, HandleDequeue(s, id, body, now).0)
  {
    if |body| >= HEADER_SIZE && Registered(s, id) && Owned(s, id).None? {
      var r := Positioned(s, now);
      PositionedKept(s, now);
      if r.buckets[r.deliver].recs != [] {
        DeliverFacts(r, PeerAt(s.peers, id), now);
      }
    } else {
      SameBatchesKept(s, s);
    }
  }

  /** A CLEAR does what the cleanup does, and perhaps answers. */
  lemma ClearAnswers(s: State, id: Ident, body: Bytes, up: Upstream)
    requires |body| >= CLEAR_SIZE && Owned(s, id).Some?
    ensures var t := HandleClear(s, id, body, up).0; t == Cleanup(Acknowledge(s, id), up).0.(outbox := t.outbox)
  {
  }

  lemma AnsweredKept(s: State, u: State, t: State)
    requires Kept(s, u) && t == u.(outbox := t.outbox)
    ensures Kept(s, t)
  {
    assert Batches(t) == Batches(u);
  }

  lemma ClearKept(s: State, id: Ident, body: Bytes, up: Upstream)
    requires Inv(s)
    ensures Kept(s, HandleClear(s, id, body, up).0)
  {
    if |body| >= CLEAR_SIZE && Registered(s, id) && Owned(s, id).Some? {
      var a := Acknowledge(s, id);
      AcknowledgeFacts(s, id);
      CleanupKept(a, up);
      ClearAnswers(s, id, body, up);
      AnsweredKept(s, Cleanup(a, up).0, HandleClear(s, id, body, up).0);
    } else {
      SameBatchesKept(s, HandleClear(s, id, body, up).0);
    }
  }

  lemma HandleKept(s: State, id: Ident, body: Bytes, now: Timespec, up: Upstream)
    requires Inv(s)
    ensures Kept(s, Handle(s, id, body, now, up).0)
  {
    if |body| < HEADER_SIZE || OpType(body) > OP_SIGNAL {
    } else if OpType(body) == OP_DEQUEUE {
      DequeueKept(s, id, body, now);
    } else if OpType(body) == OP_CLEAR {
      ClearKept(s, id, body, up);
    } else {
      SameBatchesKept(s, Handle(s, id, body, now, up).0);
    }
  }

  lemma MessageKept(s: State, id: Ident, body: Bytes, now: Timespec, up: Upstream)
    requires Inv(s)
    ensures Kept(s, Dispatch(s, id, body, now, up))
  {
    var (r, rc) := Handle(s, id, body, now, up);
    HandleKept(s, id, body, now, up);
    SameBatchesKept(r, Send(r, id, AckMsg(rc)));
  }

  lemma {:induction false} PullGrows(s: State, feed: seq<Rec>, stored: nat)
    ensures Extends(s, Pull(s, feed, stored).0)
    decreases |feed|
  {
    if feed == [] {
    } else if feed[0].index < s.srec {
      PullGrows(s, feed[1..], stored);
    } else {
      var t := Store(s, feed[0]);
      StoreFacts(s, feed[0]);
      if stored + 1 < s.cfg.batch && !Full(t) {
        PullGrows(t, feed[1..], stored + 1);
      }
    }
  }

  /** No step forgets an accepted record, changes a closed batch or rewrites history. */
  lemma StepGrows(s: State, e: Event)
    requires Inv(s)
    ensures Extends(s, Step(s, e))
  {
    match e
    case Message(from, body, now, up) => MessageKept(s, from, body, now, up);
    case Read(startRc, feed, last) =>
      var t := Intake(s, startRc, feed, last).0;
      if !Full(s) && !(s.session.None? && startRc != 0) {
        var pending := if s.session.Some? then s.session.value.pending else feed;
        PullGrows(s, pending, 0);
        assert Batches(t) == Batches(Pull(s, pending, 0).0);
      }
  }

  /** The trimmed records followed by the cached ones are the accepted ones: strictly increasing,
      hence free of duplicates, whatever the upstream yields. */
  lemma NoDuplicates(s: State)
    requires Reachable(s)
    ensures Flatten(s.trimmed) + Flatten(BucketRecs(s.buckets)) == Accepted(s)
    ensures Increasing(Accepted(s))
    ensures forall r :: r in Accepted(s) ==> r.index < s.srec
  {
    ReachableInv(s);
    FlattenConcat(s.trimmed, BucketRecs(s.buckets));
    BelowSrec(s);
  }

  lemma BelowSrec(s: State)
    requires LogInv(s)
    ensures forall r :: r in Accepted(s) ==> r.index < s.srec
  {
  }

  /** A session opened at `srec` yields a stretch of the changelog that starts at or before the
      first record not yet accepted. */
  ghost predicate Honest(log: seq<Rec>, s: State, e: Event) {
    e.Read? && s.session.None? && e.startRc == 0 ==>
      exists i: nat, j: nat :: Stretch(log, e.feed, i, j) && forall k :: 0 <= k < i ==> log[k].index < s.srec
  }

  ghost predicate Stretch(log: seq<Rec>, feed: seq<Rec>, i: nat, j: nat) {
    i <= j <= |log| && feed == log[i..j]
  }

  ghost predicate HonestRun(log: seq<Rec>, cfg: Config, events: seq<Event>) {
    forall n :: 0 <= n < |events| ==> Honest(log, Run(Init(cfg), events[..n]), events[n])
  }

  /** The open session is a stretch of the log that starts no later than the next record due. */
  ghost predicate OnLog(log: seq<Rec>, s: State) {
    && Accepted(s) <= log
    && (s.session.Some? ==>
          exists p: nat, q: nat :: Stretch(log, s.session.value.pending, p, q) && p <= |Accepted(s)|)
  }

  /** The next record due is the first of the log that is not below `srec`. */
  lemma BelowNext(log: seq<Rec>, s: State, k: nat)
    requires LogInv(s) && Increasing(log) && Accepted(s) <= log && k < |log|
    ensures log[k].index < s.srec <==> k < |Accepted(s)|
  {
    var n := |Accepted(s)|;
    if n > 0 {
      assert Accepted(s)[n - 1] == log[n - 1];
    }
  }

  lemma {:induction false} PullOnLog(log: seq<Rec>, s: State, feed: seq<Rec>, stored: nat, p: nat, q: nat)
    returns (p': nat)
    requires LogInv(s) && Increasing(log) && Accepted(s) <= log
    requires Stretch(log, feed, p, q) && p <= |Accepted(s)|
    ensures var (t, rest, ended) := Pull(s, feed, stored);
      Accepted(t) <= log && Stretch(log, rest, p', q) && p' <= |Accepted(t)|
    decreases |feed|
  {
    if feed == [] {
      p' := p;
    } else {
      BelowNext(log, s, p);
      assert feed[1..] == log[p + 1..q];
      if feed[0].index < s.srec {
        p' := PullOnLog(log, s, feed[1..], stored, p + 1, q);
      } else {
        var t := Store(s, feed[0]);
        StoreOnLog(log, s, p);
        StoreLog(s, feed[0]);
        if stored + 1 < s.cfg.batch && !Full(t) {
          p' := PullOnLog(log, t, feed[1..], stored + 1, p + 1, q);
        } else {
          p' := p + 1;
        }
      }
    }
  }

  lemma StoreOnLog(log: seq<Rec>, s: State, p: nat)
    requires Accepted(s) <= log && p == |Accepted(s)| < |log|
    ensures Accepted(Store(s, log[p])) <= log && |Accepted(Store(s, log[p]))| == p + 1
  {
    StoreFacts(s, log[p]);
  }

  lemma IntakeOnLog(log: seq<Rec>, s: State, startRc: int, feed: seq<Rec>, last: EndCode)
    requires Inv(s) && Increasing(log) && OnLog(log, s)
    requires Honest(log, s, Read(startRc, feed, last))
    ensures OnLog(log, Intake(s, startRc, feed, last).0)
  {
    if !Full(s) && !(s.session.None? && startRc != 0) {
      var pending := if s.session.Some? then s.session.value.pending else feed;
      var p, q := PendingOnLog(log, s, feed, startRc, last);
      var p' := PullOnLog(log, s, pending, 0, p, q);
      var (u, rest, ended) := Pull(s, pending, 0);
      PullEnds(s, pending, 0);
      var t := Intake(s, startRc, feed, last).0;
      assert Batches(t) == Batches(u);
      assert t.session.Some? ==> t.session.value.pending == rest;
    }
  }

  lemma PendingOnLog(log: seq<Rec>, s: State, feed: seq<Rec>, startRc: int, last: EndCode) returns (p: nat, q: nat)
    requires LogInv(s) && Increasing(log) && OnLog(log, s)
    requires Honest(log, s, Read(startRc, feed, last)) && (s.session.Some? || startRc == 0)
    ensures Stretch(log, if s.session.Some? then s.session.value.pending else feed, p, q) && p <= |Accepted(s)|
  {
    if s.session.Some? {
      p, q :| Stretch(log, s.session.value.pending, p, q) && p <= |Accepted(s)|;
    } else {
      p, q :| Stretch(log, feed, p, q) && forall k :: 0 <= k < p ==> log[k].index < s.srec;
      if p > |Accepted(s)| {
        BelowNext(log, s, |Accepted(s)|);
      }
    }
  }

  lemma {:induction false} RunOnLog(log: seq<Rec>, cfg: Config, events: seq<Event>)
    requires cfg.Valid() && Increasing(log) && HonestRun(log, cfg, events)
    ensures OnLog(log, Run(Init(cfg), events))
    decreases |events|
  {
    if events == [] {
      InitInv(cfg);
      assert Batches(Init(cfg)) == [[]];
      FlattenOne<Rec>([]);
    } else {
      var n := |events| - 1;
      HonestPrefix(log, cfg, events);
      RunOnLog(log, cfg, events[..n]);
      RunInv(cfg, events[..n]);
      StepOnLog(log, Run(Init(cfg), events[..n]), events[n]);
    }
  }

  lemma HonestPrefix(log: seq<Rec>, cfg: Config, events: seq<Event>)
    requires HonestRun(log, cfg, events) && events != []
    ensures var n := |events| - 1;
      HonestRun(log, cfg, events[..n]) && Honest(log, Run(Init(cfg), events[..n]), events[n])
  {
    var before := events[..|events| - 1];
    assert forall k :: 0 <= k < |before| ==> before[..k] == events[..k];
  }

  lemma StepOnLog(log: seq<Rec>, s: State, e: Event)
    requires Inv(s) && Increasing(log) && OnLog(log, s) && Honest(log, s, e)
    ensures OnLog(log, Step(s, e))
  {
    match e
    case Message(from, body, now, up) => MessageKept(s, from, body, now, up);
    case Read(startRc, feed, last) => IntakeOnLog(log, s, startRc, feed, last);
  }

  /** The reader refines a cursor over the changelog: across any number of ends of stream, pauses
      and requests, the records accepted are exactly those of the log below `srec`. */
  lemma NoGap(log: seq<Rec>, cfg: Config, events: seq<Event>)
    requires cfg.Valid() && Increasing(log) && HonestRun(log, cfg, events)
    ensures var s := Run(Init(cfg), events);
      && Accepted(s) <= log
      && forall k :: 0 <= k < |log| ==> (log[k].index < s.srec <==> k < |Accepted(s)|)
  {
    var s := Run(Init(cfg), events);
    RunInv(cfg, events);
    RunOnLog(log, cfg, events);
    forall k | 0 <= k < |log|
      ensures log[k].index < s.srec <==> k < |Accepted(s)|
    {
      BelowNext(log, s, k);
    }
  }

  // ---------------------------------------------------------------- trimming

  /** The last record of a sequence of batches is the last of its last batch. */
  lemma LastOfFlatten(xs: seq<seq<Rec>>)
    requires xs != [] && xs[|xs| - 1] != []
    ensures Flatten(xs) != [] && Flatten(xs)[|Flatten(xs)| - 1].index == MaxIndex(xs[|xs| - 1])
  {
    var n := |xs| - 1;
    assert xs == xs[..n] + [xs[n]];
    FlattenSnoc(xs[..n], xs[n]);
  }

  lemma {:induction false} EndsIncrease(xs: seq<seq<Rec>>, i: nat, j: nat)
    requires Increasing(Flatten(xs)) && i < j < |xs|
    requires forall k :: 0 <= k < |xs| ==> xs[k] != []
    ensures MaxIndex(xs[i]) < MaxIndex(xs[j])
  {
    var n := |xs| - 1;
    var init := xs[..n];
    assert xs == init + [xs[n]];
    FlattenSnoc(init, xs[n]);
    var whole := Flatten(xs);
    assert forall k :: 0 <= k < |Flatten(init)| ==> Flatten(init)[k] == whole[k];
    if j < n {
      EndsIncrease(init, i, j);
    } else {
      var e := xs[i][|xs[i]| - 1];
      FlattenMember(init, i, e);
      var a :| 0 <= a < |Flatten(init)| && Flatten(init)[a] == e;
      assert whole[a] == e && whole[|whole| - 1] == xs[n][|xs[n]| - 1];
    }
  }

  /** Trimming is in order: over a whole run the arguments of the successful upstream clears
      strictly increase and stay below `srec`, and the last of them separates exactly the records
      trimmed from those still cached. */
  lemma ClearsAreExact(s: State)
    requires Reachable(s)
    ensures |s.cleared| == |s.trimmed|
    ensures forall i, j :: 0 <= i < j < |s.cleared| ==> s.cleared[i] < s.cleared[j]
    ensures forall i :: 0 <= i < |s.cleared| ==> 0 <= s.cleared[i] < s.srec
    ensures s.cleared != [] ==> forall r :: r in Accepted(s) ==>
      (r.index <= s.cleared[|s.cleared| - 1] <==> r in Flatten(s.trimmed))
  {
    ReachableInv(s);
    NoDuplicates(s);
    var front, rest := Flatten(s.trimmed), Flatten(BucketRecs(s.buckets));
    ClearsIncrease(s.trimmed, front, rest);
    forall i | 0 <= i < |s.cleared|
      ensures 0 <= s.cleared[i] < s.srec
    {
      ClearedKnown(s, i);
    }
    if s.cleared != [] {
      LastOfFlatten(s.trimmed);
      forall r | r in Accepted(s)
        ensures r.index <= s.cleared[|s.cleared| - 1] <==> r in front
      {
        MarkSeparates(front, rest, r);
      }
    }
  }

  lemma ClearedKnown(s: State, i: nat)
    requires LogInv(s) && i < |s.trimmed|
    ensures 0 <= s.cleared[i] < s.srec
  {
    var r := s.trimmed[i][|s.trimmed[i]| - 1];
    FlattenMember(Batches(s), i, r);
    BelowSrec(s);
  }

  lemma ClearsIncrease(trimmed: seq<seq<Rec>>, front: seq<Rec>, rest: seq<Rec>)
    requires front == Flatten(trimmed) && Increasing(front + rest)
    requires forall k :: 0 <= k < |trimmed| ==> trimmed[k] != []
    ensures forall i, j :: 0 <= i < j < |trimmed| ==> MaxIndices(trimmed)[i] < MaxIndices(trimmed)[j]
  {
    assert forall k :: 0 <= k < |front| ==> (front + rest)[k] == front[k];
    forall i, j | 0 <= i < j < |trimmed|
      ensures MaxIndices(trimmed)[i] < MaxIndices(trimmed)[j]
    {
      EndsIncrease(trimmed, i, j);
    }
  }

  lemma MarkSeparates(front: seq<Rec>, rest: seq<Rec>, r: Rec)
    requires front != [] && Increasing(front + rest) && r in front + rest
    ensures r.index <= front[|front| - 1].index <==> r in front
  {
    var all := front + rest;
    assert all[|front| - 1] == front[|front| - 1];
    var k :| 0 <= k < |all| && all[k] == r;
    assert forall j :: 0 <= j < |front| ==> all[j] == front[j];
  }

  /** What a cleanup leaves: the tail of the list, with a head that is ready only if the upstream
      refused to clear it; the buckets dropped were ready and the cursor is still on the same one. */
  ghost predicate CleanedUp(a: State, t: State, rc: int) {
    var m := |t.trimmed| - |a.trimmed|;
    && 0 <= m <= a.deliver && t.deliver == a.deliver - m
    && t.buckets == a.buckets[m..] && t.peers == a.peers
    && Batches(t) == Batches(a)
    && (forall i :: 0 <= i < m ==> a.buckets[i].ready)
    && (rc < 0 || rc == 0) && (rc < 0 <==> t.buckets[0].ready)
  }

  lemma CleanupShape(a: State, up: Upstream)
    requires ListInv(a)
    ensures var (t, rc) := Cleanup(a, up); CleanedUp(a, t, rc) && t.outbox == a.outbox
  {
    ReadyBeforeCursor(a);
    CleanupKept(a, up);
    var t, n := Cleanup(a, up).0, ReadyPrefix(a.buckets);
    var m := if up.FailAt? && up.call < n then up.call else n;
    assert t == Trim(a, m) && |BucketRecs(a.buckets[..m])| == m;
    assert t.buckets[0] == a.buckets[m];
  }

  /** Trimming is maximal.  A client's CLEAR makes its bucket ready; then, when it meets no
      upstream error, the head of the list is not ready afterwards and the client is told.  After
      an upstream error the bucket that failed is still at the head, ready, with every later one
      behind it, so that a later CLEAR can finish the job. */
  lemma ClearIsMaximal(s: State, id: Ident, body: Bytes, up: Upstream)
    requires Inv(s) && |body| >= CLEAR_SIZE && Owned(s, id).Some?
    ensures var (t, rc) := HandleClear(s, id, body, up);
      && CleanedUp(Acknowledge(s, id), t, rc)
      && t.outbox == if rc < 0 then s.outbox else s.outbox + [Envelope(id, AckMsg(0))]
  {
    var a := Acknowledge(s, id);
    AcknowledgeFacts(s, id);
    CleanupShape(a, up);
    var (t, rc) := Cleanup(a, up);
    CleanedUpSame(a, t, HandleClear(s, id, body, up).0, rc);
  }

  lemma CleanedUpSame(a: State, t: State, u: State, rc: int)
    requires CleanedUp(a, t, rc)
    requires u.buckets == t.buckets && u.trimmed == t.trimmed && u.deliver == t.deliver && u.peers == t.peers
    ensures CleanedUp(a, u, rc)
  {
    assert Batches(u) == Batches(t);
  }

  // ---------------------------------------------------------------- delivery

  /** Deliveries over a whole run: in the current round they are of strictly increasing,
      consecutive buckets up to the cursor, every delivery of a bucket ever carried the same
      records, and no two clients own the same bucket. */
  lemma OrderedDelivery(s: State)
    requires Reachable(s)
    ensures forall i, j :: s.roundStart <= i < j < |s.deliveries| ==>
      s.deliveries[j].bucket - s.deliveries[i].bucket == j - i
    ensures s.roundStart < |s.deliveries| ==>
      s.deliveries[|s.deliveries| - 1].bucket == |s.trimmed| + s.deliver - 1
    ensures forall i, j :: 0 <= i < j < |s.deliveries| && s.deliveries[i].bucket == s.deliveries[j].bucket ==>
      s.deliveries[i].recs == s.deliveries[j].recs
    ensures forall a, b :: a != b && Owned(s, a).Some? ==> Owned(s, a) != Owned(s, b)
  {
    ReachableInv(s);
    RoundConsecutive(s);
    OwnersDiffer(s);
    assert s.roundStart < |s.deliveries| ==> Numbered(s, |s.deliveries| - 1);
    assert forall i :: 0 <= i < |s.deliveries| ==> Faithful(s, s.deliveries[i]);
  }

  lemma OwnersDiffer(s: State)
    requires OwnerInv(s)
    ensures forall a, b :: a != b && Owned(s, a).Some? ==> Owned(s, a) != Owned(s, b)
  {
  }

  lemma RoundConsecutive(s: State)
    requires RoundInv(s)
    ensures forall i, j :: s.roundStart <= i < j < |s.deliveries| ==>
      s.deliveries[j].bucket - s.deliveries[i].bucket == j - i
  {
    forall i, j | s.roundStart <= i < j < |s.deliveries|
      ensures s.deliveries[j].bucket - s.deliveries[i].bucket == j - i
    {
      assert Numbered(s, i) && Numbered(s, j);
    }
  }

  /** Between `s` and `t`, the bucket at position `at` was given and sent to `id`, all the others having
      been taken back first if the head had expired. */
  ghost predicate Served(s: State, t: State, id: Ident, now: Timespec, at: nat)
    requires at < |s.buckets|
  {
    && t.trimmed == s.trimmed
    && t.deliver == at + 1
    && |t.buckets| == (if at + 1 == |s.buckets| then |s.buckets| + 1 else |s.buckets|)
    && (at + 1 == |s.buckets| ==> t.buckets[at + 1] == EmptyBucket(s.bktIdx))
    && Owned(t, id) == Some(s.buckets[at].index)
    && t.deliveries == s.deliveries + [Delivery(s.buckets[at].index, id, now, s.buckets[at].recs)]
    && t.outbox == s.outbox + [Envelope(id, EnqueueMsg(s.buckets[at].recs))]
    && (forall i :: 0 <= i < |s.buckets| ==>
          && t.buckets[i].recs == s.buckets[i].recs
          && (t.buckets[i].ready <==> s.buckets[i].ready && !Expired(s, now)))
    && (forall other :: other != id ==> Owned(t, other) == if Expired(s, now) then None else Owned(s, other))
    && t.roundStart == if Expired(s, now) && s.deliver > 0 then |s.deliveries| else s.roundStart
  }

  /** A valid DEQUEUE.  If the head expired, exactly the sent and untrimmed buckets become
      non-ready, every client loses what it owned, and service restarts from the head; otherwise
      only the next bucket is served.  The state is left alone exactly when the bucket at the
      cursor holds nothing, which is answered with end of stream. */
  lemma DequeueServes(s: State, id: Ident, body: Bytes, now: Timespec)
    requires Inv(s) && |body| >= HEADER_SIZE && Registered(s, id) && Owned(s, id).None?
    ensures var (t, rc) := HandleDequeue(s, id, body, now);
      var at := if Expired(s, now) then 0 else s.deliver;
      && (s.buckets[at].recs == [] <==> rc == 1)
      && (s.buckets[at].recs != [] <==> rc == 0)
      && (rc == 1 ==> t == s && at == s.deliver)
      && (rc == 0 ==> Served(s, t, id, now, at))
  {
    var r, k := Positioned(s, now), PeerAt(s.peers, id);
    PositionedInv(s, now);
    PositionedShape(s, now);
    if r.buckets[r.deliver].recs != [] {
      DeliverServes(s, r, id, now);
    }
  }

  lemma DeliverServes(s: State, r: State, id: Ident, now: Timespec)
    requires Inv(s) && Inv(r) && Registered(s, id) && Repositioned(s, r, now) && r.buckets[r.deliver].recs != []
    ensures Served(s, Deliver(r, PeerAt(s.peers, id), now), id, now, r.deliver)
  {
    var k := PeerAt(s.peers, id);
    var t := Deliver(r, k, now);
    DeliverShape(r, k, now);
    forall other
      ensures Owned(t, other) ==
        if other == id then Some(s.buckets[r.deliver].index)
        else if Expired(s, now) then None else Owned(s, other)
    {
      OwnedAfter(s, r, t, id, Some(s.buckets[r.deliver].index), other, Expired(s, now));
    }
  }

  /** Who owns what once peer `id` has been given bucket `b`. */
  lemma OwnedAfter(s: State, r: State, t: State, id: Ident, b: Option<nat>, other: Ident, revoked: bool)
    requires Registered(s, id) && |r.peers| == |s.peers|
    requires forall j :: 0 <= j < |r.peers| ==>
      r.peers[j] == if revoked then s.peers[j].(bucket := None) else s.peers[j]
    requires t.peers == SetBucket(r.peers, PeerAt(s.peers, id), b)
    ensures Owned(t, other) == if other == id then b else if revoked then None else Owned(s, other)
  {
    SamePeers(s.peers, t.peers, other);
  }

  /** `r` is `s` once the cursor is where the next bucket is looked for. */
  ghost predicate Repositioned(s: State, r: State, now: Timespec) {
    && r.deliver == (if Expired(s, now) then 0 else s.deliver)
    && |r.buckets| == |s.buckets|
    && (forall i :: 0 <= i < |r.buckets| ==>
          r.buckets[i] == if Expired(s, now) then s.buckets[i].(ready := false) else s.buckets[i])
    && |r.peers| == |s.peers|
    && (forall j :: 0 <= j < |r.peers| ==>
          r.peers[j] == if Expired(s, now) then s.peers[j].(bucket := None) else s.peers[j])
    && r.bktIdx == s.bktIdx && r.trimmed == s.trimmed && r.outbox == s.outbox && r.deliveries == s.deliveries
    && r.roundStart == (if Expired(s, now) && s.deliver > 0 then |s.deliveries| else s.roundStart)
  }

  lemma PositionedShape(s: State, now: Timespec)
    requires Inv(s)
    ensures var r := Positioned(s, now);
      && Repositioned(s, r, now)
      && (Expired(s, now) && s.deliver == 0 ==> r == s)
      && (r.buckets[r.deliver].recs == [] ==> r == s)
  {
    if Expired(s, now) {
      RewindFacts(s);
      if s.deliver == 0 {
        RewindNothing(s);
      }
    }
  }

  lemma DeliverShape(s: State, k: nat, now: Timespec)
    requires k < |s.peers| && Inv(s) && s.buckets[s.deliver].recs != []
    ensures var t := Deliver(s, k, now);
      && t.deliver == s.deliver + 1
      && |t.buckets| == (if s.deliver + 1 == |s.buckets| then |s.buckets| + 1 else |s.buckets|)
      && (s.deliver + 1 == |s.buckets| ==> t.buckets[s.deliver + 1] == EmptyBucket(s.bktIdx))
      && (forall i :: 0 <= i < |s.buckets| ==>
            && t.buckets[i].recs == s.buckets[i].recs && t.buckets[i].ready == s.buckets[i].ready
            && t.buckets[i].index == s.buckets[i].index)
      && t.peers == SetBucket(s.peers, k, Some(s.buckets[s.deliver].index))
  {
  }

  lemma {:induction false} SamePeers(ps: seq<Peer>, qs: seq<Peer>, id: Ident)
    requires |ps| == |qs| && forall k :: 0 <= k < |ps| ==> ps[k].ident == qs[k].ident
    ensures PeerAt(ps, id) == PeerAt(qs, id)
  {
    if ps != [] && ps[0].ident != id {
      SamePeers(ps[1..], qs[1..], id);
    }
  }

  /** A rewind with nothing outstanding changes nothing. */
  lemma RewindNothing(s: State)
    requires ListInv(s) && OwnerInv(s) && s.deliver == 0
    ensures Rewind(s) == s
  {
    RewindFacts(s);
    assert Rewind(s).buckets == s.buckets;
    assert forall k :: 0 <= k < |s.peers| ==> s.peers[k].bucket.None?;
    assert Rewind(s).peers == s.peers;
  }

  /** Deadlines compare whole seconds, yet: while buckets are outstanding, the head was sent in the
      current round, a DEQUEUE can rewind only strictly more than ten seconds after that, and does
      rewind from eleven seconds on. */
  lemma RewindTiming(s: State, now: Timespec)
    requires Reachable(s) && s.deliver > 0
    ensures var sent := |s.deliveries| - s.deliver;
      && s.roundStart <= sent
      && s.deliveries[sent].bucket == s.buckets[0].index
      && (Expired(s, now) ==> Nanos(now) - Nanos(s.deliveries[sent].at) > 10 * NSEC_PER_SEC)
      && (Nanos(now) - Nanos(s.deliveries[sent].at) >= 11 * NSEC_PER_SEC ==> Expired(s, now))
  {
    ReachableInv(s);
    assert Numbered(s, |s.deliveries| - s.deliver) && Stamped(s, 0);
  }

  // ---------------------------------------------------------------- counters

  /** Conservation and memory bound. */
  lemma Conservation(s: State)
    requires Reachable(s)
    ensures s.recCnt == |Flatten(BucketRecs(s.buckets))| <= s.cfg.batch * s.cfg.maxBuckets
    ensures s.recRead == s.recCnt + |Flatten(s.trimmed)|
    ensures |s.buckets| <= s.recCnt + 1
    ensures forall i :: 0 <= i < |s.buckets| ==> |s.buckets[i].recs| <= s.cfg.batch
  {
    var n := |s.buckets| - 1;
    ReachableInv(s);
    FlattenConcat(s.trimmed, BucketRecs(s.buckets));
    BucketRecsSplit(s.buckets, n);
    FlattenConcat(BucketRecs(s.buckets[..n]), BucketRecs(s.buckets[n..]));
    FlattenAtLeast(BucketRecs(s.buckets[..n]));
  }

  /** One intake stores at most one batch. */
  lemma IntakeBound(s: State, startRc: int, feed: seq<Rec>, last: EndCode)
    requires s.cfg.Valid()
    ensures s.recRead <= Intake(s, startRc, feed, last).0.recRead <= s.recRead + s.cfg.batch
  {
    if !Full(s) && !(s.session.None? && startRc != 0) {
      PullBound(s, if s.session.Some? then s.session.value.pending else feed, 0);
    }
  }

  lemma {:induction false} PullBound(s: State, feed: seq<Rec>, stored: nat)
    requires stored < s.cfg.batch
    ensures s.recRead <= Pull(s, feed, stored).0.recRead <= s.recRead + s.cfg.batch - stored
    decreases |feed|
  {
    if feed == [] {
    } else if feed[0].index < s.srec {
      PullBound(s, feed[1..], stored);
    } else if stored + 1 < s.cfg.batch && !Full(Store(s, feed[0])) {
      PullBound(Store(s, feed[0]), feed[1..], stored + 1);
    }
  }

  /** The records of a session that a reader expecting `srec` accepts. */
  function Chosen(feed: seq<Rec>, srec: nat): seq<Rec>
    decreases |feed|
  {
    if feed == [] then []
    else if feed[0].index < srec then Chosen(feed[1..], srec)
    else [feed[0]] + Chosen(feed[1..], feed[0].index + 1)
  }

  lemma {:induction false} PullChoosesAll(s: State, feed: seq<Rec>, stored: nat)
    ensures var (t, rest, ended) := Pull(s, feed, stored);
      && Accepted(t) + Chosen(rest, t.srec) == Accepted(s) + Chosen(feed, s.srec)
      && (!ended ==> t.recRead + stored >= s.recRead + s.cfg.batch || t.recCnt >= s.cfg.batch * s.cfg.maxBuckets)
    decreases |feed|
  {
    if feed == [] {
    } else if feed[0].index < s.srec {
      PullChoosesAll(s, feed[1..], stored);
    } else {
      var t := Store(s, feed[0]);
      StoreFacts(s, feed[0]);
      assert Accepted(t) + Chosen(feed[1..], t.srec) == Accepted(s) + Chosen(feed, s.srec);
      if stored + 1 < s.cfg.batch && !Full(t) {
        PullChoosesAll(t, feed[1..], stored + 1);
      }
    }
  }

  /** What an intake reads from: the open session, or the one it opens. */
  function Source(s: State, startRc: int, feed: seq<Rec>): seq<Rec> {
    if s.session.Some? then s.session.value.pending
    else if s.recCnt >= s.cfg.batch * s.cfg.maxBuckets || startRc != 0 then [] else feed
  }

  /** However a session is cut into intakes, nothing of it is lost or read twice: what was accepted,
      followed by what the rest of the session still has to offer, does not change.  An intake
      stops short only for a complete batch or a full cache, and after an end of stream the
      session is closed, so that the next intake opens another one. */
  lemma IntakeLosesNothing(s: State, startRc: int, feed: seq<Rec>, last: EndCode)
    ensures var (t, rc) := Intake(s, startRc, feed, last);
      var rest := if t.session.Some? then t.session.value.pending else [];
      && Accepted(t) + Chosen(rest, t.srec) == Accepted(s) + Chosen(Source(s, startRc, feed), s.srec)
      && (rest != [] ==> t.recRead >= s.recRead + s.cfg.batch || t.recCnt >= s.cfg.batch * s.cfg.maxBuckets)
      && (s.recCnt < s.cfg.batch * s.cfg.maxBuckets && (s.session.Some? || startRc == 0) ==>
            (rc == 1 || rc == -EAGAIN || rc == -EPROTO <==> t.session.None?))
  {
    var source := Source(s, startRc, feed);
    var t := Intake(s, startRc, feed, last).0;
    if !Full(s) && (s.session.Some? || startRc == 0) {
      PullChoosesAll(s, source, 0);
      PullEnds(s, source, 0);
      assert Batches(t) == Batches(Pull(s, source, 0).0);
    }
  }

  // ---------------------------------------------------------------- replies and clients

  /** A reply is an ACK or an ENQUEUE. */
  predicate ReplyMessage(body: Bytes) {
    |body| >= HEADER_SIZE && (OpType(body) == OP_ENQUEUE || OpType(body) == OP_ACK)
  }

  /** Every message the reader is handed, well formed or not, is answered exactly once, and only
      to its sender. */
  lemma OneReply(s: State, id: Ident, body: Bytes, now: Timespec, up: Upstream)
    ensures exists reply ::
      && ReplyMessage(reply)
      && Dispatch(s, id, body, now, up).outbox == s.outbox + [Envelope(id, reply)]
  {
    var (t, rc) := Handle(s, id, body, now, up);
    if rc < 0 || rc == 1 {
      HandleSilent(s, id, body, now, up);
      ReplyOps(rc, []);
      assert ReplyMessage(AckMsg(rc));
    } else {
      var b := HandleAnswers(s, id, body, now, up);
      assert ReplyMessage(b);
    }
  }

  /** A handler that fails, or finds no bucket, has sent nothing. */
  lemma HandleSilent(s: State, id: Ident, body: Bytes, now: Timespec, up: Upstream)
    ensures var (t, rc) := Handle(s, id, body, now, up);
      rc < 0 || rc == 1 ==> t.outbox == s.outbox
  {
  }

  /** A handler that succeeds has answered. */
  lemma HandleAnswers(s: State, id: Ident, body: Bytes, now: Timespec, up: Upstream) returns (reply: Bytes)
    requires Handle(s, id, body, now, up).1 != 1 && Handle(s, id, body, now, up).1 >= 0
    ensures ReplyMessage(reply) && Handle(s, id, body, now, up).0.outbox == s.outbox + [Envelope(id, reply)]
  {
    if OpType(body) == OP_DEQUEUE {
      var r := Positioned(s, now);
      PositionedPeers(s, now);
      reply := EnqueueMsg(r.buckets[r.deliver].recs);
      ReplyOps(0, r.buckets[r.deliver].recs);
    } else {
      reply := AckMsg(0);
      ReplyOps(0, []);
    }
  }

  predicate IsStart(e: Event, id: Ident) {
    e.Message? && e.from == id && |e.body| >= START_SIZE && OpType(e.body) == OP_START
  }

  predicate IsFini(e: Event, id: Ident) {
    e.Message? && e.from == id && |e.body| >= HEADER_SIZE && OpType(e.body) == OP_FINI
  }

  /** `id` has sent START and no FINI since. */
  predicate Live(events: seq<Event>, id: Ident)
    decreases |events|
  {
    if events == [] then false
    else
      var n := |events| - 1;
      IsStart(events[n], id) || (!IsFini(events[n], id) && Live(events[..n], id))
  }

  lemma StepRegisters(s: State, e: Event, id: Ident)
    requires OwnerInv(s)
    ensures Registered(Step(s, e), id) <==>
      IsStart(e, id) || (!IsFini(e, id) && Registered(s, id))
  {
    match e
    case Read(startRc, feed, last) =>
      PullPeers(s, if s.session.Some? then s.session.value.pending else feed, 0);
    case Message(from, body, now, up) =>
      var t := Handle(s, from, body, now, up).0;
      if |body| >= HEADER_SIZE && OpType(body) == OP_START {
        StartRegisters(s, from, body, id);
      } else if |body| >= HEADER_SIZE && OpType(body) == OP_FINI {
        FiniRegisters(s, from, body, id);
      } else {
        HandleSamePeers(s, from, body, now, up);
        SamePeers(s.peers, t.peers, id);
      }
  }

  /** Neither DEQUEUE nor CLEAR nor an unexpected message changes who is registered. */
  lemma HandleSamePeers(s: State, from: Ident, body: Bytes, now: Timespec, up: Upstream)
    requires |body| >= HEADER_SIZE ==> OpType(body) != OP_START && OpType(body) != OP_FINI
    ensures var t := Handle(s, from, body, now, up).0;
      |t.peers| == |s.peers| && forall k :: 0 <= k < |s.peers| ==> t.peers[k].ident == s.peers[k].ident
  {
    if |body| >= HEADER_SIZE && OpType(body) == OP_DEQUEUE {
      PositionedPeers(s, now);
    }
  }

  lemma RegisteredBy(s: State, k: nat, id: Ident)
    requires k < |s.peers| && s.peers[k].ident == id
    ensures Registered(s, id)
  {
  }

  lemma StartRegisters(s: State, from: Ident, body: Bytes, id: Ident)
    ensures Registered(HandleStart(s, from, body).0, id) <==>
      (id == from && |body| >= START_SIZE) || Registered(s, id)
  {
    var t := HandleStart(s, from, body).0;
    if Registered(s, id) {
      RegisteredBy(t, PeerAt(s.peers, id), id);
    } else if id == from && |body| >= START_SIZE {
      RegisteredBy(t, |s.peers|, id);
    }
  }

  lemma FiniRegisters(s: State, from: Ident, body: Bytes, id: Ident)
    requires OwnerInv(s)
    ensures Registered(HandleFini(s, from, body).0, id) <==>
      (id != from || |body| < HEADER_SIZE) && Registered(s, id)
  {
    if |body| >= HEADER_SIZE && Registered(s, from) {
      DroppedRegisters(s, HandleFini(s, from, body).0, PeerAt(s.peers, from), id);
    }
  }

  lemma DroppedRegisters(s: State, t: State, k: nat, id: Ident)
    requires OwnerInv(s) && k < |s.peers| && t.peers == s.peers[..k] + s.peers[k + 1..]
    ensures Registered(t, id) <==> id != s.peers[k].ident && Registered(s, id)
  {
    var i, j := PeerAt(s.peers, id), PeerAt(t.peers, id);
    if id != s.peers[k].ident && Registered(s, id) {
      RegisteredBy(t, if i < k then i else i - 1, id);
    }
    if Registered(t, id) {
      RegisteredBy(s, if j < k then j else j + 1, id);
    }
  }

  lemma {:induction false} PullPeers(s: State, feed: seq<Rec>, stored: nat)
    ensures Pull(s, feed, stored).0.peers == s.peers
    decreases |feed|
  {
    if feed == [] {
    } else if feed[0].index < s.srec {
      PullPeers(s, feed[1..], stored);
    } else if stored + 1 < s.cfg.batch && !Full(Store(s, feed[0])) {
      PullPeers(Store(s, feed[0]), feed[1..], stored + 1);
    }
  }

  /** The peer list refines a set of live identities: over any run, lookup finds a client exactly
      if it has sent START and no FINI since. */
  lemma {:induction false} LookupIsLive(cfg: Config, events: seq<Event>, id: Ident)
    requires cfg.Valid()
    ensures Registered(Run(Init(cfg), events), id) <==> Live(events, id)
    decreases |events|
  {
    if events != [] {
      var n := |events| - 1;
      LookupIsLive(cfg, events[..n], id);
      RunInv(cfg, events[..n]);
      StepRegisters(Run(Init(cfg), events[..n]), events[n], id);
    }
  }

  /** START and FINI concern their sender only, and a START from a present peer changes nothing
      but the reply it gets. */
  lemma OthersUndisturbed(s: State, id: Ident, body: Bytes, other: Ident)
    requires OwnerInv(s) && other != id
    ensures Owned(HandleStart(s, id, body).0, other) == Owned(s, other)
    ensures Owned(HandleFini(s, id, body).0, other) == Owned(s, other)
    ensures Registered(s, id) ==> HandleStart(s, id, body).0 == s
  {
    var t, u, k := HandleFini(s, id, body).0, HandleStart(s, id, body).0, PeerAt(s.peers, id);
    OwnedIs(s, other);
    OwnedIs(t, other);
    StartRegisters(s, id, body, other);
    FiniRegisters(s, id, body, other);
    if Registered(s, other) {
      var j := PeerAt(s.peers, other);
      assert u.peers[j] == s.peers[j];
      OwnedAt(u, j, other);
      if |body| >= HEADER_SIZE && Registered(s, id) {
        assert s.peers[j] == t.peers[if j < k then j else j - 1];
      }
    }
  }

  lemma OwnedAt(s: State, j: nat, id: Ident)
    requires j < |s.peers| && s.peers[j].ident == id
    requires forall i :: 0 <= i < j ==> s.peers[i].ident != id
    ensures PeerAt(s.peers, id) == j
  {
  }

  /** With distinct identities, whichever entry carries `id` is the one lookup finds. */
  lemma OwnedIs(s: State, id: Ident)
    ensures forall k :: 0 <= k < |s.peers| && s.peers[k].ident == id ==> Registered(s, id)
    ensures (forall j, k :: 0 <= j < k < |s.peers| ==> s.peers[j].ident != s.peers[k].ident) ==>
      forall k :: 0 <= k < |s.peers| && s.peers[k].ident == id ==> Owned(s, id) == s.peers[k].bucket
  {
  }

  // ---------------------------------------------------------------- the main loop

  lemma {:induction false} ServeAllReachable(s: State, inbox: seq<Request>)
    requires Reachable(s)
    ensures Reachable(ServeAll(s, inbox))
    decreases |inbox|
  {
    if inbox != [] {
      var n := |inbox| - 1;
      ServeAllReachable(s, inbox[..n]);
      ReachableStep(ServeAll(s, inbox[..n]), Message(inbox[n].from, inbox[n].body, inbox[n].now, inbox[n].up));
    }
  }

  /** The main loop is a run: whatever it meets, it stays among the reachable states, for which the
      results above are stated. */
  lemma {:induction false} MainLoopReachable(s: State, passes: seq<Pass>)
    requires Reachable(s)
    ensures Reachable(MainLoop(s, passes).0)
    decreases |passes|
  {
    if passes != [] {
      var n := |passes| - 1;
      MainLoopReachable(s, passes[..n]);
      var (t, rc) := MainLoop(s, passes[..n]);
      if rc >= 0 {
        var p := passes[n];
        ReachableStep(t, Read(p.startRc, p.feed, p.last));
        ServeAllReachable(Intake(t, p.startRc, p.feed, p.last).0, p.inbox);
      }
    }
  }

  lemma ServeAllNext(s: State, inbox: seq<Request>, i: nat)
    requires i < |inbox|
    ensures ServeAll(s, inbox[..i + 1])
         == Dispatch(ServeAll(s, inbox[..i]), inbox[i].from, inbox[i].body, inbox[i].now, inbox[i].up)
  {
    assert inbox[..i + 1][..i] == inbox[..i];
  }

  lemma MainLoopNext(s: State, passes: seq<Pass>, i: nat)
    requires i < |passes| && MainLoop(s, passes[..i]).1 >= 0
    ensures MainLoop(s, passes[..i + 1]) == OnePass(MainLoop(s, passes[..i]).0, passes[i])
  {
    assert passes[..i + 1][..i] == passes[..i];
  }

  /** A loop that has ended does nothing more. */
  lemma {:induction false} MainLoopEnds(s: State, passes: seq<Pass>, i: nat)
    requires i <= |passes| && MainLoop(s, passes[..i]).1 < 0
    ensures MainLoop(s, passes) == MainLoop(s, passes[..i])
    decreases |passes|
  {
    if i < |passes| {
      var n := |passes| - 1;
      assert passes[..n][..i] == passes[..i];
      MainLoopEnds(s, passes[..n], i);
    } else {
      assert passes[..i] == passes;
    }
  }
}

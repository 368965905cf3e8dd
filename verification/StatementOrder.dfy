/** Four places where the statements of the reader, taken in their literal order, do not keep what its
    design promises.  Each literal form is given next to the reading module `ReaderModel` adopts,
    with the exact condition under which the two agree on the property at stake.  Module `Scenarios`
    reaches the failing cases from the initial state. */
module StatementOrder {
  import opened Records
  import opened Wire
  import opened ReaderModel
  import opened ReaderInvariant
  import opened ReaderRuns
  import C = ClientModel

  // ---------------------------------------------------------------- the cleanup cursor

  /** Literally, the cleanup cursor is set to the bucket about to be freed, and the loop goes on
      from that bucket's link, which its removal has just reset: it stops there.  Returns the
      state, the index of the bucket the cursor designates, and the code. */
  function LiteralCleanup(s: State, up: Upstream): (State, nat, int) {
    var head := s.buckets[0];
    if !head.ready || |s.buckets| == 1 then (s, head.index, 0)
    else if up.FailAt? && up.call == 0 then (s, head.index, up.rc)
    else (Trim(s, 1), head.index, 0)
  }

  /** The cleanup cursor then designates a bucket of the list exactly when nothing was trimmed: when
      the head is not ready, or the upstream refuses to clear it. */
  lemma LiteralCleanupCursor(s: State, up: Upstream)
    requires Inv(s)
    ensures var (t, cursor, rc) := LiteralCleanup(s, up);
      HasIndex(t.buckets, cursor) <==> !s.buckets[0].ready || (up.FailAt? && up.call == 0)
  {
    var (t, cursor, rc) := LiteralCleanup(s, up);
    ReadyBeforeCursor(s);
    if t == s {
      assert s.buckets[0].index == cursor;
    } else {
      assert forall i :: 0 <= i < |t.buckets| ==> t.buckets[i] == s.buckets[i + 1];
    }
  }

  /** Nor is the trimming maximal.  With a willing upstream a ready bucket stays at the head exactly
      when the first two are ready, and only then does the outcome differ from the one designed. */
  lemma LiteralCleanupStopsShort(s: State)
    requires Inv(s)
    ensures var t := LiteralCleanup(s, AllSucceed).0;
      && (t.buckets[0].ready <==> ReadyPrefix(s.buckets) >= 2)
      && (t == Cleanup(s, AllSucceed).0 <==> ReadyPrefix(s.buckets) < 2)
  {
    var n, t := ReadyPrefix(s.buckets), LiteralCleanup(s, AllSucceed).0;
    ReadyBeforeCursor(s);
    if s.buckets[0].ready {
      assert s.deliver > 0 && n == 1 + ReadyPrefix(s.buckets[1..]);
      assert t.buckets == s.buckets[1..];
      assert s.buckets[1].ready ==> s.deliver > 1;
      assert n >= 2 <==> s.buckets[1].ready;
      assert |Trim(s, n).buckets| == |s.buckets| - n;
    } else {
      TrimNothing(s);
    }
  }

  lemma TrimNothing(s: State)
    ensures Trim(s, 0) == s
  {
    assert BucketRecs(s.buckets[..0]) == [];
  }

  // ---------------------------------------------------------------- revocation

  /** Literally, a rewind leaves the clients alone. */
  function LiteralRewind(s: State): State {
    Rewind(s).(peers := s.peers)
  }

  ghost predicate Exclusive(s: State) {
    forall j, k :: 0 <= j < k < |s.peers| && s.peers[j].bucket.Some? ==> s.peers[j].bucket != s.peers[k].bucket
  }

  /** What may happen in the round that follows: a client joins, or the client at some position asks
      for a bucket. */
  datatype Move = Join(id: Ident) | Ask(k: nat, at: Timespec)

  function Moved(s: State, m: Move): State {
    match m
    case Join(id) => s.(peers := s.peers + [Peer(id, 0, None)])
    case Ask(k, at) =>
      if k < |s.peers| && s.peers[k].bucket.None? && s.buckets[s.deliver].recs != [] then Deliver(s, k, at) else s
  }

  function Moves(s: State, ms: seq<Move>): State
    decreases |ms|
  {
    if ms == [] then s else Moved(Moves(s, ms[..|ms| - 1]), ms[|ms| - 1])
  }

  /** What the client at position `j` owned before. */
  function Before(s: State, j: nat): Option<nat> {
    if j < |s.peers| then s.peers[j].bucket else None
  }

  /** `t` is in the round that follows a rewind of `s` without revocation: owners are still owners,
      and the buckets sent again belong, one each, to clients that owned nothing. */
  ghost predicate Resent(s: State, t: State) {
    && t.trimmed == s.trimmed && |t.peers| >= |s.peers|
    && t.bktIdx == |s.trimmed| + |t.buckets|
    && (forall i :: 0 <= i < |t.buckets| ==> t.buckets[i].index == |s.trimmed| + i)
    && (forall j :: 0 <= j < |t.peers| ==> OwnerBeforeOrNow(s, t, j))
    && (forall i, j :: 0 <= i < j < |t.peers| && Before(s, i).None? && Before(s, j).None? ==>
          t.peers[i].bucket.Some? ==> t.peers[i].bucket != t.peers[j].bucket)
    && (forall p :: 0 <= p < t.deliver ==> SentAgain(s, t, p))
  }

  ghost predicate OwnerBeforeOrNow(s: State, t: State, j: nat)
    requires j < |t.peers|
  {
    && (Before(s, j).Some? ==> t.peers[j].bucket == Before(s, j))
    && (Before(s, j).None? && t.peers[j].bucket.Some? ==>
          |s.trimmed| <= t.peers[j].bucket.value < |s.trimmed| + t.deliver)
  }

  ghost predicate SentAgain(s: State, t: State, p: nat) {
    exists j :: 0 <= j < |t.peers| && Before(s, j).None? && t.peers[j].bucket == Some(|s.trimmed| + p)
  }

  lemma RewindResent(s: State)
    requires Inv(s)
    ensures Resent(s, LiteralRewind(s))
  {
    RewindFacts(s);
  }

  lemma JoinResent(s: State, t: State, id: Ident)
    requires Resent(s, t)
    ensures Resent(s, Moved(t, Join(id)))
  {
    var u := Moved(t, Join(id));
    forall p | 0 <= p < u.deliver
      ensures SentAgain(s, u, p)
    {
      assert SentAgain(s, t, p);
      var j :| 0 <= j < |t.peers| && Before(s, j).None? && t.peers[j].bucket == Some(|s.trimmed| + p);
      assert u.peers[j] == t.peers[j];
    }
    forall j | 0 <= j < |u.peers|
      ensures OwnerBeforeOrNow(s, u, j)
    {
      assert j < |t.peers| ==> OwnerBeforeOrNow(s, t, j);
    }
  }

  lemma DeliverResent(s: State, t: State, k: nat, at: Timespec)
    requires Resent(s, t) && k < |t.peers| && t.peers[k].bucket.None?
    ensures Resent(s, Deliver(t, k, at))
  {
    var u := Deliver(t, k, at);
    assert OwnerBeforeOrNow(s, t, k);
    forall p | 0 <= p < u.deliver
      ensures SentAgain(s, u, p)
    {
      if p < t.deliver {
        assert SentAgain(s, t, p);
        var j :| 0 <= j < |t.peers| && Before(s, j).None? && t.peers[j].bucket == Some(|s.trimmed| + p);
        assert u.peers[j] == t.peers[j];
      } else {
        assert u.peers[k].bucket == Some(|s.trimmed| + p);
      }
    }
    forall j | 0 <= j < |u.peers|
      ensures OwnerBeforeOrNow(s, u, j)
    {
      assert OwnerBeforeOrNow(s, t, j);
    }
    DeliverApart(s, t, u, k);
  }

  /** Who owned nothing before still owns buckets apart. */
  lemma DeliverApart(s: State, t: State, u: State, k: nat)
    requires Resent(s, t) && k < |t.peers|
    requires u.peers == SetBucket(t.peers, k, Some(|s.trimmed| + t.deliver))
    ensures forall i, j :: 0 <= i < j < |u.peers| && Before(s, i).None? && Before(s, j).None? ==>
      u.peers[i].bucket.Some? ==> u.peers[i].bucket != u.peers[j].bucket
  {
    forall i, j | 0 <= i < j < |u.peers| && Before(s, i).None? && Before(s, j).None? && u.peers[i].bucket.Some?
      ensures u.peers[i].bucket != u.peers[j].bucket
    {
      assert OwnerBeforeOrNow(s, t, i) && OwnerBeforeOrNow(s, t, j);
    }
  }

  lemma {:induction false} MovesResent(s: State, ms: seq<Move>)
    requires Inv(s)
    ensures Resent(s, Moves(LiteralRewind(s), ms))
    decreases |ms|
  {
    if ms == [] {
      RewindResent(s);
    } else {
      var n := |ms| - 1;
      MovesResent(s, ms[..n]);
      var t := Moves(LiteralRewind(s), ms[..n]);
      match ms[n]
      case Join(id) => JoinResent(s, t, id);
      case Ask(k, at) =>
        if k < |t.peers| && t.peers[k].bucket.None? && t.buckets[t.deliver].recs != [] {
          DeliverResent(s, t, k, at);
        }
    }
  }

  /** Without revocation: whatever clients join and ask in the round that follows, no two own the same
      bucket exactly as long as the cursor has passed no bucket that somebody owned. */
  lemma LiteralRewindShares(s: State, ms: seq<Move>)
    requires Inv(s)
    ensures var t := Moves(LiteralRewind(s), ms);
      Exclusive(t) <==>
        forall j :: 0 <= j < |s.peers| && s.peers[j].bucket.Some? ==>
          s.peers[j].bucket.value >= |s.trimmed| + t.deliver
  {
    var t := Moves(LiteralRewind(s), ms);
    MovesResent(s, ms);
    forall j | 0 <= j < |s.peers| && s.peers[j].bucket.Some? && s.peers[j].bucket.value < |s.trimmed| + t.deliver
      ensures !Exclusive(t)
    {
      NowShared(s, t, j);
    }
    if forall j :: 0 <= j < |s.peers| && s.peers[j].bucket.Some? ==> s.peers[j].bucket.value >= |s.trimmed| + t.deliver {
      StillExclusive(s, t);
    }
  }

  lemma NowShared(s: State, t: State, j: nat)
    requires OwnerInv(s) && Resent(s, t) && j < |s.peers|
    requires s.peers[j].bucket.Some? && s.peers[j].bucket.value < |s.trimmed| + t.deliver
    ensures !Exclusive(t)
  {
    assert Outstanding(s, s.peers[j].bucket.value);
    assert OwnerBeforeOrNow(s, t, j);
    assert SentAgain(s, t, s.peers[j].bucket.value - |s.trimmed|);
    var i :| 0 <= i < |t.peers| && Before(s, i).None? && t.peers[i].bucket == s.peers[j].bucket;
    assert i < j || j < i;
  }

  lemma StillExclusive(s: State, t: State)
    requires OwnerInv(s) && Resent(s, t)
    requires forall j :: 0 <= j < |s.peers| && s.peers[j].bucket.Some? ==>
      s.peers[j].bucket.value >= |s.trimmed| + t.deliver
    ensures Exclusive(t)
  {
    forall i, j | 0 <= i < j < |t.peers| && t.peers[i].bucket.Some?
      ensures t.peers[i].bucket != t.peers[j].bucket
    {
      assert OwnerBeforeOrNow(s, t, i) && OwnerBeforeOrNow(s, t, j);
    }
  }

  /** The round goes over the same records, in the same buckets. */
  lemma {:induction false} MovesRecs(s: State, ms: seq<Move>)
    requires Inv(s)
    ensures var t := Moves(LiteralRewind(s), ms);
      && |t.buckets| >= |s.buckets| && forall i :: 0 <= i < |s.buckets| ==> t.buckets[i].recs == s.buckets[i].recs
    decreases |ms|
  {
    if ms == [] {
      RewindFacts(s);
    } else {
      MovesRecs(s, ms[..|ms| - 1]);
    }
  }

  /** Enough newcomers can have any number of the buckets sent again. */
  lemma {:induction false} SendAgain(s: State, m: nat) returns (ms: seq<Move>)
    requires Inv(s) && m <= s.deliver
    ensures Moves(LiteralRewind(s), ms).deliver == m
  {
    if m == 0 {
      ms := [];
    } else {
      var before := SendAgain(s, m - 1);
      var t := Moves(LiteralRewind(s), before);
      var join, ask := Join([]), Ask(|t.peers|, NEVER);
      ms := before + [join] + [ask];
      MovesRecs(s, before);
      assert (before + [join])[..|before|] == before && ms[..|before| + 1] == before + [join];
      assert Moves(LiteralRewind(s), before + [join]) == Moved(t, join);
      assert Moves(LiteralRewind(s), ms) == Moved(Moved(t, join), ask);
    }
  }

  /** The whole round is safe exactly when no client owned anything at the rewind. */
  lemma LiteralRewindSafe(s: State)
    requires Inv(s)
    ensures (forall ms :: Exclusive(Moves(LiteralRewind(s), ms))) <==>
      forall j :: 0 <= j < |s.peers| ==> s.peers[j].bucket.None?
  {
    if forall j :: 0 <= j < |s.peers| ==> s.peers[j].bucket.None? {
      forall ms: seq<Move>
        ensures Exclusive(Moves(LiteralRewind(s), ms))
      {
        LiteralRewindShares(s, ms);
      }
    } else {
      var j :| 0 <= j < |s.peers| && s.peers[j].bucket.Some?;
      var x := s.peers[j].bucket.value;
      assert Outstanding(s, x);
      var ms := SendAgain(s, x - |s.trimmed| + 1);
      LiteralRewindShares(s, ms);
      assert !Exclusive(Moves(LiteralRewind(s), ms));
    }
  }

  // ---------------------------------------------------------------- the delivery cursor

  /** The reader whose cursor moves, literally, to the link of the bucket served before another bucket
      is opened behind it: `lost` when that link was null. */
  datatype Literal = Literal(s: State, lost: bool)

  function LiteralServe(r: State, k: nat, now: Timespec): (Literal, int)
    requires k < |r.peers|
  {
    if r.buckets[r.deliver].recs == [] then (Literal(r, false), 1)
    else (Literal(Deliver(r, k, now), r.deliver + 1 == |r.buckets|), 0)
  }

  /** A DEQUEUE: an expired head restores the cursor; otherwise a lost cursor means that no bucket is
      available. */
  function LiteralDequeue(l: Literal, id: Ident, body: Bytes, now: Timespec): (Literal, int) {
    var s := l.s;
    if |body| < HEADER_SIZE then (l, -EPROTO)
    else if !Registered(s, id) || Owned(s, id).Some? then (l, -EPROTO)
    else if Expired(s, now) then LiteralServe(Rewind(s), PeerAt(s.peers, id), now)
    else if l.lost then (l, 1)
    else LiteralServe(s, PeerAt(s.peers, id), now)
  }

  predicate IsDequeue(e: Event) {
    e.Message? && |e.body| >= HEADER_SIZE && OpType(e.body) == OP_DEQUEUE
  }

  function LiteralStep(l: Literal, e: Event): Literal {
    if IsDequeue(e) then
      var (t, rc) := LiteralDequeue(l, e.from, e.body, e.now);
      if rc < 0 || rc == 1 then t.(s := Send(t.s, e.from, AckMsg(rc))) else t
    else l.(s := Step(l.s, e))
  }

  function LiteralRun(l: Literal, events: seq<Event>): Literal
    decreases |events|
  {
    if events == [] then l else LiteralStep(LiteralRun(l, events[..|events| - 1]), events[|events| - 1])
  }

  /** A bucket waits, and the request is one that should be given it. */
  predicate Starved(l: Literal, e: Event) {
    && IsDequeue(e) && Registered(l.s, e.from) && Owned(l.s, e.from).None?
    && l.lost && !Expired(l.s, e.now) && l.s.buckets[l.s.deliver].recs != []
  }

  /** One step differs from the reader designed exactly when the cursor is lost, the head has not
      expired, and a client that holds nothing asks for the bucket that waits. */
  lemma LiteralStepAgrees(l: Literal, e: Event)
    requires Inv(l.s)
    ensures LiteralStep(l, e).s == Step(l.s, e) <==> !Starved(l, e)
  {
    if IsDequeue(e) && Registered(l.s, e.from) && Owned(l.s, e.from).None? {
      DequeueServes(l.s, e.from, e.body, e.now);
      if Starved(l, e) {
        assert LiteralStep(l, e).s.deliveries == l.s.deliveries;
      }
    }
  }

  lemma LiteralStepInv(l: Literal, e: Event)
    requires Inv(l.s)
    ensures Inv(LiteralStep(l, e).s)
  {
    LiteralStepAgrees(l, e);
    if Starved(l, e) {
      SendInv(l.s, e.from, AckMsg(1));
    } else {
      StepInv(l.s, e);
    }
  }

  lemma {:induction false} PullDeliveries(s: State, feed: seq<Rec>, stored: nat)
    ensures Pull(s, feed, stored).0.deliveries == s.deliveries
    decreases |feed|
  {
    if feed == [] {
    } else if feed[0].index < s.srec {
      PullDeliveries(s, feed[1..], stored);
    } else if stored + 1 < s.cfg.batch && !Full(Store(s, feed[0])) {
      PullDeliveries(Store(s, feed[0]), feed[1..], stored + 1);
    }
  }

  /** A step that is not a DEQUEUE delivers nothing. */
  lemma OthersDeliverNothing(s: State, e: Event)
    requires !IsDequeue(e)
    ensures Step(s, e).deliveries == s.deliveries
  {
    if e.Read? {
      PullDeliveries(s, if s.session.Some? then s.session.value.pending else e.feed, 0);
    }
  }

  /** The cursor is lost exactly by serving the open bucket. */
  lemma LiteralCursorLost(l: Literal, e: Event)
    requires Inv(l.s) && !l.lost
    ensures LiteralStep(l, e).lost <==>
      && |Step(l.s, e).deliveries| > |l.s.deliveries|
      && Step(l.s, e).deliveries[|l.s.deliveries|].bucket == l.s.buckets[|l.s.buckets| - 1].index
  {
    if !IsDequeue(e) {
      OthersDeliverNothing(l.s, e);
    } else if Registered(l.s, e.from) && Owned(l.s, e.from).None? {
      LiteralDequeueLoses(l, e.from, e.body, e.now);
      DequeueServes(l.s, e.from, e.body, e.now);
      LastIndex(l.s);
    }
  }

  lemma LastIndex(s: State)
    requires ListInv(s)
    ensures forall i :: 0 <= i < |s.buckets| ==>
      (s.buckets[i].index == s.buckets[|s.buckets| - 1].index <==> i + 1 == |s.buckets|)
  {
  }

  lemma LiteralDequeueLoses(l: Literal, id: Ident, body: Bytes, now: Timespec)
    requires Inv(l.s) && !l.lost && |body| >= HEADER_SIZE && Registered(l.s, id) && Owned(l.s, id).None?
    ensures LiteralDequeue(l, id, body, now).1 == HandleDequeue(l.s, id, body, now).1
    ensures LiteralDequeue(l, id, body, now).0.lost <==>
      && HandleDequeue(l.s, id, body, now).1 == 0
      && (if Expired(l.s, now) then 0 else l.s.deliver) + 1 == |l.s.buckets|
  {
    PositionedShape(l.s, now);
  }

  /** From then on nothing is served, whatever is read, acknowledged or asked and whoever joins or
      leaves, until a DEQUEUE finds the head expired. */
  lemma {:induction false} LiteralCursorStaysLost(l: Literal, events: seq<Event>)
    requires Inv(l.s) && l.lost
    requires forall n :: 0 <= n < |events| && IsDequeue(events[n]) ==>
      !Expired(LiteralRun(l, events[..n]).s, events[n].now)
    ensures var t := LiteralRun(l, events); Inv(t.s) && t.lost && t.s.deliveries == l.s.deliveries
    decreases |events|
  {
    if events != [] {
      var n := |events| - 1;
      var before := events[..n];
      assert forall k :: 0 <= k < n ==> before[..k] == events[..k] && before[k] == events[k];
      LiteralCursorStaysLost(l, before);
      LiteralStepStaysLost(LiteralRun(l, before), events[n]);
      LiteralStepInv(LiteralRun(l, before), events[n]);
    }
  }

  lemma LiteralStepStaysLost(l: Literal, e: Event)
    requires Inv(l.s) && l.lost && (IsDequeue(e) ==> !Expired(l.s, e.now))
    ensures var t := LiteralStep(l, e); t.lost && t.s.deliveries == l.s.deliveries
  {
    if !IsDequeue(e) {
      OthersDeliverNothing(l.s, e);
    }
  }

  // ---------------------------------------------------------------- the empty bucket

  /** A bucket sent without looking at its contents is a batch for the client exactly when it holds
      records; the client rejects the empty one. */
  lemma LiteralEmptyRejected(lay: Layout, recs: seq<Rec>)
    requires lay.Valid() && AllDescribed(lay, recs) && |recs| < TWO_32
    requires |EnqueueMsg(recs)| <= C.RECV_BUFFER_LENGTH
    ensures C.Decode(lay, EnqueueMsg(recs)).Batch? <==> recs != []
    ensures recs == [] ==> C.Decode(lay, EnqueueMsg(recs)) == C.Retcode(-EINVAL)
  {
    if recs == [] {
      C.EmptyBatchRefused(lay);
    } else {
      C.BatchDecodes(lay, recs);
    }
  }

  /** Nor does the list stay well formed: only the open bucket may be empty, and sending closes it. */
  lemma LiteralEmptyClosed(s: State, k: nat, now: Timespec)
    requires ListInv(s) && k < |s.peers|
    ensures ListInv(Deliver(s, k, now)) <==> s.buckets[s.deliver].recs != []
  {
    var t := Deliver(s, k, now);
    if s.buckets[s.deliver].recs == [] {
      assert t.buckets[s.deliver].recs == [] && s.deliver < |t.buckets| - 1;
    } else {
      DeliverList(s, k, now);
    }
  }

  /** Once acknowledged at the head of the list, the bucket is cleared upstream with a record index
      exactly when it was not empty; otherwise with index -1. */
  lemma LiteralEmptyCleared(s: State)
    requires ReadyPrefix(s.buckets) > 0
    ensures var t := Cleanup(s, AllSucceed).0;
      |t.cleared| > |s.cleared| && (t.cleared[|s.cleared|] >= 0 <==> s.buckets[0].recs != [])
  {
    var n := ReadyPrefix(s.buckets);
    assert BucketRecs(s.buckets[..n])[0] == s.buckets[0].recs;
  }

  // ---------------------------------------------------------------- the missing reply

  /** Literally, a CLEAR with nothing to clear returns 0 without a reply. */
  function LiteralClear(s: State, id: Ident, body: Bytes, up: Upstream): State {
    var (t, rc) := if |body| >= CLEAR_SIZE && Registered(s, id) && Owned(s, id).None? then (s, 0)
                   else HandleClear(s, id, body, up);
    if rc < 0 || rc == 1 then Send(t, id, AckMsg(rc)) else t
  }

  /** A CLEAR is answered exactly when it is not a well-formed one from a registered client that
      holds nothing, a client the exchange then leaves waiting. */
  lemma LiteralClearSilent(s: State, id: Ident, body: Bytes, up: Upstream)
    ensures (exists reply :: LiteralClear(s, id, body, up).outbox == s.outbox + [Envelope(id, reply)]) <==>
      !(|body| >= CLEAR_SIZE && Registered(s, id) && Owned(s, id).None?)
  {
    if |body| >= CLEAR_SIZE && Registered(s, id) && Owned(s, id).None? {
      assert |LiteralClear(s, id, body, up).outbox| == |s.outbox|;
    } else {
      var (t, rc) := HandleClear(s, id, body, up);
      assert LiteralClear(s, id, body, up).outbox == s.outbox + [Envelope(id, AckMsg(rc))];
    }
  }
}

/** Short runs from the initial state that reach the failing cases of module `StatementOrder`.  The
    configuration has one record a bucket; the times of the requests are arbitrary. */
module Scenarios {
  import opened Records
  import opened Wire
  import opened ReaderModel
  import opened ReaderInvariant
  import opened ReaderRuns
  import opened Exchange
  import opened StatementOrder

  const CFG := Config(1, 4)

  const ALICE: Ident := [0]
  const BOB: Ident := [1]
  const CAROL: Ident := [2]
  const DAVE: Ident := [3]

  const R0 := Rec(0, [])
  const R1 := Rec(1, [])

  // ---------------------------------------------------------------- the requests, and what they do

  function StartBy(id: Ident): Event {
    Message(id, StartMsg(0, [], 0), NEVER, AllSucceed)
  }

  function DequeueBy(id: Ident, now: Timespec): Event {
    Message(id, DequeueMsg(), now, AllSucceed)
  }

  function ClearBy(id: Ident): Event {
    Message(id, ClearMsg([], [], 0), NEVER, AllSucceed)
  }

  function FiniBy(id: Ident): Event {
    Message(id, FiniMsg(), NEVER, AllSucceed)
  }

  function Newcomer(id: Ident): Peer {
    Peer(id, 0, None)
  }

  lemma StartStep(s: State, id: Ident)
    requires forall k :: 0 <= k < |s.peers| ==> s.peers[k].ident != id
    ensures Step(s, StartBy(id)) == Send(s.(peers := s.peers + [Newcomer(id)]), id, AckMsg(0))
  {
    StartOp(0, [], 0);
    StartRecord(0, [], 0);
  }

  /** Lookup by position. */
  lemma PeerIs(s: State, k: nat)
    requires OwnerInv(s) && k < |s.peers|
    ensures PeerAt(s.peers, s.peers[k].ident) == k
  {
    OwnedAt(s, k, s.peers[k].ident);
  }

  lemma DequeueStep(s: State, k: nat, now: Timespec)
    requires Inv(s) && k < |s.peers| && s.peers[k].bucket.None? && s.buckets[s.deliver].recs != []
    requires Expired(s, now) ==> s.deliver == 0
    ensures Step(s, DequeueBy(s.peers[k].ident, now)) == Deliver(s, k, now)
  {
    ShortOps();
    PeerIs(s, k);
    PositionedShape(s, now);
  }

  lemma ClearStep(s: State, k: nat)
    requires Inv(s) && k < |s.peers| && s.peers[k].bucket.Some?
    ensures Owned(s, s.peers[k].ident) == s.peers[k].bucket
    ensures Step(s, ClearBy(s.peers[k].ident)) == ClearedBy(s, s.peers[k].ident, AllSucceed)
  {
    ClearOp([], [], 0);
    PeerIs(s, k);
    DispatchClear(s, s.peers[k].ident, ClearMsg([], [], 0), NEVER, AllSucceed);
  }

  lemma FiniStep(s: State, k: nat)
    requires Inv(s) && k < |s.peers|
    ensures Step(s, FiniBy(s.peers[k].ident))
         == Send(s.(peers := s.peers[..k] + s.peers[k + 1..]), s.peers[k].ident, AckMsg(0))
  {
    ShortOps();
    PeerIs(s, k);
  }

  /** Reading a session of one record, and then its end. */
  function ReadOne(rec: Rec): seq<Event> {
    [Event.Read(0, [rec], 1), Event.Read(0, [], 1)]
  }

  lemma ReadStep(s: State, rec: Rec)
    requires s.cfg == CFG && s.session.None? && s.recCnt < 3 && rec.index >= s.srec
    ensures Step(Step(s, ReadOne(rec)[0]), ReadOne(rec)[1]) == Store(s, rec)
  {
    var t := Step(s, ReadOne(rec)[0]);
    assert [rec][1..] == [];
    assert t == Store(s, rec).(session := Some(Session([], 1)));
  }

  // ---------------------------------------------------------------- two clients, two buckets

  /** Alice and Bob have joined; nothing was read. */
  lemma TwoClients() returns (s: State)
    ensures Reachable(s) && s == Init(CFG).(peers := [Newcomer(ALICE), Newcomer(BOB)], outbox := s.outbox)
  {
    var i := Init(CFG);
    ReachableInit(CFG);
    StartStep(i, ALICE);
    ReachableStep(i, StartBy(ALICE));
    var a := Step(i, StartBy(ALICE));
    assert a.peers == [Newcomer(ALICE)];
    StartStep(a, BOB);
    ReachableStep(a, StartBy(BOB));
    s := Step(a, StartBy(BOB));
    assert s.peers == [Newcomer(ALICE), Newcomer(BOB)];
  }

  lemma ReachableRead(s: State, rec: Rec) returns (t: State)
    requires Reachable(s) && s.cfg == CFG && s.session.None? && s.recCnt < 3 && rec.index >= s.srec
    ensures Reachable(t) && t == Store(s, rec)
  {
    ReachableStep(s, ReadOne(rec)[0]);
    ReachableStep(Step(s, ReadOne(rec)[0]), ReadOne(rec)[1]);
    ReadStep(s, rec);
    t := Store(s, rec);
  }

  const FIRST := Bucket(0, [R0], 0, false, NEVER)
  const SECOND := Bucket(1, [R1], 0, false, NEVER)

  lemma FirstStored(s: State)
    requires s.cfg == CFG && s.buckets == [EmptyBucket(0)]
    ensures Store(s, R0) == s.(buckets := [FIRST], srec := 1, recRead := s.recRead + 1, recCnt := s.recCnt + 1)
  {
    assert [] + [R0] == [R0];
  }

  /** The second record goes to another bucket, which the first delivery may have opened already. */
  lemma SecondStored(s: State)
    requires s.cfg == CFG && 1 <= |s.buckets| <= 2 && |s.buckets[0].recs| == 1
    requires if |s.buckets| == 2 then s.buckets[1] == EmptyBucket(1) else s.bktIdx == 1
    ensures var t := Store(s, R1);
      && t.buckets == [s.buckets[0], SECOND]
      && t == s.(buckets := t.buckets, bktIdx := t.bktIdx, srec := 2, recRead := s.recRead + 1, recCnt := s.recCnt + 1)
  {
    assert [] + [R1] == [R1];
  }

  /** Two records were read: one in the first bucket, one in the second, which is open. */
  lemma TwoRead() returns (s: State)
    ensures Reachable(s) && s.cfg == CFG && s.deliver == 0 && s.trimmed == []
    ensures s.peers == [Newcomer(ALICE), Newcomer(BOB)] && s.buckets == [FIRST, SECOND]
  {
    var t := TwoClients();
    FirstStored(t);
    var u := ReachableRead(t, R0);
    SecondStored(u);
    s := ReachableRead(u, R1);
  }

  /** Each client has been given a bucket. */
  lemma TwoSent(now: Timespec) returns (s: State)
    ensures Reachable(s) && s.deliver == 2 && |s.buckets| == 3 && s.trimmed == []
    ensures s.peers == [Newcomer(ALICE).(bucket := Some(0)), Newcomer(BOB).(bucket := Some(1))]
    ensures s.buckets[0] == Bucket(0, [R0], 0, false, Deadline(now))
    ensures s.buckets[1] == Bucket(1, [R1], 0, false, Deadline(now))
  {
    var t := TwoRead();
    var u := ReachableDelivery(t, 0, now);
    assert u.buckets == [FIRST.(expiry := Deadline(now)), SECOND];
    s := ReachableDelivery(u, 1, now);
  }

  lemma ReachableDelivery(s: State, k: nat, now: Timespec) returns (t: State)
    requires Reachable(s) && k < |s.peers| && s.peers[k].bucket.None? && s.buckets[s.deliver].recs != []
    requires Expired(s, now) ==> s.deliver == 0
    ensures Reachable(t) && t == Deliver(s, k, now)
  {
    ReachableInv(s);
    DequeueStep(s, k, now);
    ReachableStep(s, DequeueBy(s.peers[k].ident, now));
    t := Deliver(s, k, now);
  }

  // ---------------------------------------------------------------- the cleanup cursor

  /** Bob acknowledges the second bucket, then Alice the first: the literal loop leaves the second,
      ready, at the head of the list, with the cleanup cursor on a bucket that was freed; the loop
      designed leaves nothing ready. */
  lemma CleanupStopsShort(now: Timespec) returns (s: State)
    ensures Reachable(s) && Owned(s, ALICE).Some?
    ensures var a := Acknowledge(s, ALICE);
      var (t, cursor, rc) := LiteralCleanup(a, AllSucceed);
      && rc == 0 && !HasIndex(t.buckets, cursor)
      && t.buckets[0].ready && !Cleanup(a, AllSucceed).0.buckets[0].ready
  {
    var r := TwoSent(now);
    ReachableInv(r);
    ClearStep(r, 1);
    ReachableStep(r, ClearBy(BOB));
    s := ClearedBy(r, BOB, AllSucceed);
    BobCleared(r, s);
    ReachableInv(s);
    PeerIs(s, 0);
    var a := Acknowledge(s, ALICE);
    AcknowledgeFacts(s, ALICE);
    ReadyTwo(a.buckets);
    LiteralCleanupStopsShort(a);
    LiteralCleanupCursor(a, AllSucceed);
    CleanupShape(a, AllSucceed);
  }

  lemma ReadyTwo(bs: seq<Bucket>)
    requires |bs| == 3 && bs[0].ready && bs[1].ready
    ensures ReadyPrefix(bs) == 2
  {
    assert bs[1..][1..] == bs[2..];
    assert ReadyPrefix(bs[2..]) == 0;
  }

  /** Bob's CLEAR trims nothing, for the head is still with Alice. */
  lemma BobCleared(r: State, s: State)
    requires Inv(r) && |r.buckets| == 3 && |r.peers| == 2 && r.trimmed == []
    requires r.peers == [Newcomer(ALICE).(bucket := Some(0)), Newcomer(BOB).(bucket := Some(1))]
    requires !r.buckets[0].ready && Owned(r, BOB) == Some(1) && s == ClearedBy(r, BOB, AllSucceed)
    ensures |s.buckets| == 3 && s.trimmed == [] && s.buckets[0] == r.buckets[0]
    ensures s.buckets[1] == r.buckets[1].(ready := true)
    ensures s.peers == [Newcomer(ALICE).(bucket := Some(0)), Newcomer(BOB)]
  {
    var a := Acknowledge(r, BOB);
    AcknowledgeFacts(r, BOB);
    PeerIs(r, 1);
    assert !a.buckets[0].ready;
    NothingToClear(a);
  }

  lemma NothingToClear(a: State)
    requires !a.buckets[0].ready
    ensures Cleanup(a, AllSucceed) == (a, 0)
  {
    assert ReadyPrefix(a.buckets) == 0;
    TrimNothing(a);
  }

  // ---------------------------------------------------------------- revocation

  lemma Late(now: Timespec) returns (later: Timespec)
    ensures forall s: State :: s.buckets[0].expiry == Deadline(now) ==> Expired(s, later)
  {
    later := Timespec(now.sec + ACK_TIMEOUT_SEC + 1, 0);
  }

  lemma ReachableStart(s: State, id: Ident) returns (t: State)
    requires Reachable(s) && forall k :: 0 <= k < |s.peers| ==> s.peers[k].ident != id
    ensures Reachable(t) && t == Send(s.(peers := s.peers + [Newcomer(id)]), id, AckMsg(0))
  {
    StartStep(s, id);
    ReachableStep(s, StartBy(id));
    t := Step(s, StartBy(id));
  }

  /** The head has expired in Alice's hands when Carol asks: Alice and Carol both own it. */
  lemma HeadShared(now: Timespec) returns (s: State, later: Timespec)
    ensures Reachable(s) && Expired(s, later) && |s.peers| == 3 && s.peers[2] == Newcomer(CAROL)
    ensures var t := Deliver(LiteralRewind(s), 2, later);
      t.peers[0].bucket == t.peers[2].bucket == Some(0) && !Exclusive(t)
  {
    var r := TwoSent(now);
    later := Late(now);
    s := ReachableStart(r, CAROL);
    HeadResent(s, 2, later);
  }

  /** The first delivery after a rewind without revocation. */
  lemma HeadResent(s: State, k: nat, at: Timespec)
    requires k < |s.peers|
    ensures var t := Deliver(LiteralRewind(s), k, at);
      && t.deliver == 1 && t.buckets[0].expiry == Deadline(at)
      && (|s.buckets| > 1 ==> t.buckets[1].index == s.buckets[1].index)
      && t.peers == SetBucket(s.peers, k, Some(s.buckets[0].index))
  {
  }

  /** Alice has left without acknowledging; Carol and Dave have joined. */
  lemma AliceGone(now: Timespec) returns (s: State)
    ensures Reachable(s) && |s.buckets| == 3 && s.buckets[0].expiry == Deadline(now)
    ensures s.buckets[0].index == 0 && s.buckets[1].index == 1
    ensures s.peers == [Newcomer(BOB).(bucket := Some(1)), Newcomer(CAROL), Newcomer(DAVE)]
  {
    var f := BobAlone(now);
    var c := ReachableStart(f, CAROL);
    assert c.peers == [Newcomer(BOB).(bucket := Some(1)), Newcomer(CAROL)];
    s := ReachableStart(c, DAVE);
  }

  lemma BobAlone(now: Timespec) returns (f: State)
    ensures Reachable(f) && |f.buckets| == 3 && f.buckets[0].expiry == Deadline(now)
    ensures f.buckets[0].index == 0 && f.buckets[1].index == 1
    ensures f.peers == [Newcomer(BOB).(bucket := Some(1))]
  {
    var r := TwoSent(now);
    ReachableInv(r);
    FiniStep(r, 0);
    ReachableStep(r, FiniBy(ALICE));
    f := Step(r, FiniBy(ALICE));
    assert f.peers == [Newcomer(BOB).(bucket := Some(1))];
  }

  /** Nobody owns the head, for Alice has left.  Carol may have it, but Dave is then given the bucket
      that is still with Bob. */
  lemma SecondShared(now: Timespec) returns (s: State, later: Timespec)
    ensures Reachable(s) && Expired(s, later) && s.buckets[0].index == 0
    ensures s.peers == [Newcomer(BOB).(bucket := Some(1)), Newcomer(CAROL), Newcomer(DAVE)]
    ensures var t := Deliver(LiteralRewind(s), 1, later);
      Exclusive(t) && !Expired(t, later) && !Exclusive(Deliver(t, 2, later))
  {
    s := AliceGone(now);
    later := Late(now);
    HeadResent(s, 1, later);
    var t := Deliver(LiteralRewind(s), 1, later);
    var u := Deliver(t, 2, later);
    assert u.peers == SetBucket(t.peers, 2, Some(1));
    assert u.peers[0].bucket == u.peers[2].bucket;
  }

  // ---------------------------------------------------------------- the delivery cursor

  ghost predicate LiteralReachable(l: Literal) {
    exists events :: l == LiteralRun(Literal(Init(CFG), false), events)
  }

  lemma LiteralReachableStep(l: Literal, e: Event)
    requires LiteralReachable(l)
    ensures LiteralReachable(LiteralStep(l, e))
  {
    var events :| l == LiteralRun(Literal(Init(CFG), false), events);
    var longer := events + [e];
    assert longer[..|events|] == events;
    assert LiteralStep(l, e) == LiteralRun(Literal(Init(CFG), false), longer);
  }

  lemma LiteralStart(l: Literal, id: Ident) returns (t: Literal)
    requires LiteralReachable(l) && forall k :: 0 <= k < |l.s.peers| ==> l.s.peers[k].ident != id
    ensures LiteralReachable(t)
    ensures t == Literal(Send(l.s.(peers := l.s.peers + [Newcomer(id)]), id, AckMsg(0)), l.lost)
  {
    StartOp(0, [], 0);
    StartStep(l.s, id);
    LiteralReachableStep(l, StartBy(id));
    t := LiteralStep(l, StartBy(id));
  }

  lemma LiteralRead(l: Literal, rec: Rec) returns (t: Literal)
    requires LiteralReachable(l)
    requires l.s.cfg == CFG && l.s.session.None? && l.s.recCnt < 3 && rec.index >= l.s.srec
    ensures LiteralReachable(t) && t == Literal(Store(l.s, rec), l.lost)
  {
    LiteralReachableStep(l, ReadOne(rec)[0]);
    LiteralReachableStep(LiteralStep(l, ReadOne(rec)[0]), ReadOne(rec)[1]);
    ReadStep(l.s, rec);
    t := LiteralStep(LiteralStep(l, ReadOne(rec)[0]), ReadOne(rec)[1]);
  }

  /** Alice is given the open bucket; another record is read; Bob asks for it and is told end of
      stream, although its bucket waits at the cursor. */
  lemma BucketStarved(now: Timespec) returns (l: Literal)
    ensures LiteralReachable(l) && Starved(l, DequeueBy(BOB, now)) && l.s.buckets[l.s.deliver].recs == [R1]
    ensures LiteralStep(l, DequeueBy(BOB, now)).s == Send(l.s, BOB, AckMsg(1))
  {
    var c := OneRead();
    var d := LiteralOpenServed(c, now);
    OpenServed(c.s, now);
    SecondStored(d.s);
    l := LiteralRead(d, R1);
    ShortOps();
    OwnedAt(l.s, 1, BOB);
  }

  lemma OneRead() returns (c: Literal)
    ensures LiteralReachable(c) && !c.lost
    ensures c.s == Init(CFG).(peers := [Newcomer(ALICE), Newcomer(BOB)], buckets := [FIRST], srec := 1, recRead := 1,
                              recCnt := 1, outbox := c.s.outbox)
  {
    var i := Literal(Init(CFG), false);
    assert LiteralRun(i, []) == i;
    var a := LiteralStart(i, ALICE);
    assert a.s.peers == [Newcomer(ALICE)];
    var b := LiteralStart(a, BOB);
    assert b.s.peers == [Newcomer(ALICE), Newcomer(BOB)];
    FirstStored(b.s);
    c := LiteralRead(b, R0);
  }

  lemma OpenServed(s: State, now: Timespec)
    requires s.peers == [Newcomer(ALICE), Newcomer(BOB)] && s.buckets == [FIRST] && s.deliver == 0 && s.bktIdx == 1
    ensures var t := Deliver(s, 0, now);
      && t.buckets == [FIRST.(expiry := Deadline(now)), EmptyBucket(1)] && t.deliver == 1 && t.bktIdx == 2
      && t.peers == [Newcomer(ALICE).(bucket := Some(0)), Newcomer(BOB)]
      && t.cfg == s.cfg && t.srec == s.srec && t.recCnt == s.recCnt && t.session == s.session
  {
  }

  lemma LiteralOpenServed(c: Literal, now: Timespec) returns (d: Literal)
    requires LiteralReachable(c) && !c.lost && c.s.deliver == 0
    requires c.s.peers == [Newcomer(ALICE), Newcomer(BOB)] && c.s.buckets == [FIRST]
    ensures LiteralReachable(d) && d == Literal(Deliver(c.s, 0, now), true)
  {
    ShortOps();
    LiteralReachableStep(c, DequeueBy(ALICE, now));
    LiteralServed(c, now);
    d := LiteralStep(c, DequeueBy(ALICE, now));
  }

  lemma LiteralServed(c: Literal, now: Timespec)
    requires !c.lost && c.s.deliver == 0
    requires c.s.peers == [Newcomer(ALICE), Newcomer(BOB)] && c.s.buckets == [FIRST]
    ensures LiteralDequeue(c, ALICE, DequeueMsg(), now) == (Literal(Deliver(c.s, 0, now), true), 0)
  {
    RewindAtStart(c.s);
    OwnedAt(c.s, 0, ALICE);
  }

  lemma RewindAtStart(s: State)
    requires s.deliver == 0
    ensures Rewind(s) == s
  {
    assert Rewind(s).buckets == s.buckets;
    assert Rewind(s).peers == s.peers;
  }

  // ---------------------------------------------------------------- empty buckets and the missing reply

  /** A client asks before anything is read.  Sent without a look at its contents, the open bucket is
      closed empty; the client acknowledges it, and the upstream is asked to clear up to -1. */
  lemma EmptyCleared(now: Timespec) returns (s: State)
    ensures Reachable(s) && |s.peers| == 1 && s.peers[0] == Newcomer(ALICE) && s.cleared == []
    ensures var t := Deliver(s, 0, now);
      && !ListInv(t) && Owned(t, ALICE).Some?
      && Cleanup(Acknowledge(t, ALICE), AllSucceed).0.cleared == [-1]
  {
    s := OneClient();
    ReachableInv(s);
    LiteralEmptyClosed(s, 0, now);
    EmptySent(s, Deliver(s, 0, now), now);
  }

  lemma EmptySent(s: State, t: State, now: Timespec)
    requires s.peers == [Newcomer(ALICE)] && s.buckets == [EmptyBucket(0)] && s.deliver == 0 && s.bktIdx == 1
    requires s.cleared == [] && t == Deliver(s, 0, now)
    ensures Owned(t, ALICE) == Some(0)
    ensures Cleanup(Acknowledge(t, ALICE), AllSucceed).0.cleared == [-1]
  {
    OwnedAt(t, 0, ALICE);
    var a := Acknowledge(t, ALICE);
    assert a.buckets[0].ready && a.buckets[0].recs == [] && |a.buckets| == 2;
    ReadyOne(a.buckets);
    assert BucketRecs(a.buckets[..1]) == [[]];
  }

  lemma ReadyOne(bs: seq<Bucket>)
    requires |bs| == 2 && bs[0].ready
    ensures ReadyPrefix(bs) == 1
  {
    assert ReadyPrefix(bs[1..]) == 0;
  }

  lemma OneClient() returns (s: State)
    ensures Reachable(s) && s == Init(CFG).(peers := [Newcomer(ALICE)], outbox := s.outbox)
  {
    var i := Init(CFG);
    ReachableInit(CFG);
    StartStep(i, ALICE);
    ReachableStep(i, StartBy(ALICE));
    s := Step(i, StartBy(ALICE));
  }

  /** A client that holds nothing sends a CLEAR and waits for ever: literally, nothing is sent. */
  lemma ClearUnanswered() returns (s: State)
    ensures Reachable(s) && Registered(s, ALICE)
    ensures LiteralClear(s, ALICE, ClearMsg([], [], 0), AllSucceed) == s
    ensures !exists reply ::
      LiteralClear(s, ALICE, ClearMsg([], [], 0), AllSucceed).outbox == s.outbox + [Envelope(ALICE, reply)]
  {
    s := OneClient();
    OwnedAt(s, 0, ALICE);
    LiteralClearSilent(s, ALICE, ClearMsg([], [], 0), AllSucceed);
  }
}

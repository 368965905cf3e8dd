/** A run of the whole system in which a record is lost: its batch does not fit the reception buffer,
    so the client drops it; the CLEAR that follows lets the upstream discard it. */
module OversizedBatches {
  import opened Records
  import opened Wire
  import opened ReaderModel
  import opened ReaderInvariant
  import opened Exchange
  import opened Scenarios
  import S = Systems
  import C = ClientModel

  const TINY := Config(1, 1)

  lemma RunsSnoc(env: S.Setup, events: seq<S.Event>, e: S.Event)
    requires S.AllAdmissible(env, events) && S.Admissible(env, e)
    ensures S.AllAdmissible(env, events + [e])
    ensures S.Runs(env, events + [e]) == S.Apply(env, S.Runs(env, events), e)
  {
    assert (events + [e])[..|events|] == events;
  }

  /** Alice has a context, and nothing cached. */
  const IDLE := S.NO_CONTEXT.(phase := S.Idle)

  ghost predicate AliceIs(w: S.World, a: S.App) {
    S.AppOf(w, ALICE) == a && w.clock == 0 && w.handed == {}
  }

  const SERVE := S.Serve(ALICE, AllSucceed)

  /** Alice asks for a context, and the reader knows her. */
  lemma AliceStarts(env: S.Setup, w: S.World)
    requires AliceIs(w, S.NO_CONTEXT) && w.reader.peers == []
    ensures var start := S.Start(ALICE, 0, [], 0);
      var v := S.Apply(env, S.Apply(env, w, start), SERVE);
      && v.reader == Send(w.reader.(peers := [Newcomer(ALICE)]), ALICE, AckMsg(0))
      && AliceIs(v, S.NO_CONTEXT.(phase := S.Starting, link := S.Answering(AckMsg(0))))
  {
    StartStep(w.reader, ALICE);
    assert w.reader.peers + [Newcomer(ALICE)] == [Newcomer(ALICE)];
  }

  lemma AliceAccepted(env: S.Setup, w: S.World)
    requires AliceIs(w, S.NO_CONTEXT.(phase := S.Starting, link := S.Answering(AckMsg(0))))
    ensures var v := S.Apply(env, w, S.Deliver(ALICE)); AliceIs(v, IDLE) && v.reader == w.reader
  {
    C.AckDecodes(env.lay, 0);
  }

  /** Alice joins. */
  lemma AliceJoins(env: S.Setup) returns (events: seq<S.Event>)
    requires env.Valid() && env.cfg == TINY
    ensures S.AllAdmissible(env, events)
    ensures var w := S.Runs(env, events);
      AliceIs(w, IDLE) && w.reader == Init(TINY).(peers := [Newcomer(ALICE)], outbox := w.reader.outbox)
  {
    var start, deliver := S.Start(ALICE, 0, [], 0), S.Deliver(ALICE);
    RunsSnoc(env, [], start);
    RunsSnoc(env, [start], SERVE);
    RunsSnoc(env, [start] + [SERVE], deliver);
    events := [start] + [SERVE] + [deliver];
    var w := S.Begin(env);
    assert S.Runs(env, []) == w && [] + [start] == [start];
    AliceStarts(env, w);
    AliceAccepted(env, S.Apply(env, S.Apply(env, w, start), SERVE));
  }

  /** The record is read. */
  lemma RecordRead(env: S.Setup, r: Rec) returns (events: seq<S.Event>)
    requires env.Valid() && env.cfg == TINY && env.lay.Describes(r)
    ensures S.AllAdmissible(env, events)
    ensures var w := S.Runs(env, events);
      && AliceIs(w, IDLE) && w.reader.cfg == TINY && w.reader.peers == [Newcomer(ALICE)] && w.reader.deliver == 0
      && w.reader.buckets == [Bucket(0, [r], |r.bytes|, false, NEVER)]
      && w.reader.trimmed == [] && w.reader.cleared == [] && w.reader.bktIdx == 1
  {
    var before := AliceJoins(env);
    var read := S.Event.Read(0, [r], 1);
    events := before + [read];
    RunsSnoc(env, before, read);
    assert [r][1..] == [];
    assert [] + [r] == [r];
  }

  /** Alice asks for records, and is sent the one there is. */
  lemma AliceReceives(env: S.Setup, w: S.World, r: Rec)
    requires AliceIs(w, IDLE) && Inv(w.reader)
    requires w.reader.peers == [Newcomer(ALICE)] && w.reader.buckets[w.reader.deliver].recs == [r]
    requires w.reader.deliver == 0
    ensures var v := S.Apply(env, S.Apply(env, w, S.Recv(ALICE)), SERVE);
      && v.reader == Deliver(w.reader, 0, NEVER)
      && AliceIs(v, IDLE.(phase := S.Receiving, link := S.Answering(EnqueueMsg([r]))))
  {
    DequeueStep(w.reader, 0, NEVER);
    DequeueServed(env, S.Apply(env, w, S.Recv(ALICE)));
  }

  lemma DequeueServed(env: S.Setup, v: S.World)
    requires AliceIs(v, IDLE.(phase := S.Receiving, link := S.Asking(DequeueMsg())))
    ensures var u, t := S.Apply(env, v, SERVE), Step(v.reader, DequeueBy(ALICE, NEVER));
      && u.reader == t
      && (t.outbox != [] ==>
            AliceIs(u, IDLE.(phase := S.Receiving, link := S.Answering(t.outbox[|t.outbox| - 1].body))))
  {
  }

  /** She drops what does not fit. */
  lemma AliceDrops(env: S.Setup, w: S.World, r: Rec)
    requires AliceIs(w, IDLE.(phase := S.Receiving, link := S.Answering(EnqueueMsg([r])))) && !S.Fits([r])
    ensures var v := S.Apply(env, w, S.Deliver(ALICE)); AliceIs(v, IDLE) && v.reader == w.reader
  {
  }

  /** The record is sent to Alice, who drops it. */
  lemma RecordDropped(env: S.Setup, r: Rec) returns (events: seq<S.Event>)
    requires env.Valid() && env.cfg == TINY && env.lay.Describes(r) && !S.Fits([r])
    ensures S.AllAdmissible(env, events)
    ensures var w := S.Runs(env, events);
      && AliceIs(w, IDLE) && w.reader.peers == [Newcomer(ALICE).(bucket := Some(0))] && w.reader.deliver == 1
      && |w.reader.buckets| == 2 && w.reader.buckets[0].recs == [r]
      && w.reader.trimmed == [] && w.reader.cleared == []
  {
    var before := RecordRead(env, r);
    var recv, deliver := S.Recv(ALICE), S.Deliver(ALICE);
    events := before + [recv] + [SERVE] + [deliver];
    RunsSnoc(env, before, recv);
    RunsSnoc(env, before + [recv], SERVE);
    RunsSnoc(env, before + [recv] + [SERVE], deliver);
    var w := S.Runs(env, before);
    S.RunsInv(env, before);
    ReachableInv(w.reader);
    AliceReceives(env, w, r);
    AliceDrops(env, S.Apply(env, S.Apply(env, w, recv), SERVE), r);
  }

  /** She clears what she has, which makes the reader clear the batch. */
  lemma AliceClears(env: S.Setup, w: S.World, r: Rec)
    requires AliceIs(w, IDLE) && Inv(w.reader) && w.reader.peers == [Newcomer(ALICE).(bucket := Some(0))]
    requires |w.reader.buckets| == 2 && w.reader.buckets[0].recs == [r]
    requires w.reader.trimmed == [] && w.reader.cleared == []
    ensures var v := S.Apply(env, S.Apply(env, w, S.Event.Clear(ALICE, [], [], 0)), SERVE);
      v.handed == {} && v.reader.trimmed == [[r]] && v.reader.cleared == [r.index]
  {
    HeadCleared(w.reader, r);
    var v := S.Apply(env, w, S.Event.Clear(ALICE, [], [], 0));
    ClearServed(env, v);
  }

  lemma ClearServed(env: S.Setup, v: S.World)
    requires AliceIs(v, IDLE.(phase := S.Clearing, link := S.Asking(ClearMsg([], [], 0))))
    ensures var u := S.Apply(env, v, SERVE); u.handed == {} && u.reader == Step(v.reader, ClearBy(ALICE))
  {
  }

  /** The record is lost: the upstream may discard it although no call to receive has returned it to
      anybody. */
  lemma RecordLost(env: S.Setup, r: Rec) returns (events: seq<S.Event>)
    requires env.Valid() && env.cfg == TINY && env.lay.Describes(r) && !S.Fits([r])
    ensures S.AllAdmissible(env, events)
    ensures var w := S.Runs(env, events);
      && w.reader.trimmed == [[r]] && w.reader.cleared == [r.index]
      && r in Accepted(w.reader) && !S.Returned(w.handed, r) && !S.NoneLost(w.reader, w.handed)
  {
    var before := RecordDropped(env, r);
    var clear := S.Event.Clear(ALICE, [], [], 0);
    events := before + [clear] + [SERVE];
    RunsSnoc(env, before, clear);
    RunsSnoc(env, before + [clear], SERVE);
    var w := S.Runs(env, before);
    S.RunsInv(env, before);
    ReachableInv(w.reader);
    AliceClears(env, w, r);
    FlattenMember(Batches(S.Runs(env, events).reader), 0, r);
  }

  lemma HeadCleared(s: State, r: Rec)
    requires Inv(s) && s.peers == [Newcomer(ALICE).(bucket := Some(0))]
    requires |s.buckets| == 2 && s.buckets[0].recs == [r] && s.trimmed == [] && s.cleared == []
    ensures var t := Step(s, ClearBy(ALICE)); t.trimmed == [[r]] && t.cleared == [r.index]
  {
    ClearStep(s, 0);
    HeadTrimmed(s, r);
  }

  lemma HeadTrimmed(s: State, r: Rec)
    requires Inv(s) && s.peers == [Newcomer(ALICE).(bucket := Some(0))] && Owned(s, ALICE) == Some(0)
    requires |s.buckets| == 2 && s.buckets[0].recs == [r] && s.trimmed == [] && s.cleared == []
    ensures var t := ClearedBy(s, ALICE, AllSucceed); t.trimmed == [[r]] && t.cleared == [r.index]
  {
    var a := Acknowledge(s, ALICE);
    AcknowledgeFacts(s, ALICE);
    ReadyOne(a.buckets);
    assert BucketRecs(a.buckets[..1]) == [[r]];
  }

  /** Such a record exists for any layout in which a header can announce one long enough; here, every
      record has one byte of header and as many more as the reception buffer holds. */
  lemma LongRecord() returns (env: S.Setup, r: Rec)
    ensures env.Valid() && env.cfg == TINY && env.lay.Describes(r) && !S.Fits([r])
  {
    env := S.Setup(Layout(1, _ => C.RECV_BUFFER_LENGTH, _ => 0), TINY);
    r := Rec(0, seq(1 + C.RECV_BUFFER_LENGTH, _ => 0));
    assert Payload([r]) == r.bytes + Payload([]);
  }
}

/** What an intake does, when it stops and with which code; what makes a bucket full; and the main
    loop as a run. */
module Intakes {
  import opened Records
  import opened Wire
  import opened ReaderModel
  import opened ReaderInvariant
  import opened ReaderRuns
  import opened Exchange

  // ---------------------------------------------------------------- one intake

  /** As many records as a full cache holds. */
  function Capacity(cfg: Config): nat {
    cfg.batch * cfg.maxBuckets
  }

  /** The session an intake reads. */
  function Opened(s: State, feed: seq<Rec>, last: EndCode): Session {
    if s.session.Some? then s.session.value else Session(feed, last)
  }

  /** Reading stopped before the end of the session, which stays open for the rest of it: a whole batch
      was stored, or the cache is full. */
  ghost predicate StoppedShort(s: State, t: State, source: Session) {
    && t.session.Some? && t.session.value.last == source.last
    && Accepted(t) + Chosen(t.session.value.pending, t.srec) == Accepted(s) + Chosen(source.pending, s.srec)
    && (t.recRead >= s.recRead + s.cfg.batch || t.recCnt >= Capacity(s.cfg))
  }

  /** The session was read to its end, which closes it after an end of stream or an error that asks for
      another session, and only then. */
  ghost predicate ReadToEnd(s: State, t: State, source: Session) {
    && Accepted(t) == Accepted(s) + Chosen(source.pending, s.srec)
    && t.session == (if source.last == 1 || source.last == -EAGAIN || source.last == -EPROTO then None
                     else Some(Session([], source.last)))
  }

  /** An intake.  A full cache reads nothing; without a session, what opening one returns is returned
      when it is not 0; otherwise the session is read either to its end, whose code is returned, or
      until a whole batch is stored or the cache is full, which returns 0. */
  lemma IntakeOutcome(s: State, startRc: int, feed: seq<Rec>, last: EndCode)
    ensures var (t, rc) := Intake(s, startRc, feed, last);
      var source := Opened(s, feed, last);
      if s.recCnt >= Capacity(s.cfg) then t == s && rc == 0
      else if s.session.None? && startRc != 0 then t == s && rc == startRc
      else if rc == 0 then StoppedShort(s, t, source)
      else rc == source.last && ReadToEnd(s, t, source)
  {
    if s.recCnt < Capacity(s.cfg) && (s.session.Some? || startRc == 0) {
      var source := Opened(s, feed, last);
      var (u, rest, ended) := Pull(s, source.pending, 0);
      var t := Intake(s, startRc, feed, last).0;
      PullChoosesAll(s, source.pending, 0);
      PullEnds(s, source.pending, 0);
      assert Batches(t) == Batches(u);
      assert ended ==> Accepted(u) + Chosen(rest, u.srec) == Accepted(u);
    }
  }

  /** While there is room and a session yields something new, an intake stores something. */
  lemma IntakeProgress(s: State, startRc: int, feed: seq<Rec>, last: EndCode)
    requires s.cfg.Valid() && s.recCnt < Capacity(s.cfg) && (s.session.Some? || startRc == 0)
    ensures var t := Intake(s, startRc, feed, last).0;
      Accepted(t) == Accepted(s) <==> Chosen(Opened(s, feed, last).pending, s.srec) == []
  {
    PullProgress(s, Opened(s, feed, last).pending);
    assert Batches(Intake(s, startRc, feed, last).0) == Batches(Pull(s, Opened(s, feed, last).pending, 0).0);
  }

  lemma {:induction false} PullProgress(s: State, feed: seq<Rec>)
    ensures Accepted(Pull(s, feed, 0).0) == Accepted(s) <==> Chosen(feed, s.srec) == []
    decreases |feed|
  {
    if feed == [] {
    } else if feed[0].index < s.srec {
      PullProgress(s, feed[1..]);
    } else {
      var t := Store(s, feed[0]);
      StoreFacts(s, feed[0]);
      PullGrows(t, feed[1..], 1);
      assert |Accepted(t)| == |Accepted(s)| + 1;
    }
  }

  // ---------------------------------------------------------------- full buckets

  ghost predicate WasSent(s: State, x: nat) {
    exists i :: 0 <= i < |s.deliveries| && s.deliveries[i].bucket == x
  }

  /** A bucket that no record is added to any more holds a whole batch, or was sent before it did. */
  ghost predicate FullOrSent(s: State) {
    forall x: nat :: x < |Closed(s)| ==> |Closed(s)[x]| == s.cfg.batch || WasSent(s, x)
  }

  lemma FullOrSentCarry(s: State, t: State)
    requires FullOrSent(s) && Closed(s) <= Closed(t) && t.cfg == s.cfg && s.deliveries <= t.deliveries
    requires forall x: nat :: |Closed(s)| <= x < |Closed(t)| ==> |Closed(t)[x]| == t.cfg.batch || WasSent(t, x)
    ensures FullOrSent(t)
  {
    forall x: nat | x < |Closed(t)|
      ensures |Closed(t)[x]| == t.cfg.batch || WasSent(t, x)
    {
      if x < |Closed(s)| {
        assert Closed(t)[x] == Closed(s)[x];
        if WasSent(s, x) {
          var i :| 0 <= i < |s.deliveries| && s.deliveries[i].bucket == x;
          assert t.deliveries[i].bucket == x;
        }
      }
    }
  }

  lemma StoreFullOrSent(s: State, rec: Rec)
    requires FullOrSent(s)
    ensures FullOrSent(Store(s, rec))
  {
    var t, n := Store(s, rec), |s.buckets| - 1;
    StoreFacts(s, rec);
    assert BucketRecs(t.buckets)[n] == t.buckets[n].recs;
    FullOrSentCarry(s, t);
  }

  lemma PullFullOrSent(s: State, feed: seq<Rec>)
    requires FullOrSent(s) && !Full(s)
    ensures FullOrSent(Pull(s, feed, 0).0)
  {
    var P := (t: State) => FullOrSent(t);
    forall t: State, rec: Rec | P(t) && !Full(t) && rec.index >= t.srec
      ensures P(Store(t, rec))
    {
      StoreFullOrSent(t, rec);
    }
    PullKeeps(P, s, feed, 0);
  }

  /** Sending the bucket at the cursor closes no other. */
  lemma DeliverFullOrSent(s: State, k: nat, now: Timespec)
    requires ListInv(s) && FullOrSent(s) && k < |s.peers|
    ensures FullOrSent(Deliver(s, k, now))
  {
    var t := Deliver(s, k, now);
    DeliverFacts(s, k, now);
    var d := t.deliveries[|s.deliveries|];
    assert d.bucket == |s.trimmed| + s.deliver;
    assert WasSent(t, d.bucket);
    FullOrSentCarry(s, t);
  }

  lemma DequeueFullOrSent(s: State, id: Ident, body: Bytes, now: Timespec)
    requires Inv(s) && FullOrSent(s)
    ensures FullOrSent(HandleDequeue(s, id, body, now).0)
  {
    if |body| >= HEADER_SIZE && Registered(s, id) && Owned(s, id).None? {
      var r := Positioned(s, now);
      RewindFacts(s);
      PositionedInv(s, now);
      FullOrSentCarry(s, r);
      if r.buckets[r.deliver].recs != [] {
        DeliverFullOrSent(r, PeerAt(s.peers, id), now);
      }
    }
  }

  /** Messages other than DEQUEUE close nothing. */
  lemma OthersCloseNothing(s: State, id: Ident, body: Bytes, now: Timespec, up: Upstream)
    requires Inv(s) && (|body| >= HEADER_SIZE ==> OpType(body) != OP_DEQUEUE)
    ensures Batches(Handle(s, id, body, now, up).0) == Batches(s)
  {
    if |body| >= CLEAR_SIZE && OpType(body) == OP_CLEAR && Owned(s, id).Some? {
      AcknowledgeFacts(s, id);
      CleanupKept(Acknowledge(s, id), up);
      ClearAnswers(s, id, body, up);
      assert Batches(HandleClear(s, id, body, up).0) == Batches(Cleanup(Acknowledge(s, id), up).0);
    }
  }

  lemma MessageFullOrSent(s: State, id: Ident, body: Bytes, now: Timespec, up: Upstream)
    requires Inv(s) && FullOrSent(s)
    ensures FullOrSent(Dispatch(s, id, body, now, up))
  {
    var r, t := Handle(s, id, body, now, up).0, Dispatch(s, id, body, now, up);
    HandleKept(s, id, body, now, up);
    if |body| >= HEADER_SIZE && OpType(body) == OP_DEQUEUE {
      DequeueFullOrSent(s, id, body, now);
    } else {
      OthersCloseNothing(s, id, body, now, up);
      FullOrSentCarry(s, r);
    }
    assert Batches(t) == Batches(r);
    FullOrSentCarry(r, t);
  }

  lemma StepFullOrSent(s: State, e: Event)
    requires Inv(s) && FullOrSent(s)
    ensures FullOrSent(Step(s, e))
  {
    match e
    case Message(from, body, now, up) => MessageFullOrSent(s, from, body, now, up);
    case Read(startRc, feed, last) =>
      if !Full(s) && (s.session.Some? || startRc == 0) {
        var source := Opened(s, feed, last);
        PullFullOrSent(s, source.pending);
        var u, t := Pull(s, source.pending, 0).0, Step(s, e);
        assert Batches(t) == Batches(u);
        FullOrSentCarry(u, t);
      }
  }

  /** Over any run, batches are whole: a bucket is closed only when it holds a whole batch, or by being
      sent to a client that asked while it was the last one. */
  lemma {:induction false} BatchesAreWhole(cfg: Config, events: seq<Event>)
    requires cfg.Valid()
    ensures FullOrSent(Run(Init(cfg), events))
    decreases |events|
  {
    if events != [] {
      var n := |events| - 1;
      BatchesAreWhole(cfg, events[..n]);
      RunInv(cfg, events[..n]);
      StepFullOrSent(Run(Init(cfg), events[..n]), events[n]);
    }
  }

  // ---------------------------------------------------------------- the main loop

  function MessageOf(r: Request): Event {
    Message(r.from, r.body, r.now, r.up)
  }

  function Messages(inbox: seq<Request>): (events: seq<Event>)
    ensures |events| == |inbox| && forall i :: 0 <= i < |inbox| ==> events[i] == MessageOf(inbox[i])
  {
    seq(|inbox|, i requires 0 <= i < |inbox| => MessageOf(inbox[i]))
  }

  /** A pass: the intake, then the messages in the order they came. */
  function PassEvents(p: Pass): seq<Event> {
    [Read(p.startRc, p.feed, p.last)] + Messages(p.inbox)
  }

  function LoopEvents(passes: seq<Pass>): seq<Event>
    decreases |passes|
  {
    if passes == [] then [] else LoopEvents(passes[..|passes| - 1]) + PassEvents(passes[|passes| - 1])
  }

  lemma {:induction false} RunConcat(s: State, xs: seq<Event>, ys: seq<Event>)
    ensures Run(s, xs + ys) == Run(Run(s, xs), ys)
    decreases |ys|
  {
    if ys == [] {
      assert xs + ys == xs;
    } else {
      var n := |ys| - 1;
      RunConcat(s, xs, ys[..n]);
      assert xs + ys == (xs + ys[..n]) + [ys[n]];
      RunSnoc(s, xs + ys[..n], ys[n]);
    }
  }

  lemma RunSnoc(s: State, xs: seq<Event>, e: Event)
    ensures Run(s, xs + [e]) == Step(Run(s, xs), e)
  {
    assert (xs + [e])[..|xs|] == xs;
  }

  lemma {:induction false} ServeAllIsRun(s: State, inbox: seq<Request>)
    ensures ServeAll(s, inbox) == Run(s, Messages(inbox))
    decreases |inbox|
  {
    if inbox != [] {
      var n := |inbox| - 1;
      assert Messages(inbox)[..n] == Messages(inbox[..n]);
      ServeAllIsRun(s, inbox[..n]);
    }
  }

  lemma RunOne(s: State, e: Event)
    ensures Run(s, [e]) == Step(s, e)
  {
    assert [e][..0] == [];
    assert Run(s, []) == s;
  }

  /** The outcome of the intake of a pass. */
  function IntakeOf(s: State, p: Pass): (State, int) {
    Intake(s, p.startRc, p.feed, p.last)
  }

  lemma PassIsRun(s: State, p: Pass)
    requires IntakeOf(s, p).1 >= 0
    ensures OnePass(s, p) == (Run(s, PassEvents(p)), 0)
  {
    var read := Read(p.startRc, p.feed, p.last);
    RunConcat(s, [read], Messages(p.inbox));
    RunOne(s, read);
    ServeAllIsRun(IntakeOf(s, p).0, p.inbox);
  }

  /** Every one of the passes begins with an intake that succeeds. */
  ghost predicate AllIntakesSucceed(s: State, passes: seq<Pass>)
    decreases |passes|
  {
    passes == [] ||
    var n := |passes| - 1;
    AllIntakesSucceed(s, passes[..n]) && IntakeOf(Run(s, LoopEvents(passes[..n])), passes[n]).1 >= 0
  }

  /** The main loop ends after `n` whole passes: the run of their events, and of the intake that fails in
      the next pass if there is one. */
  ghost predicate EndsAfter(s: State, passes: seq<Pass>, n: nat) {
    && n <= |passes| && AllIntakesSucceed(s, passes[..n])
    && var u := Run(s, LoopEvents(passes[..n]));
       if n == |passes| then MainLoop(s, passes) == (u, 0)
       else IntakeOf(u, passes[n]).1 < 0 && MainLoop(s, passes) == IntakeOf(u, passes[n])
  }

  /** The main loop is the run in which every pass contributes its intake and then the messages waiting,
      in order.  It ends with the first intake that fails, of which it returns the code: the
      messages of that pass, and everything after it, are not looked at. */
  lemma {:induction false} MainLoopIsRun(s: State, passes: seq<Pass>)
    ensures exists n: nat :: EndsAfter(s, passes, n)
    decreases |passes|
  {
    if passes == [] {
      NoPass(s);
    } else {
      var m := |passes| - 1;
      MainLoopIsRun(s, passes[..m]);
      var n: nat :| EndsAfter(s, passes[..m], n);
      if n == m {
        LastPass(s, passes);
      } else {
        EndedBefore(s, passes, n);
      }
    }
  }

  lemma NoPass(s: State)
    ensures EndsAfter(s, [], 0)
  {
    assert Run(s, []) == s;
  }

  lemma EndedBefore(s: State, passes: seq<Pass>, n: nat)
    requires passes != [] && n < |passes| - 1 && EndsAfter(s, passes[..|passes| - 1], n)
    ensures EndsAfter(s, passes, n)
  {
    assert passes[..|passes| - 1][..n] == passes[..n];
  }

  lemma LastPass(s: State, passes: seq<Pass>)
    requires passes != [] && EndsAfter(s, passes[..|passes| - 1], |passes| - 1)
    ensures exists n: nat :: EndsAfter(s, passes, n)
  {
    var m := |passes| - 1;
    assert passes[..m][..m] == passes[..m];
    var u := Run(s, LoopEvents(passes[..m]));
    if IntakeOf(u, passes[m]).1 >= 0 {
      PassIsRun(u, passes[m]);
      RunConcat(s, LoopEvents(passes[..m]), PassEvents(passes[m]));
      assert passes[..m + 1] == passes;
      assert EndsAfter(s, passes, m + 1);
    } else {
      assert EndsAfter(s, passes, m);
    }
  }
}

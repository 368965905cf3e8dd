/** The upstream, the reader and any number of clients, with requests and replies in flight.
    Requests of one client are lockstep; everything else interleaves freely, and a client may stop
    at any point. */
module Systems {
  import opened Records
  import opened Wire
  import opened ReaderModel
  import opened ReaderInvariant
  import opened ReaderRuns
  import opened Exchange
  import C = ClientModel

  /** Where an application is in the life of its context. */
  datatype Phase = Absent | Starting | Idle | Receiving | Clearing | Finishing

  /** The client's socket: nothing in flight, a request on its way, or its reply on the way back. */
  datatype Link = Quiet | Asking(body: Bytes) | Answering(body: Bytes)

  /** One client context.  `stream` (the records returned so far) and `batches` (the ENQUEUE batches
      accepted) are history, restarted with the context. */
  datatype App = App(phase: Phase, cache: C.Cache, link: Link, stream: seq<Rec>, batches: seq<seq<Rec>>)

  const NO_CONTEXT := App(Absent, C.EMPTY_CACHE, Quiet, [], [])

  /** `handed` is history: which record was returned by a call to receive to which client. */
  datatype World = World(reader: State, apps: map<Ident, App>, clock: nat, handed: set<(Ident, Rec)>)

  /** The configuration: record layout and reader limits. */
  datatype Setup = Setup(lay: Layout, cfg: Config) {
    predicate Valid() {
      lay.Valid() && cfg.Valid()
    }
  }

  datatype Event =
    | Start(id: Ident, flags: nat, mdtname: Bytes, startrec: int)
    | Recv(id: Ident)
    | Clear(id: Ident, mdtname: Bytes, clreader: Bytes, endrec: int)
    | Fini(id: Ident)
    | Serve(id: Ident, up: Upstream)
    | Deliver(id: Ident)
    | Read(startRc: int, feed: seq<Rec>, last: EndCode)
    | Tick(nanos: nat)

  /** Upstream records are self-describing. */
  predicate Admissible(env: Setup, e: Event) {
    e.Read? ==> AllDescribed(env.lay, e.feed)
  }

  function AppOf(w: World, id: Ident): App {
    if id in w.apps then w.apps[id] else NO_CONTEXT
  }

  function Now(w: World): Timespec {
    Timespec(w.clock / NSEC_PER_SEC, w.clock % NSEC_PER_SEC)
  }

  function WithApp(w: World, id: Ident, a: App): World {
    w.(apps := w.apps[id := a])
  }

  /** A record is returned to the application. */
  function Hand(w: World, id: Ident, a: App, r: Rec): World {
    WithApp(w, id, a.(stream := a.stream + [r])).(handed := w.handed + {(id, r)})
  }

  function ApplyRecv(w: World, id: Ident): World {
    var a := AppOf(w, id);
    if C.Exhausted(a.cache) then WithApp(w, id, a.(phase := Receiving, link := Asking(DequeueMsg())))
    else
      match C.Take(a.cache)
      case (cache, Got(r)) => Hand(w, id, a.(cache := cache), r)
      case _ => w
  }

  /** The reader processes the request in flight; its reply goes back. */
  function ApplyServe(w: World, id: Ident, up: Upstream): World
    requires AppOf(w, id).link.Asking?
  {
    var a := AppOf(w, id);
    var t := Dispatch(w.reader, id, a.link.body, Now(w), up);
    var reply := if t.outbox == [] then [] else t.outbox[|t.outbox| - 1].body;
    WithApp(w.(reader := t), id, a.(link := Answering(reply)))
  }

  /** The client gets the reply in flight. */
  function ApplyDeliver(env: Setup, w: World, id: Ident): World
    requires AppOf(w, id).link.Answering?
  {
    var a := AppOf(w, id);
    var body := a.link.body;
    match a.phase
    case Starting =>
      WithApp(w, id, if C.AckCode(body) < 0 then NO_CONTEXT else a.(phase := Idle, link := Quiet))
    case Finishing =>
      WithApp(w, id, if C.AckCode(body) < 0 then a.(phase := Idle, link := Quiet) else NO_CONTEXT)
    case Receiving =>
      var reply := C.Decode(env.lay, body);
      var (cache, out) := C.Absorb(env.lay, a.cache, body);
      var b := a.(phase := Idle, link := Quiet, cache := cache,
                  batches := if reply.Batch? then a.batches + [reply.recs] else a.batches);
      if out.Got? then Hand(w, id, b, out.rec) else WithApp(w, id, b)
    case _ => WithApp(w, id, a.(phase := Idle, link := Quiet))
  }

  /** One step; an event that is not enabled changes nothing. */
  function Apply(env: Setup, w: World, e: Event): World {
    match e
    case Start(id, flags, mdtname, startrec) =>
      if AppOf(w, id) == NO_CONTEXT then
        WithApp(w, id, NO_CONTEXT.(phase := Starting, link := Asking(StartMsg(flags, mdtname, startrec))))
      else w
    case Recv(id) =>
      if AppOf(w, id).phase.Idle? then ApplyRecv(w, id) else w
    case Clear(id, mdtname, clreader, endrec) =>
      var a := AppOf(w, id);
      if a.phase.Idle? && C.Exhausted(a.cache) then
        WithApp(w, id, a.(phase := Clearing, link := Asking(ClearMsg(clreader, mdtname, endrec))))
      else w
    case Fini(id) =>
      var a := AppOf(w, id);
      if a.phase.Idle? then WithApp(w, id, a.(phase := Finishing, link := Asking(FiniMsg()))) else w
    case Serve(id, up) =>
      if AppOf(w, id).link.Asking? then ApplyServe(w, id, up) else w
    case Deliver(id) =>
      if AppOf(w, id).link.Answering? then ApplyDeliver(env, w, id) else w
    case Read(startRc, feed, last) => w.(reader := Intake(w.reader, startRc, feed, last).0)
    case Tick(nanos) => w.(clock := w.clock + nanos)
  }

  function Begin(env: Setup): World {
    World(Init(env.cfg), map[], 0, {})
  }

  function Runs(env: Setup, events: seq<Event>): World
    decreases |events|
  {
    if events == [] then Begin(env)
    else
      var n := |events| - 1;
      Apply(env, Runs(env, events[..n]), events[n])
  }

  ghost predicate AllAdmissible(env: Setup, events: seq<Event>) {
    forall n :: 0 <= n < |events| ==> Admissible(env, events[n])
  }

  // ---------------------------------------------------------------- the invariant

  ghost predicate WholeHanded(handed: set<(Ident, Rec)>, id: Ident, recs: seq<Rec>) {
    forall r :: r in recs ==> (id, r) in handed
  }

  /** The reply that carries the batch fits the client's reception buffer; its length is known from
      `lrb_size` before it is packed. */
  predicate Fits(recs: seq<Rec>) {
    |EnqueueMsg(recs)| <= C.RECV_BUFFER_LENGTH
  }

  /** A batch the client will decode, if it fits. */
  ghost predicate Deliverable(env: Setup, recs: seq<Rec>) {
    recs != [] && |recs| < TWO_32 && AllDescribed(env.lay, recs)
  }

  /** A message that carries a batch the reader has closed. */
  ghost predicate Carries(env: Setup, s: State, body: Bytes) {
    exists recs :: recs in Closed(s) && Deliverable(env, recs) && body == EnqueueMsg(recs)
  }

  /** A closed batch a client can receive. */
  ghost predicate Receivable(s: State, recs: seq<Rec>) {
    recs in Closed(s) && Fits(recs)
  }

  ghost predicate FromReceivable(s: State, r: Rec) {
    exists recs :: Receivable(s, recs) && r in recs
  }

  predicate IsBatch(body: Bytes) {
    |body| >= HEADER_SIZE && OpType(body) == OP_ENQUEUE
  }

  predicate IsRefusal(body: Bytes) {
    body == AckMsg(1) || body == AckMsg(-EPROTO)
  }

  /** What the client has in its cache was handed out up to its cursor; what it returned is what it
      accepted, less what is left in the cache; and it accepted batches of the reader's. */
  ghost predicate CacheInv(s: State, id: Ident, a: App, handed: set<(Ident, Rec)>) {
    && C.InBounds(a.cache)
    && (forall i :: 0 <= i < a.cache.next ==> (id, a.cache.recs[i]) in handed)
    && a.stream + a.cache.recs[a.cache.next..] == Flatten(a.batches)
    && (a.cache.recs == [] || Receivable(s, a.cache.recs))
    && (forall b :: b in a.batches ==> Receivable(s, b))
  }

  /** Lockstep: what is in flight fits the phase, and the reader knows the client in between its
      START and its FINI. */
  ghost predicate LinkInv(env: Setup, s: State, a: App, known: bool, owned: Option<nat>) {
    match a.phase
    case Absent => a == NO_CONTEXT && !known
    case Starting =>
      && a.cache == C.EMPTY_CACHE
      && ((a.link.Asking? && !known && |a.link.body| >= START_SIZE && OpType(a.link.body) == OP_START)
          || (a.link == Answering(AckMsg(0)) && known && owned.None?))
    case Idle => a.link == Quiet && known
    case Receiving =>
      && known && C.Exhausted(a.cache)
      && (a.link == Asking(DequeueMsg())
          || (a.link.Answering? && IsRefusal(a.link.body))
          || (a.link.Answering? && IsBatch(a.link.body) && Carries(env, s, a.link.body)))
    case Clearing =>
      && known && C.Exhausted(a.cache)
      && ((a.link.Asking? && |a.link.body| >= CLEAR_SIZE && OpType(a.link.body) == OP_CLEAR)
          || (a.link.Answering? && owned.None?))
    case Finishing =>
      || (a.link == Asking(FiniMsg()) && known)
      || (a.link == Answering(AckMsg(0)) && !known)
  }

  /** The client holds `recs`: in the reply on its way, or, if it can, as its cached batch. */
  ghost predicate Holds(a: App, recs: seq<Rec>) {
    if a.phase.Receiving? && a.link.Answering? && IsBatch(a.link.body) then a.link.body == EnqueueMsg(recs)
    else Fits(recs) ==> a.cache.recs == recs
  }

  /** The agreement: what the reader believes a client to be processing is what that client holds. */
  ghost predicate Agrees(s: State, id: Ident, a: App) {
    Owned(s, id).Some? ==>
      Owned(s, id).value < |Closed(s)| && Holds(a, Closed(s)[Owned(s, id).value])
  }

  ghost predicate AppInv(env: Setup, w: World, id: Ident) {
    var a := AppOf(w, id);
    && CacheInv(w.reader, id, a, w.handed)
    && LinkInv(env, w.reader, a, Registered(w.reader, id), Owned(w.reader, id))
    && Agrees(w.reader, id, a)
  }

  /** Every acknowledged batch that a client can receive was entirely handed to one. */
  ghost predicate AckedInv(s: State, handed: set<(Ident, Rec)>) {
    forall x: nat :: Acked(s, x) ==> SomeoneHanded(s, handed, x)
  }

  ghost predicate HandedToOne(handed: set<(Ident, Rec)>, recs: seq<Rec>) {
    exists id :: WholeHanded(handed, id, recs)
  }

  ghost predicate SomeoneHanded(s: State, handed: set<(Ident, Rec)>, x: nat) {
    x < |Closed(s)| && (Fits(Closed(s)[x]) ==> HandedToOne(handed, Closed(s)[x]))
  }

  /** What was handed out came in batches a client can receive. */
  ghost predicate HandedInv(s: State, handed: set<(Ident, Rec)>) {
    forall p :: p in handed ==> FromReceivable(s, p.1)
  }

  /** A record the reader accepted, or is about to be offered. */
  ghost predicate Known(s: State, r: Rec) {
    r in Accepted(s) || (s.session.Some? && r in s.session.value.pending)
  }

  ghost predicate RecordsGood(env: Setup, s: State) {
    forall r :: Known(s, r) ==> env.lay.Describes(r)
  }

  ghost predicate WorldInv(env: Setup, w: World) {
    && Reachable(w.reader) && w.reader.cfg == env.cfg
    && RecordsGood(env, w.reader)
    && AckedInv(w.reader, w.handed)
    && HandedInv(w.reader, w.handed)
    && forall id :: AppInv(env, w, id)
  }

  // ---------------------------------------------------------------- steps of the applications

  /** A step in which only client `id` moves, handing out at most more records. */
  lemma AppStep(env: Setup, w: World, v: World, id: Ident)
    requires WorldInv(env, w) && v.reader == w.reader && w.handed <= v.handed
    requires forall other :: other != id ==> AppOf(v, other) == AppOf(w, other)
    requires AppInv(env, v, id) && HandedInv(w.reader, v.handed)
    ensures WorldInv(env, v)
  {
    forall other
      ensures AppInv(env, v, other)
    {
      assert AppInv(env, w, other);
    }
    MoreHanded(w.reader, w.handed, v.handed);
  }

  lemma MoreHanded(s: State, handed: set<(Ident, Rec)>, more: set<(Ident, Rec)>)
    requires AckedInv(s, handed) && handed <= more
    ensures AckedInv(s, more)
  {
    forall x: nat | Acked(s, x)
      ensures SomeoneHanded(s, more, x)
    {
      assert SomeoneHanded(s, handed, x);
      if Fits(Closed(s)[x]) {
        var id :| WholeHanded(handed, id, Closed(s)[x]);
        assert WholeHanded(more, id, Closed(s)[x]);
      }
    }
  }

  lemma StartStep(env: Setup, w: World, id: Ident, flags: nat, mdtname: Bytes, startrec: int)
    requires WorldInv(env, w)
    ensures WorldInv(env, Apply(env, w, Start(id, flags, mdtname, startrec)))
  {
    if AppOf(w, id) == NO_CONTEXT {
      var v := Apply(env, w, Start(id, flags, mdtname, startrec));
      assert AppInv(env, w, id);
      StartOp(flags, mdtname, startrec);
      AppStep(env, w, v, id);
    }
  }

  lemma RecvStep(env: Setup, w: World, id: Ident)
    requires WorldInv(env, w)
    ensures WorldInv(env, Apply(env, w, Recv(id)))
  {
    var a := AppOf(w, id);
    if a.phase.Idle? {
      var v := Apply(env, w, Recv(id));
      assert AppInv(env, w, id);
      if !C.Exhausted(a.cache) {
        TakeStep(env, w, id);
      }
      AppStep(env, w, v, id);
    }
  }

  /** A call to receive that finds a record in the cache. */
  lemma TakeStep(env: Setup, w: World, id: Ident)
    requires WorldInv(env, w) && AppOf(w, id).phase.Idle? && !C.Exhausted(AppOf(w, id).cache)
    ensures var v := ApplyRecv(w, id);
      v.reader == w.reader && w.handed <= v.handed && AppInv(env, v, id) && HandedInv(w.reader, v.handed)
  {
    assert AppInv(env, w, id);
    TakeCache(w.reader, id, AppOf(w, id), w.handed);
  }

  lemma TakeCache(s: State, id: Ident, a: App, handed: set<(Ident, Rec)>)
    requires CacheInv(s, id, a, handed) && !C.Exhausted(a.cache)
    ensures var n := a.cache.next;
      var r := a.cache.recs[n];
      && CacheInv(s, id, a.(cache := a.cache.(next := n + 1), stream := a.stream + [r]), handed + {(id, r)})
      && FromReceivable(s, r)
  {
    var n := a.cache.next;
    assert a.cache.recs[n..] == [a.cache.recs[n]] + a.cache.recs[n + 1..];
  }

  lemma ClearStep(env: Setup, w: World, id: Ident, mdtname: Bytes, clreader: Bytes, endrec: int)
    requires WorldInv(env, w)
    ensures WorldInv(env, Apply(env, w, Event.Clear(id, mdtname, clreader, endrec)))
  {
    var a := AppOf(w, id);
    if a.phase.Idle? && C.Exhausted(a.cache) {
      assert AppInv(env, w, id);
      ClearOp(clreader, mdtname, endrec);
      AppStep(env, w, Apply(env, w, Event.Clear(id, mdtname, clreader, endrec)), id);
    }
  }

  lemma FiniStep(env: Setup, w: World, id: Ident)
    requires WorldInv(env, w)
    ensures WorldInv(env, Apply(env, w, Fini(id)))
  {
    if AppOf(w, id).phase.Idle? {
      assert AppInv(env, w, id);
      AppStep(env, w, Apply(env, w, Fini(id)), id);
    }
  }

  /** A batch that fits is determined by the message that carries it. */
  lemma BatchIs(env: Setup, xs: seq<Rec>, ys: seq<Rec>)
    requires env.Valid() && Deliverable(env, xs) && Deliverable(env, ys) && EnqueueMsg(xs) == EnqueueMsg(ys)
    requires Fits(xs)
    ensures xs == ys
  {
    C.BatchDecodes(env.lay, xs);
    C.BatchDecodes(env.lay, ys);
  }

  /** Closed batches of good records are deliverable. */
  lemma ClosedDeliverable(env: Setup, s: State, x: nat)
    requires env.Valid() && Inv(s) && s.cfg == env.cfg && RecordsGood(env, s) && x < |Closed(s)|
    requires Closed(s)[x] != [] && |Closed(s)[x]| <= s.cfg.batch
    ensures Deliverable(env, Closed(s)[x])
  {
    var recs := Closed(s)[x];
    assert recs == Batches(s)[x];
    forall i | 0 <= i < |recs|
      ensures env.lay.Describes(recs[i])
    {
      FlattenMember(Batches(s), x, recs[i]);
      assert Known(s, recs[i]);
    }
  }

  /** Closed batches stay, and with them what was received or handed out. */
  lemma ReceivableStays(s: State, t: State)
    requires Closed(s) <= Closed(t)
    ensures forall recs :: Receivable(s, recs) ==> Receivable(t, recs)
    ensures forall r :: FromReceivable(s, r) ==> FromReceivable(t, r)
  {
    assert forall recs :: recs in Closed(s) ==> recs in Closed(t);
  }

  lemma CarriesStays(env: Setup, s: State, t: State, body: Bytes)
    requires Closed(s) <= Closed(t) && Carries(env, s, body)
    ensures Carries(env, t, body)
  {
    var recs :| recs in Closed(s) && Deliverable(env, recs) && body == EnqueueMsg(recs);
    assert recs in Closed(t);
  }

  // ---------------------------------------------------------------- steps of the reader

  lemma AckedStep(s: State, t: State, handed: set<(Ident, Rec)>)
    requires AckedInv(s, handed) && Closed(s) <= Closed(t)
    requires forall x: nat :: Acked(t, x) ==> Acked(s, x) || SomeoneHanded(s, handed, x)
    ensures AckedInv(t, handed)
  {
    forall x: nat | Acked(t, x)
      ensures SomeoneHanded(t, handed, x)
    {
      assert SomeoneHanded(s, handed, x);
      assert Closed(t)[x] == Closed(s)[x];
    }
  }

  /** A client that takes no part in an exchange notices nothing, except perhaps a revocation. */
  lemma BystanderStep(env: Setup, w: World, v: World, id: Ident, other: Ident)
    requires AppInv(env, w, other) && other != id && AppOf(v, other) == AppOf(w, other) && v.handed == w.handed
    requires Contained(w.reader, v.reader, id)
    ensures AppInv(env, v, other)
  {
    var s, t, a := w.reader, v.reader, AppOf(w, other);
    ReceivableStays(s, t);
    if a.phase.Receiving? && a.link.Answering? && IsBatch(a.link.body) && !IsRefusal(a.link.body) {
      CarriesStays(env, s, t, a.link.body);
    }
    if Owned(t, other).Some? {
      assert Owned(t, other) == Owned(s, other);
      assert Closed(t)[Owned(s, other).value] == Closed(s)[Owned(s, other).value];
    }
  }

  /** An exchange with client `id` keeps the invariant, provided it does so for `id` and the batches
      it acknowledges were handed to somebody. */
  lemma ExchangeStep(env: Setup, w: World, id: Ident, up: Upstream)
    requires WorldInv(env, w) && AppOf(w, id).link.Asking?
    requires var v := ApplyServe(w, id, up);
      && Contained(w.reader, v.reader, id) && AppInv(env, v, id)
      && (forall x: nat :: Acked(v.reader, x) ==> Acked(w.reader, x) || SomeoneHanded(w.reader, w.handed, x))
    ensures WorldInv(env, ApplyServe(w, id, up))
  {
    var v := ApplyServe(w, id, up);
    ReachableStep(w.reader, Message(id, AppOf(w, id).link.body, Now(w), up));
    AckedStep(w.reader, v.reader, w.handed);
    ReceivableStays(w.reader, v.reader);
    forall other | other != id
      ensures AppInv(env, v, other)
    {
      BystanderStep(env, w, v, id, other);
    }
  }

  lemma ServeStart(env: Setup, w: World, id: Ident, up: Upstream)
    requires WorldInv(env, w) && AppOf(w, id).link.Asking? && AppOf(w, id).phase.Starting?
    ensures WorldInv(env, ApplyServe(w, id, up))
  {
    assert AppInv(env, w, id);
    StartExchange(w.reader, id, AppOf(w, id).link.body, Now(w), up);
    assert Owned(w.reader, id).None?;
    ExchangeStep(env, w, id, up);
  }

  lemma ServeFini(env: Setup, w: World, id: Ident, up: Upstream)
    requires WorldInv(env, w) && AppOf(w, id).link.Asking? && AppOf(w, id).phase.Finishing?
    ensures WorldInv(env, ApplyServe(w, id, up))
  {
    assert AppInv(env, w, id);
    ShortOps();
    FiniExchange(w.reader, id, AppOf(w, id).link.body, Now(w), up);
    ExchangeStep(env, w, id, up);
  }

  lemma ServeDequeue(env: Setup, w: World, id: Ident, up: Upstream)
    requires env.Valid() && WorldInv(env, w) && AppOf(w, id).link.Asking? && AppOf(w, id).phase.Receiving?
    ensures WorldInv(env, ApplyServe(w, id, up))
  {
    assert AppInv(env, w, id);
    ShortOps();
    DequeueExchange(w.reader, id, AppOf(w, id).link.body, Now(w), up);
    DequeuerStep(env, w, id, up);
    ExchangeStep(env, w, id, up);
  }

  /** The reply to a DEQUEUE is a refusal, or carries what the reader now believes the client holds. */
  lemma DequeuerStep(env: Setup, w: World, id: Ident, up: Upstream)
    requires env.Valid() && WorldInv(env, w) && AppOf(w, id).link.Asking? && AppOf(w, id).phase.Receiving?
    ensures AppInv(env, ApplyServe(w, id, up), id)
  {
    var s, a, v := w.reader, AppOf(w, id), ApplyServe(w, id, up);
    assert AppInv(env, w, id);
    ShortOps();
    DequeueAnswers(env, s, id, a.link.body, Now(w), up);
    ReceivableStays(s, v.reader);
    assert CacheInv(v.reader, id, AppOf(v, id), v.handed);
  }

  ghost predicate DequeueReply(env: Setup, s: State, t: State, id: Ident, reply: Bytes) {
    var x := Owned(t, id);
    if IsBatch(reply) then
      Carries(env, t, reply) && x.Some? && x.value < |Closed(t)| && reply == EnqueueMsg(Closed(t)[x.value])
    else
      IsRefusal(reply) && x == Owned(s, id)
  }

  lemma DequeueAnswers(env: Setup, s: State, id: Ident, body: Bytes, now: Timespec, up: Upstream)
    requires env.Valid() && Reachable(s) && s.cfg == env.cfg && RecordsGood(env, s)
    requires |body| >= HEADER_SIZE && OpType(body) == OP_DEQUEUE && Registered(s, id)
    ensures var t := Dispatch(s, id, body, now, up);
      && t.outbox != [] && Registered(t, id) && Closed(s) <= Closed(t)
      && DequeueReply(env, s, t, id, t.outbox[|t.outbox| - 1].body)
  {
    var t := Dispatch(s, id, body, now, up);
    DequeueExchange(s, id, body, now, up);
    ReplyOps(1, []);
    ReplyOps(-EPROTO, []);
    if Owned(s, id).None? && Owned(t, id).Some? {
      var recs := Closed(t)[Owned(t, id).value];
      ReplyOps(0, recs);
      ReachableInv(s);
      DispatchInv(s, id, body, now, up);
      ClosedDeliverable(env, t, Owned(t, id).value);
      assert recs in Closed(t);
    }
  }

  /** The only batch a CLEAR can acknowledge is the one its sender holds, all of which the sender
      has been handed by then if it could receive it. */
  lemma ServeClear(env: Setup, w: World, id: Ident, up: Upstream)
    requires WorldInv(env, w) && AppOf(w, id).link.Asking? && AppOf(w, id).phase.Clearing?
    ensures WorldInv(env, ApplyServe(w, id, up))
    ensures forall x: nat :: Acked(ApplyServe(w, id, up).reader, x) && !Acked(w.reader, x) ==>
      x < |Closed(w.reader)| && (Fits(Closed(w.reader)[x]) ==> WholeHanded(w.handed, id, Closed(w.reader)[x]))
  {
    var s, a := w.reader, AppOf(w, id);
    assert AppInv(env, w, id);
    ClearExchange(s, id, a.link.body, Now(w), up);
    ClearerHanded(s, id, a, w.handed);
    ClearerStep(env, w, id, up);
    ExchangeStep(env, w, id, up);
  }

  /** A client that holds nothing more in its cache has handed out all of what it owns. */
  lemma ClearerHanded(s: State, id: Ident, a: App, handed: set<(Ident, Rec)>)
    requires CacheInv(s, id, a, handed) && Agrees(s, id, a) && a.phase.Clearing? && C.Exhausted(a.cache)
    ensures Owned(s, id).Some? ==>
      && Owned(s, id).value < |Closed(s)| && SomeoneHanded(s, handed, Owned(s, id).value)
      && (Fits(Closed(s)[Owned(s, id).value]) ==> WholeHanded(handed, id, Closed(s)[Owned(s, id).value]))
  {
    assert WholeHanded(handed, id, a.cache.recs);
  }

  /** After the exchange, the client owns nothing and waits for its reply. */
  lemma ClearerStep(env: Setup, w: World, id: Ident, up: Upstream)
    requires AppInv(env, w, id) && AppOf(w, id).link.Asking? && AppOf(w, id).phase.Clearing?
    requires var t := ApplyServe(w, id, up).reader;
      Closed(w.reader) <= Closed(t) && Registered(t, id) && Owned(t, id).None?
    ensures AppInv(env, ApplyServe(w, id, up), id)
  {
    ReceivableStays(w.reader, ApplyServe(w, id, up).reader);
  }

  lemma ServeStep(env: Setup, w: World, id: Ident, up: Upstream)
    requires env.Valid() && WorldInv(env, w)
    ensures WorldInv(env, Apply(env, w, Serve(id, up)))
  {
    assert AppInv(env, w, id);
    if AppOf(w, id).link.Asking? {
      match AppOf(w, id).phase
      case Starting => ServeStart(env, w, id, up);
      case Receiving => ServeDequeue(env, w, id, up);
      case Clearing => ServeClear(env, w, id, up);
      case Finishing => ServeFini(env, w, id, up);
    }
  }

  // ---------------------------------------------------------------- replies

  /** The cache after a batch was accepted and its first record returned. */
  ghost predicate Accepts(env: Setup, s: State, body: Bytes, cache: C.Cache, out: C.Outcome) {
    && cache.recs != [] && cache.next == 1 && out == C.Got(cache.recs[0])
    && C.Decode(env.lay, body) == C.Batch(cache.recs)
    && Deliverable(env, cache.recs) && body == EnqueueMsg(cache.recs) && Receivable(s, cache.recs)
  }

  /** A client gets the reply to its DEQUEUE, which never makes it read out of bounds: a batch is
      accepted exactly when it fits, anything else is a code and leaves the cache alone. */
  lemma ReceiveReply(env: Setup, w: World, id: Ident)
    requires env.Valid() && WorldInv(env, w)
    requires AppOf(w, id).phase.Receiving? && AppOf(w, id).link.Answering?
    ensures var a := AppOf(w, id);
      var (cache, out) := C.Absorb(env.lay, a.cache, a.link.body);
      if IsBatch(a.link.body) && |a.link.body| <= C.RECV_BUFFER_LENGTH then Accepts(env, w.reader, a.link.body, cache, out)
      else cache == a.cache && out.Code? && !C.Decode(env.lay, a.link.body).Batch?
  {
    var a := AppOf(w, id);
    assert AppInv(env, w, id);
    C.AckDecodes(env.lay, 1);
    C.AckDecodes(env.lay, -EPROTO);
    ReplyOps(1, []);
    ReplyOps(-EPROTO, []);
    if IsBatch(a.link.body) {
      var recs :| recs in Closed(w.reader) && Deliverable(env, recs) && a.link.body == EnqueueMsg(recs);
      C.BatchDecodes(env.lay, recs);
    }
  }

  lemma DeliverBatch(env: Setup, w: World, id: Ident)
    requires env.Valid() && WorldInv(env, w)
    requires AppOf(w, id).phase.Receiving? && AppOf(w, id).link.Answering?
    ensures WorldInv(env, ApplyDeliver(env, w, id))
  {
    var a, v := AppOf(w, id), ApplyDeliver(env, w, id);
    assert AppInv(env, w, id);
    ReceiveReply(env, w, id);
    if IsBatch(a.link.body) {
      if |a.link.body| <= C.RECV_BUFFER_LENGTH {
        AcceptBatch(env, w, id);
      } else {
        RefuseBatch(env, w, id);
      }
    }
    AppStep(env, w, v, id);
  }

  lemma AcceptBatch(env: Setup, w: World, id: Ident)
    requires env.Valid() && WorldInv(env, w)
    requires var a := AppOf(w, id);
      && a.phase.Receiving? && a.link.Answering? && IsBatch(a.link.body)
      && |a.link.body| <= C.RECV_BUFFER_LENGTH
    ensures AppInv(env, ApplyDeliver(env, w, id), id)
    ensures HandedInv(w.reader, ApplyDeliver(env, w, id).handed)
  {
    var s, a, v := w.reader, AppOf(w, id), ApplyDeliver(env, w, id);
    assert AppInv(env, w, id);
    ReceiveReply(env, w, id);
    var b := AppOf(v, id);
    StreamGrows(a, b);
    assert FromReceivable(s, b.cache.recs[0]);
    AcceptedAgrees(env, w, id, b);
  }

  lemma AcceptedAgrees(env: Setup, w: World, id: Ident, b: App)
    requires env.Valid() && WorldInv(env, w)
    requires var a := AppOf(w, id);
      && a.phase.Receiving? && a.link.Answering? && IsBatch(a.link.body)
      && Deliverable(env, b.cache.recs) && Fits(b.cache.recs) && a.link.body == EnqueueMsg(b.cache.recs)
    requires b.phase.Idle?
    ensures Agrees(w.reader, id, b)
  {
    var s := w.reader;
    assert AppInv(env, w, id);
    if Owned(s, id).Some? {
      ReachableInv(s);
      OwnedDeliverable(env, s, id);
      BatchIs(env, b.cache.recs, Closed(s)[Owned(s, id).value]);
    }
  }

  /** A batch that does not fit is dropped: the client has nothing to show for it. */
  lemma RefuseBatch(env: Setup, w: World, id: Ident)
    requires env.Valid() && WorldInv(env, w)
    requires var a := AppOf(w, id);
      && a.phase.Receiving? && a.link.Answering? && IsBatch(a.link.body)
      && |a.link.body| > C.RECV_BUFFER_LENGTH
    ensures AppInv(env, ApplyDeliver(env, w, id), id)
    ensures HandedInv(w.reader, ApplyDeliver(env, w, id).handed)
  {
    assert AppInv(env, w, id);
    ReceiveReply(env, w, id);
  }

  lemma StreamGrows(a: App, b: App)
    requires C.Exhausted(a.cache) && a.stream + a.cache.recs[a.cache.next..] == Flatten(a.batches)
    requires b.cache.recs != [] && b.cache.next == 1
    requires b.stream == a.stream + [b.cache.recs[0]] && b.batches == a.batches + [b.cache.recs]
    ensures b.stream + b.cache.recs[b.cache.next..] == Flatten(b.batches)
  {
    FlattenSnoc(a.batches, b.cache.recs);
    assert b.cache.recs == [b.cache.recs[0]] + b.cache.recs[1..];
    assert a.cache.recs[a.cache.next..] == [];
  }

  /** What a client owns is deliverable. */
  lemma OwnedDeliverable(env: Setup, s: State, id: Ident)
    requires env.Valid() && Inv(s) && s.cfg == env.cfg && RecordsGood(env, s) && Owned(s, id).Some?
    ensures Owned(s, id).value < |Closed(s)| && Deliverable(env, Closed(s)[Owned(s, id).value])
  {
    var x := Owned(s, id).value;
    assert Outstanding(s, x);
    assert Closed(s)[x] == s.buckets[x - |s.trimmed|].recs;
    ClosedDeliverable(env, s, x);
  }

  lemma DeliverStep(env: Setup, w: World, id: Ident)
    requires env.Valid() && WorldInv(env, w)
    ensures WorldInv(env, Apply(env, w, Deliver(id)))
  {
    var a := AppOf(w, id);
    if a.link.Answering? {
      if a.phase.Receiving? {
        DeliverBatch(env, w, id);
      } else {
        DeliverAck(env, w, id);
        AppStep(env, w, ApplyDeliver(env, w, id), id);
      }
    }
  }

  lemma DeliverAck(env: Setup, w: World, id: Ident)
    requires AppInv(env, w, id) && AppOf(w, id).link.Answering? && !AppOf(w, id).phase.Receiving?
    ensures var v := ApplyDeliver(env, w, id);
      v.reader == w.reader && v.handed == w.handed && AppInv(env, v, id)
  {
    C.AckDecodes(env.lay, 0);
    assert CacheInv(w.reader, id, NO_CONTEXT, w.handed);
  }

  // ---------------------------------------------------------------- intake, and the whole run

  /** Every record known after an intake was known before or comes from the new session. */
  lemma IntakeSources(s: State, startRc: int, feed: seq<Rec>, last: EndCode)
    ensures forall r :: Known(Intake(s, startRc, feed, last).0, r) ==> Known(s, r) || r in feed
  {
    var t := Intake(s, startRc, feed, last).0;
    if !Full(s) && (s.session.Some? || startRc == 0) {
      var pending := if s.session.Some? then s.session.value.pending else feed;
      PullSources(s, pending, 0);
      assert Batches(t) == Batches(Pull(s, pending, 0).0);
    }
  }

  lemma ReadStep(env: Setup, w: World, startRc: int, feed: seq<Rec>, last: EndCode)
    requires WorldInv(env, w) && AllDescribed(env.lay, feed)
    ensures WorldInv(env, Apply(env, w, Event.Read(startRc, feed, last)))
  {
    var s, v := w.reader, Apply(env, w, Event.Read(startRc, feed, last));
    var t := v.reader;
    ReachableStep(s, ReaderModel.Event.Read(startRc, feed, last));
    IntakeContained(s, startRc, feed, last);
    IntakeSources(s, startRc, feed, last);
    AckedStep(s, t, w.handed);
    ReceivableStays(s, t);
    forall id
      ensures AppInv(env, v, id)
    {
      ReadUnnoticed(env, w, v, id);
    }
  }

  lemma ReadUnnoticed(env: Setup, w: World, v: World, id: Ident)
    requires AppInv(env, w, id) && AppOf(v, id) == AppOf(w, id) && v.handed == w.handed
    requires Closed(w.reader) <= Closed(v.reader) && v.reader.peers == w.reader.peers
    ensures AppInv(env, v, id)
  {
    var s, t, a := w.reader, v.reader, AppOf(w, id);
    ReceivableStays(s, t);
    if a.phase.Receiving? && a.link.Answering? && !IsRefusal(a.link.body) {
      CarriesStays(env, s, t, a.link.body);
    }
    if Owned(s, id).Some? {
      assert Closed(t)[Owned(s, id).value] == Closed(s)[Owned(s, id).value];
    }
  }

  lemma ApplyStep(env: Setup, w: World, e: Event)
    requires env.Valid() && WorldInv(env, w) && Admissible(env, e)
    ensures WorldInv(env, Apply(env, w, e))
  {
    match e
    case Start(id, flags, mdtname, startrec) => StartStep(env, w, id, flags, mdtname, startrec);
    case Recv(id) => RecvStep(env, w, id);
    case Clear(id, mdtname, clreader, endrec) => ClearStep(env, w, id, mdtname, clreader, endrec);
    case Fini(id) => FiniStep(env, w, id);
    case Serve(id, up) => ServeStep(env, w, id, up);
    case Deliver(id) => DeliverStep(env, w, id);
    case Read(startRc, feed, last) => ReadStep(env, w, startRc, feed, last);
    case Tick(nanos) =>
      forall id
        ensures AppInv(env, Apply(env, w, e), id)
      {
        assert AppInv(env, w, id);
      }
  }

  lemma BeginInv(env: Setup)
    requires env.Valid()
    ensures WorldInv(env, Begin(env))
  {
    var s := Init(env.cfg);
    ReachableInit(env.cfg);
    assert Batches(s) == [[]];
    FlattenOne<Rec>([]);
  }

  /** The invariant holds in every reachable state of the whole system. */
  lemma {:induction false} RunsInv(env: Setup, events: seq<Event>)
    requires env.Valid() && AllAdmissible(env, events)
    ensures WorldInv(env, Runs(env, events))
    decreases |events|
  {
    if events == [] {
      BeginInv(env);
    } else {
      var n := |events| - 1;
      RunsInv(env, events[..n]);
      ApplyStep(env, Runs(env, events[..n]), events[n]);
    }
  }

  /** Some call to receive returned the record to some client. */
  ghost predicate Returned(handed: set<(Ident, Rec)>, r: Rec) {
    exists id :: (id, r) in handed
  }

  // ---------------------------------------------------------------- what is acknowledged was handed out

  /** A record belongs to one batch only. */
  lemma OneBatch(xs: seq<seq<Rec>>, i: nat, j: nat, r: Rec)
    requires Increasing(Flatten(xs)) && i < j < |xs| && r in xs[i]
    ensures r !in xs[j]
  {
    BatchesSplit(xs, j);
    var front, back := Flatten(xs[..j]), Flatten(xs[j..]);
    FlattenMember(xs[..j], i, r);
    forall e | e in xs[j]
      ensures e in back
    {
      FlattenMember(xs[j..], 0, e);
    }
    FrontBelow(front, back, r);
  }

  lemma FrontBelow(front: seq<Rec>, back: seq<Rec>, r: Rec)
    requires Increasing(front + back) && r in front
    ensures r !in back
  {
    var all := front + back;
    var a :| 0 <= a < |front| && front[a] == r;
    forall b | 0 <= b < |back|
      ensures back[b] != r
    {
      assert all[a].index < all[|front| + b].index;
    }
  }

  lemma BatchesSplit(xs: seq<seq<Rec>>, j: nat)
    requires j <= |xs|
    ensures Flatten(xs) == Flatten(xs[..j]) + Flatten(xs[j..])
  {
    assert xs == xs[..j] + xs[j..];
    FlattenConcat(xs[..j], xs[j..]);
  }

  /** No record of a batch that does not fit is ever handed out. */
  lemma OversizedNotHanded(s: State, handed: set<(Ident, Rec)>, x: nat, r: Rec)
    requires LogInv(s) && HandedInv(s, handed) && x < |Closed(s)| && !Fits(Closed(s)[x]) && r in Closed(s)[x]
    ensures !Returned(handed, r)
  {
    if Returned(handed, r) {
      var id :| (id, r) in handed;
      assert FromReceivable(s, (id, r).1);
      var recs :| Receivable(s, recs) && r in recs;
      var y :| 0 <= y < |Closed(s)| && Closed(s)[y] == recs;
      if x < y {
        OneBatch(Batches(s), x, y, r);
      } else if y < x {
        OneBatch(Batches(s), y, x, r);
      }
    }
  }

  lemma AckedNonempty(s: State, x: nat)
    requires ListInv(s) && LogInv(s) && Acked(s, x)
    ensures x < |Closed(s)| && Closed(s)[x] != []
  {
  }

  /** The exact condition, for one acknowledged batch. */
  lemma AckedHandedIffFits(s: State, handed: set<(Ident, Rec)>, x: nat)
    requires Inv(s) && AckedInv(s, handed) && HandedInv(s, handed) && Acked(s, x)
    ensures x < |Closed(s)|
    ensures HandedToOne(handed, Closed(s)[x]) <==> Fits(Closed(s)[x])
    ensures !Fits(Closed(s)[x]) ==> forall r :: r in Closed(s)[x] ==> !Returned(handed, r)
  {
    assert SomeoneHanded(s, handed, x);
    AckedNonempty(s, x);
    if !Fits(Closed(s)[x]) {
      forall r | r in Closed(s)[x]
        ensures !Returned(handed, r)
      {
        OversizedNotHanded(s, handed, x, r);
      }
      HandedReturned(handed, Closed(s)[x]);
    }
  }

  lemma HandedReturned(handed: set<(Ident, Rec)>, recs: seq<Rec>)
    requires recs != []
    ensures HandedToOne(handed, recs) ==> Returned(handed, recs[0])
  {
    if HandedToOne(handed, recs) {
      var id :| WholeHanded(handed, id, recs);
      assert (id, recs[0]) in handed;
    }
  }

  /** What acknowledgement is worth: in every reachable state of the upstream, the reader and any
      number of clients (with timeouts, rewinds, late CLEARs, FINIs in mid-batch and upstream
      failures), a batch the reader takes for acknowledged was entirely handed to one client
      exactly when the message that carried it fits the reception buffer.  Otherwise no record of
      it was handed to anybody. */
  lemma AcknowledgedIffFits(env: Setup, events: seq<Event>, x: nat)
    requires env.Valid() && AllAdmissible(env, events) && Acked(Runs(env, events).reader, x)
    ensures var w := Runs(env, events);
      && x < |Closed(w.reader)|
      && (HandedToOne(w.handed, Closed(w.reader)[x]) <==> |EnqueueMsg(Closed(w.reader)[x])| <= C.RECV_BUFFER_LENGTH)
      && (|EnqueueMsg(Closed(w.reader)[x])| > C.RECV_BUFFER_LENGTH ==>
            forall r :: r in Closed(w.reader)[x] ==> !Returned(w.handed, r))
  {
    var w := Runs(env, events);
    RunsInv(env, events);
    ReachableInv(w.reader);
    AckedHandedIffFits(w.reader, w.handed, x);
  }

  // ---------------------------------------------------------------- nothing is lost

  /** Each trimmed batch was handed entirely to one client. */
  ghost predicate BatchesHanded(s: State, handed: set<(Ident, Rec)>) {
    forall i :: 0 <= i < |s.trimmed| ==> HandedToOne(handed, s.trimmed[i])
  }

  /** Every record read, up to the last upstream clear, was returned to somebody. */
  ghost predicate NoneLost(s: State, handed: set<(Ident, Rec)>) {
    s.cleared != [] ==>
      forall r :: r in Accepted(s) && r.index <= s.cleared[|s.cleared| - 1] ==> Returned(handed, r)
  }

  ghost predicate TrimmedFit(s: State) {
    forall i :: 0 <= i < |s.trimmed| ==> Fits(s.trimmed[i])
  }

  lemma TrimmedHandedIffFits(s: State, handed: set<(Ident, Rec)>, i: nat)
    requires Inv(s) && AckedInv(s, handed) && HandedInv(s, handed) && i < |s.trimmed|
    ensures HandedToOne(handed, s.trimmed[i]) <==> Fits(s.trimmed[i])
    ensures !Fits(s.trimmed[i]) ==> forall r :: r in s.trimmed[i] ==> !Returned(handed, r)
  {
    assert Acked(s, i) && Closed(s)[i] == s.trimmed[i];
    AckedHandedIffFits(s, handed, i);
  }

  lemma BelowMarkHanded(s: State, handed: set<(Ident, Rec)>, r: Rec)
    requires Reachable(s) && AckedInv(s, handed) && HandedInv(s, handed) && TrimmedFit(s)
    requires s.cleared != [] && r in Accepted(s) && r.index <= s.cleared[|s.cleared| - 1]
    ensures Returned(handed, r)
  {
    ReachableInv(s);
    ClearsAreExact(s);
    var i := FlattenSource(s.trimmed, r);
    TrimmedHandedIffFits(s, handed, i);
    var id :| WholeHanded(handed, id, s.trimmed[i]);
    assert (id, r) in handed;
  }

  /** The other way round: a trimmed batch that does not fit is lost. */
  lemma MisfitLost(s: State, handed: set<(Ident, Rec)>, i: nat)
    requires Reachable(s) && AckedInv(s, handed) && HandedInv(s, handed)
    requires i < |s.trimmed| && !Fits(s.trimmed[i])
    ensures !NoneLost(s, handed)
  {
    ReachableInv(s);
    TrimmedHandedIffFits(s, handed, i);
    TrimmedBelowMark(s, i);
    assert !Returned(handed, s.trimmed[i][0]);
  }

  lemma TrimmedBelowMark(s: State, i: nat)
    requires Reachable(s) && i < |s.trimmed|
    ensures s.cleared != [] && s.trimmed[i] != []
    ensures var r := s.trimmed[i][0]; r in Accepted(s) && r.index <= s.cleared[|s.cleared| - 1]
  {
    ReachableInv(s);
    ClearsAreExact(s);
    FlattenMember(s.trimmed, i, s.trimmed[i][0]);
    NoDuplicates(s);
  }

  /** End to end, nothing is lost exactly when every trimmed batch fits the reception buffer: then
      every record read whose index is at or below the last upstream clear has been returned by a
      call to receive to some client, and each trimmed batch was handed entirely to one client. */
  lemma NothingLostIffFits(env: Setup, events: seq<Event>)
    requires env.Valid() && AllAdmissible(env, events)
    ensures var w := Runs(env, events);
      && (NoneLost(w.reader, w.handed) <==> TrimmedFit(w.reader))
      && (BatchesHanded(w.reader, w.handed) <==> TrimmedFit(w.reader))
  {
    var w := Runs(env, events);
    var s := w.reader;
    RunsInv(env, events);
    ReachableInv(s);
    forall i | 0 <= i < |s.trimmed|
      ensures HandedToOne(w.handed, s.trimmed[i]) <==> Fits(s.trimmed[i])
    {
      TrimmedHandedIffFits(s, w.handed, i);
    }
    if TrimmedFit(s) {
      forall r | s.cleared != [] && r in Accepted(s) && r.index <= s.cleared[|s.cleared| - 1]
        ensures Returned(w.handed, r)
      {
        BelowMarkHanded(s, w.handed, r);
      }
    } else {
      var i :| 0 <= i < |s.trimmed| && !Fits(s.trimmed[i]);
      MisfitLost(s, w.handed, i);
    }
  }

  // ---------------------------------------------------------------- configurations that lose nothing

  ghost predicate KnownBounded(s: State, limit: nat) {
    forall r :: Known(s, r) ==> |r.bytes| <= limit
  }

  /** No record the upstream yields is longer than `limit`. */
  ghost predicate AllBounded(events: seq<Event>, limit: nat) {
    forall n :: 0 <= n < |events| ==> events[n].Read? ==> forall r :: r in events[n].feed ==> |r.bytes| <= limit
  }

  lemma {:induction false} RunsBounded(env: Setup, events: seq<Event>, limit: nat)
    requires env.Valid() && AllAdmissible(env, events) && AllBounded(events, limit)
    ensures KnownBounded(Runs(env, events).reader, limit)
    decreases |events|
  {
    if events == [] {
      assert Batches(Begin(env).reader) == [[]];
      FlattenOne<Rec>([]);
    } else {
      var n := |events| - 1;
      RunsBounded(env, events[..n], limit);
      RunsInv(env, events[..n]);
      StepBounded(env, Runs(env, events[..n]), events[n], limit);
    }
  }

  /** What an event of the system is to the reader: nothing, a message or an intake. */
  lemma ReaderMoves(env: Setup, w: World, e: Event)
    ensures Apply(env, w, e).reader ==
      match e
      case Read(startRc, feed, last) => Intake(w.reader, startRc, feed, last).0
      case Serve(id, up) =>
        (var a := AppOf(w, id); if a.link.Asking? then Dispatch(w.reader, id, a.link.body, Now(w), up) else w.reader)
      case _ => w.reader
  {
  }

  lemma StepBounded(env: Setup, w: World, e: Event, limit: nat)
    requires Reachable(w.reader) && KnownBounded(w.reader, limit)
    requires e.Read? ==> forall r :: r in e.feed ==> |r.bytes| <= limit
    ensures KnownBounded(Apply(env, w, e).reader, limit)
  {
    ReaderMoves(env, w, e);
    match e
    case Read(startRc, feed, last) => IntakeSources(w.reader, startRc, feed, last);
    case Serve(id, up) => MessageKnows(w.reader, id, AppOf(w, id).link, Now(w), up);
    case _ =>
  }

  lemma MessageKnows(s: State, id: Ident, link: Link, now: Timespec, up: Upstream)
    requires Reachable(s)
    ensures link.Asking? ==> forall r :: Known(Dispatch(s, id, link.body, now, up), r) ==> Known(s, r)
  {
    if link.Asking? {
      ReachableInv(s);
      MessageKept(s, id, link.body, now, up);
    }
  }

  lemma Bounded(n: nat, batch: nat, size: nat)
    requires n <= batch
    ensures n * size <= batch * size
  {
  }

  lemma BoundedFits(s: State, limit: nat, i: nat)
    requires Reachable(s) && KnownBounded(s, limit) && i < |s.trimmed|
    requires |s.trimmed[i]| <= s.cfg.batch && ENQUEUE_SIZE + s.cfg.batch * limit <= C.RECV_BUFFER_LENGTH
    ensures Fits(s.trimmed[i])
  {
    forall r | r in s.trimmed[i]
      ensures |r.bytes| <= limit
    {
      FlattenMember(Batches(s), i, r);
      assert Known(s, r);
    }
    PayloadBound(s.trimmed[i], limit);
    Bounded(|s.trimmed[i]|, s.cfg.batch, limit);
  }

  /** A configuration in which a full batch of the longest records fits the reception buffer loses
      nothing, whatever happens. */
  lemma NothingLost(env: Setup, events: seq<Event>, limit: nat)
    requires env.Valid() && AllAdmissible(env, events) && AllBounded(events, limit)
    requires ENQUEUE_SIZE + env.cfg.batch * limit <= C.RECV_BUFFER_LENGTH
    ensures var w := Runs(env, events); BatchesHanded(w.reader, w.handed) && NoneLost(w.reader, w.handed)
  {
    var s := Runs(env, events).reader;
    RunsInv(env, events);
    RunsBounded(env, events, limit);
    ReachableInv(s);
    forall i | 0 <= i < |s.trimmed|
      ensures Fits(s.trimmed[i])
    {
      BoundedFits(s, limit, i);
    }
    NothingLostIffFits(env, events);
  }

  // ---------------------------------------------------------------- from the changelog to the clients

  /** Every session opened during the run yields a stretch of the changelog that starts no later than
      asked. */
  ghost predicate HonestUpstream(log: seq<Rec>, env: Setup, events: seq<Event>) {
    forall n :: 0 <= n < |events| ==> HonestEvent(log, Runs(env, events[..n]).reader, events[n])
  }

  ghost predicate HonestEvent(log: seq<Rec>, s: State, e: Event) {
    e.Read? ==> Honest(log, s, ReaderModel.Event.Read(e.startRc, e.feed, e.last))
  }

  lemma {:induction false} RunsOnLog(log: seq<Rec>, env: Setup, events: seq<Event>)
    requires env.Valid() && AllAdmissible(env, events) && Increasing(log) && HonestUpstream(log, env, events)
    ensures OnLog(log, Runs(env, events).reader)
    decreases |events|
  {
    if events == [] {
      assert Batches(Begin(env).reader) == [[]];
      FlattenOne<Rec>([]);
    } else {
      var n := |events| - 1;
      HonestBefore(log, env, events);
      RunsOnLog(log, env, events[..n]);
      RunsInv(env, events[..n]);
      StepOnLog(log, env, Runs(env, events[..n]), events[n]);
    }
  }

  lemma HonestBefore(log: seq<Rec>, env: Setup, events: seq<Event>)
    requires HonestUpstream(log, env, events) && events != []
    ensures var n := |events| - 1;
      HonestUpstream(log, env, events[..n]) && HonestEvent(log, Runs(env, events[..n]).reader, events[n])
  {
    var before := events[..|events| - 1];
    assert forall k :: 0 <= k < |before| ==> before[..k] == events[..k];
  }

  lemma StepOnLog(log: seq<Rec>, env: Setup, w: World, e: Event)
    requires Reachable(w.reader) && Increasing(log) && OnLog(log, w.reader) && HonestEvent(log, w.reader, e)
    ensures OnLog(log, Apply(env, w, e).reader)
  {
    ReaderMoves(env, w, e);
    match e
    case Read(startRc, feed, last) => ReadOnLog(log, w.reader, e);
    case Serve(id, up) => MessageOnLog(log, w.reader, id, AppOf(w, id).link, Now(w), up);
    case _ =>
  }

  lemma ReadOnLog(log: seq<Rec>, s: State, e: Event)
    requires Reachable(s) && Increasing(log) && OnLog(log, s) && HonestEvent(log, s, e) && e.Read?
    ensures OnLog(log, Intake(s, e.startRc, e.feed, e.last).0)
  {
    ReachableInv(s);
    IntakeOnLog(log, s, e.startRc, e.feed, e.last);
  }

  lemma MessageOnLog(log: seq<Rec>, s: State, id: Ident, link: Link, now: Timespec, up: Upstream)
    requires Reachable(s) && OnLog(log, s)
    ensures link.Asking? ==> OnLog(log, Dispatch(s, id, link.body, now, up))
  {
    if link.Asking? {
      ReachableInv(s);
      MessageKept(s, id, link.body, now, up);
    }
  }

  /** Every record of the changelog, up to the last upstream clear, was returned to somebody. */
  ghost predicate LogReturned(log: seq<Rec>, s: State, handed: set<(Ident, Rec)>) {
    s.cleared != [] ==>
      forall r :: r in log && r.index <= s.cleared[|s.cleared| - 1] ==> Returned(handed, r)
  }

  /** Up to the last upstream clear, what was accepted is what the changelog holds. */
  lemma BelowMarkAccepted(log: seq<Rec>, s: State, r: Rec)
    requires Reachable(s) && Increasing(log) && Accepted(s) <= log
    requires s.cleared != [] && r in log && r.index <= s.cleared[|s.cleared| - 1]
    ensures r in Accepted(s)
  {
    ReachableInv(s);
    ClearsAreExact(s);
    var k :| 0 <= k < |log| && log[k] == r;
    BelowNext(log, s, k);
    assert Accepted(s)[k] == log[k];
  }

  /** From end to end: the records of the changelog that the reader lets the upstream discard have all
      been returned by receive to some client, exactly when every trimmed batch fits the clients'
      reception buffer. */
  lemma ChangelogServed(log: seq<Rec>, env: Setup, events: seq<Event>)
    requires env.Valid() && AllAdmissible(env, events) && Increasing(log) && HonestUpstream(log, env, events)
    ensures var w := Runs(env, events); LogReturned(log, w.reader, w.handed) <==> TrimmedFit(w.reader)
  {
    var w := Runs(env, events);
    var s := w.reader;
    RunsInv(env, events);
    RunsOnLog(log, env, events);
    NothingLostIffFits(env, events);
    LogOrAccepted(log, s, w.handed);
  }

  lemma LogOrAccepted(log: seq<Rec>, s: State, handed: set<(Ident, Rec)>)
    requires Reachable(s) && Increasing(log) && Accepted(s) <= log
    ensures LogReturned(log, s, handed) <==> NoneLost(s, handed)
  {
    if s.cleared != [] {
      forall r: Rec | r.index <= s.cleared[|s.cleared| - 1]
        ensures r in log <==> r in Accepted(s)
      {
        if r in log {
          BelowMarkAccepted(log, s, r);
        }
      }
    }
  }

  // ---------------------------------------------------------------- streams

  /** A client's stream: in every reachable state, what receive has returned in this context,
      followed by what is left in the cache, is the concatenation of batches closed by the reader,
      in the order accepted, each record once; and no reply has made the client read out of bounds. */
  lemma StreamsAreBatches(env: Setup, events: seq<Event>, id: Ident)
    requires env.Valid() && AllAdmissible(env, events)
    ensures var w := Runs(env, events);
      var a := AppOf(w, id);
      && a.cache.next <= |a.cache.recs|
      && a.stream + a.cache.recs[a.cache.next..] == Flatten(a.batches)
      && a.stream <= Flatten(a.batches)
      && (forall b :: b in a.batches ==> b in Closed(w.reader))
      && (a.phase.Receiving? && a.link.Answering? ==>
            C.Absorb(env.lay, a.cache, a.link.body).1 != C.OutOfBounds)
  {
    var w := Runs(env, events);
    RunsInv(env, events);
    assert AppInv(env, w, id);
    if AppOf(w, id).phase.Receiving? && AppOf(w, id).link.Answering? {
      ReceiveReply(env, w, id);
    }
  }

  /** Client `id` is idle after a call to receive that returned `out`; `more` is what was handed out. */
  ghost predicate ReturnedTo(env: Setup, w: World, id: Ident, out: C.Outcome, more: set<(Ident, Rec)>)
    requires AppOf(w, id).link.Answering?
  {
    var a, v := AppOf(w, id), ApplyDeliver(env, w, id);
    && out == C.Receive(env.lay, a.cache, a.link.body).1
    && AppOf(v, id).phase.Idle? && AppOf(v, id).link.Quiet?
    && v.handed == w.handed + more && v.reader == w.reader
  }

  lemma CodeReturned(env: Setup, w: World, id: Ident, rc: int)
    requires var a := AppOf(w, id);
      a.phase.Receiving? && a.link == Answering(AckMsg(rc)) && C.Exhausted(a.cache)
    requires rc == 1 || rc == -EPROTO
    ensures ReturnedTo(env, w, id, C.Code(rc), {})
  {
    C.AckDecodes(env.lay, rc);
    C.ReceiveAck(env.lay, AppOf(w, id).cache, rc);
  }

  lemma BatchReturned(env: Setup, w: World, id: Ident, recs: seq<Rec>)
    requires env.Valid() && Deliverable(env, recs)
    requires var a := AppOf(w, id);
      a.phase.Receiving? && a.link == Answering(EnqueueMsg(recs)) && C.Exhausted(a.cache)
    ensures if Fits(recs) then ReturnedTo(env, w, id, C.Got(recs[0]), {(id, recs[0])})
            else ReturnedTo(env, w, id, C.Code(-EOVERFLOW), {})
  {
    C.BatchDecodes(env.lay, recs);
    C.ReceiveBatch(env.lay, AppOf(w, id).cache, recs);
  }

  /** The reply is a batch the reader has closed. */
  ghost predicate BatchReply(w: World, id: Ident, recs: seq<Rec>) {
    recs in Closed(w.reader) && recs != [] && AppOf(w, id).link == Answering(EnqueueMsg(recs))
  }

  /** What receive returns when the reply to its DEQUEUE arrives: the first record of a batch the reader
      has closed, if that batch fits; -EOVERFLOW for one that does not; and otherwise the reader's own
      code, which is 1 for the end of the stream or -EPROTO while the client has not acknowledged. */
  lemma ReceiveReturns(env: Setup, events: seq<Event>, id: Ident)
    requires env.Valid() && AllAdmissible(env, events)
    requires var a := AppOf(Runs(env, events), id); a.phase.Receiving? && a.link.Answering?
    ensures var w := Runs(env, events);
      || (AppOf(w, id).link.body == AckMsg(1) && ReturnedTo(env, w, id, C.Code(1), {}))
      || (AppOf(w, id).link.body == AckMsg(-EPROTO) && ReturnedTo(env, w, id, C.Code(-EPROTO), {}))
      || (exists recs :: BatchReply(w, id, recs) &&
            if Fits(recs) then ReturnedTo(env, w, id, C.Got(recs[0]), {(id, recs[0])})
            else ReturnedTo(env, w, id, C.Code(-EOVERFLOW), {}))
  {
    var w := Runs(env, events);
    var a := AppOf(w, id);
    RunsInv(env, events);
    assert AppInv(env, w, id);
    if a.link.body == AckMsg(1) {
      CodeReturned(env, w, id, 1);
    } else if a.link.body == AckMsg(-EPROTO) {
      CodeReturned(env, w, id, -EPROTO);
    } else {
      var recs :| recs in Closed(w.reader) && Deliverable(env, recs) && a.link.body == EnqueueMsg(recs);
      BatchReturned(env, w, id, recs);
      assert BatchReply(w, id, recs);
    }
  }

  /** In every reachable state, whatever request is served next, a batch it newly acknowledges was by
      then handed out entirely to the sender of that request, exactly if it fits. */
  lemma AcknowledgedByItsReceiver(env: Setup, events: seq<Event>, id: Ident, up: Upstream, x: nat)
    requires env.Valid() && AllAdmissible(env, events)
    requires var w := Runs(env, events);
      !Acked(w.reader, x) && Acked(Apply(env, w, Serve(id, up)).reader, x)
    ensures var w := Runs(env, events);
      && x < |Closed(w.reader)| && AppOf(w, id).phase.Clearing?
      && (WholeHanded(w.handed, id, Closed(w.reader)[x]) <==> Fits(Closed(w.reader)[x]))
  {
    var w := Runs(env, events);
    RunsInv(env, events);
    OnlyClearAcknowledges(env, w, id, up, x);
    ReachableInv(w.reader);
    if !Fits(Closed(w.reader)[x]) {
      var r := Closed(w.reader)[x][0];
      OversizedNotHanded(w.reader, w.handed, x, r);
    }
  }

  lemma OnlyClearAcknowledges(env: Setup, w: World, id: Ident, up: Upstream, x: nat)
    requires WorldInv(env, w) && !Acked(w.reader, x) && Acked(Apply(env, w, Serve(id, up)).reader, x)
    ensures x < |Closed(w.reader)| && AppOf(w, id).phase.Clearing?
    ensures Fits(Closed(w.reader)[x]) ==> WholeHanded(w.handed, id, Closed(w.reader)[x])
  {
    assert AppInv(env, w, id);
    if AppOf(w, id).phase.Clearing? {
      ServeClear(env, w, id, up);
    } else {
      OthersAcknowledgeNothing(env, w, id, up, x);
    }
  }

  lemma OthersAcknowledgeNothing(env: Setup, w: World, id: Ident, up: Upstream, x: nat)
    requires WorldInv(env, w) && AppOf(w, id).link.Asking? && !AppOf(w, id).phase.Clearing?
    ensures Acked(Apply(env, w, Serve(id, up)).reader, x) ==> Acked(w.reader, x)
  {
    var s, a := w.reader, AppOf(w, id);
    assert AppInv(env, w, id);
    OtherRequests(env, s, a, id);
    DispatchAcknowledgesNothing(s, id, a.link.body, Now(w), up, x);
  }

  /** A START, a DEQUEUE or a FINI, sent when it should be. */
  ghost predicate OtherRequest(s: State, id: Ident, body: Bytes) {
    && |body| >= HEADER_SIZE
    && ((OpType(body) == OP_START && |body| >= START_SIZE && !Registered(s, id))
        || ((OpType(body) == OP_DEQUEUE || OpType(body) == OP_FINI) && Registered(s, id)))
  }

  lemma OtherRequests(env: Setup, s: State, a: App, id: Ident)
    requires LinkInv(env, s, a, Registered(s, id), Owned(s, id)) && a.link.Asking? && !a.phase.Clearing?
    ensures OtherRequest(s, id, a.link.body)
  {
    ShortOps();
  }

  /** Of the four requests, only a CLEAR acknowledges. */
  lemma DispatchAcknowledgesNothing(s: State, id: Ident, body: Bytes, now: Timespec, up: Upstream, x: nat)
    requires Reachable(s) && OtherRequest(s, id, body)
    ensures Acked(Dispatch(s, id, body, now, up), x) ==> Acked(s, x)
  {
    if OpType(body) == OP_START {
      StartExchange(s, id, body, now, up);
    } else if OpType(body) == OP_DEQUEUE {
      DequeueExchange(s, id, body, now, up);
    } else {
      FiniExchange(s, id, body, now, up);
    }
  }
}

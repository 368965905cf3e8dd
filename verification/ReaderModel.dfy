/** The changelog reader as a state machine on values: what each request and each intake of
    records does to the reader's state.  Class `ChangelogReader` is proved to implement exactly
    these functions.

    Four readings of the design are built in; module `StatementOrder` shows what the literal
    statements do instead: the successor of a trimmed bucket is saved before the bucket is freed,
    a rewind revokes the ownership of the buckets it takes back, the delivery cursor moves to the
    bucket opened behind the one just sent (an empty bucket counts as none available), and a
    CLEAR with nothing to clear is answered. */
module ReaderModel {
  import opened Records
  import opened Wire

  const ACK_TIMEOUT_SEC := 10

  datatype Config = Config(batch: nat, maxBuckets: nat) {
    /** Batch size and bucket count are positive and their product is an `int`. */
    predicate Valid() {
      batch >= 1 && maxBuckets >= 1 && batch < TWO_31 && batch * maxBuckets < TWO_31
    }
  }

  datatype Bucket = Bucket(index: nat, recs: seq<Rec>, size: nat, ready: bool, expiry: Timespec)

  /** A registered client; `bucket` is the index of the bucket it is processing. */
  datatype Peer = Peer(ident: Ident, start: nat, bucket: Option<nat>)

  /** The code with which `llapi_changelog_recv` ends a session. */
  type EndCode = rc: int | rc != 0 witness 1

  /** An open upstream session: the records still to come, then the code that ends it. */
  datatype Session = Session(pending: seq<Rec>, last: EndCode)

  /** Outcome of the upstream clears one CLEAR request triggers. */
  datatype Upstream = AllSucceed | FailAt(call: nat, rc: Failure)

  datatype Envelope = Envelope(dst: Ident, body: Bytes)

  /** History: one ENQUEUE sent. */
  datatype Delivery = Delivery(bucket: nat, to: Ident, at: Timespec, recs: seq<Rec>)

  /** `buckets` is the bucket list; `cleanup_next` is its head, `current_open` its last element and
      `deliver` the position of `deliver_next`.  The last four fields are history: the batches
      trimmed, the arguments of the successful upstream clears, the deliveries, and where in
      them the current round (the deliveries since the last rewind) starts. */
  datatype RawState = State(
    cfg: Config,
    buckets: seq<Bucket>,
    deliver: nat,
    bktIdx: nat,
    recCnt: int,
    srec: nat,
    recRead: nat,
    session: Option<Session>,
    peers: seq<Peer>,
    outbox: seq<Envelope>,
    trimmed: seq<seq<Rec>>,
    cleared: seq<int>,
    deliveries: seq<Delivery>,
    roundStart: nat)

  predicate Shaped(s: RawState) {
    s.deliver < |s.buckets| && s.roundStart <= |s.deliveries|
  }

  const NEVER := Timespec(0, 0)

  function EmptyBucket(index: nat): Bucket {
    Bucket(index, [], 0, false, NEVER)
  }

  type State = s: RawState | Shaped(s)
    witness State(Config(1, 1), [EmptyBucket(0)], 0, 1, 0, 0, 0, None, [], [], [], [], [], 0)

  function Init(cfg: Config): State {
    State(cfg, [EmptyBucket(0)], 0, 1, 0, 0, 0, None, [], [], [], [], [], 0)
  }

  function Last(s: State): Bucket {
    s.buckets[|s.buckets| - 1]
  }

  predicate Full(s: State) {
    s.recCnt >= s.cfg.batch * s.cfg.maxBuckets
  }

  function BucketRecs(bs: seq<Bucket>): (r: seq<seq<Rec>>)
    ensures |r| == |bs| && forall i :: 0 <= i < |bs| ==> r[i] == bs[i].recs
  {
    seq(|bs|, i requires 0 <= i < |bs| => bs[i].recs)
  }

  /** Every batch ever formed, oldest first: those trimmed, then those in the list. */
  function Batches(s: State): seq<seq<Rec>> {
    s.trimmed + BucketRecs(s.buckets)
  }

  /** Every record ever accepted from upstream. */
  function Accepted(s: State): seq<Rec> {
    Flatten(Batches(s))
  }

  /** The batches no record can be added to any more. */
  function Closed(s: State): seq<seq<Rec>> {
    var all := Batches(s);
    all[..|all| - 1]
  }

  // ---------------------------------------------------------------- clients

  /** Position of the peer called `id`, or `|peers|`. */
  function PeerAt(peers: seq<Peer>, id: Ident): (k: nat)
    ensures k <= |peers|
    ensures k < |peers| ==> peers[k].ident == id
    ensures forall j :: 0 <= j < k ==> peers[j].ident != id
  {
    if peers == [] || peers[0].ident == id then 0 else 1 + PeerAt(peers[1..], id)
  }

  predicate Registered(s: State, id: Ident) {
    PeerAt(s.peers, id) < |s.peers|
  }

  /** The bucket the reader believes `id` is processing. */
  function Owned(s: State, id: Ident): Option<nat> {
    if Registered(s, id) then s.peers[PeerAt(s.peers, id)].bucket else None
  }

  function SetBucket(peers: seq<Peer>, k: nat, b: Option<nat>): seq<Peer>
    requires k < |peers|
  {
    peers[k := peers[k].(bucket := b)]
  }

  function Send(s: State, dst: Ident, body: Bytes): State {
    s.(outbox := s.outbox + [Envelope(dst, body)])
  }

  // ---------------------------------------------------------------- delivery

  /** `lrb_expiry` of a bucket sent at `now`. */
  function Deadline(now: Timespec): Timespec {
    Timespec(now.sec + ACK_TIMEOUT_SEC, now.nsec)
  }

  predicate Expired(s: State, now: Timespec) {
    now.sec > s.buckets[0].expiry.sec
  }

  predicate HasIndex(bs: seq<Bucket>, x: nat) {
    exists i :: 0 <= i < |bs| && bs[i].index == x
  }

  function Unready(bs: seq<Bucket>): (r: seq<Bucket>)
    ensures |r| == |bs| && forall i :: 0 <= i < |bs| ==> r[i] == bs[i].(ready := false)
  {
    seq(|bs|, i requires 0 <= i < |bs| => bs[i].(ready := false))
  }

  function Disown(peers: seq<Peer>, bs: seq<Bucket>): (r: seq<Peer>)
    ensures |r| == |peers|
    ensures forall k :: 0 <= k < |peers| ==>
      r[k] == if peers[k].bucket.Some? && HasIndex(bs, peers[k].bucket.value)
              then peers[k].(bucket := None) else peers[k]
  {
    seq(|peers|, k requires 0 <= k < |peers| =>
      if peers[k].bucket.Some? && HasIndex(bs, peers[k].bucket.value)
      then peers[k].(bucket := None) else peers[k])
  }

  /** Take back every bucket that was sent and not trimmed. */
  function Rewind(s: State): State {
    var sent := s.buckets[..s.deliver];
    s.(buckets := Unready(sent) + s.buckets[s.deliver..],
       peers := Disown(s.peers, sent),
       deliver := 0,
       roundStart := if s.deliver > 0 then |s.deliveries| else s.roundStart)
  }

  /** The state in which the next bucket is looked for. */
  function Positioned(s: State, now: Timespec): State {
    if Expired(s, now) then Rewind(s) else s
  }

  /** Before the bucket at the delivery cursor is sent, it is closed by opening another one behind
      it if it was the open one. */
  function Opened(s: State): State {
    if s.deliver + 1 == |s.buckets| then
      s.(buckets := s.buckets + [EmptyBucket(s.bktIdx)], bktIdx := s.bktIdx + 1)
    else s
  }

  /** Send the bucket at the delivery cursor to peer `k`. */
  function Deliver(s: State, k: nat, now: Timespec): State
    requires k < |s.peers|
  {
    var b, o := s.buckets[s.deliver], Opened(s);
    Send(o.(buckets := o.buckets[s.deliver := b.(expiry := Deadline(now))],
            deliver := s.deliver + 1,
            peers := SetBucket(s.peers, k, Some(b.index)),
            deliveries := s.deliveries + [Delivery(b.index, s.peers[k].ident, now, b.recs)]),
         s.peers[k].ident, EnqueueMsg(b.recs))
  }

  // ---------------------------------------------------------------- acknowledgement

  function MarkReady(s: State, x: nat): State {
    s.(buckets := seq(|s.buckets|, i requires 0 <= i < |s.buckets| =>
                    if s.buckets[i].index == x then s.buckets[i].(ready := true) else s.buckets[i]))
  }

  /** The client gives its bucket back, which becomes ready. */
  function Acknowledge(s: State, id: Ident): State
    requires Owned(s, id).Some?
  {
    MarkReady(s.(peers := SetBucket(s.peers, PeerAt(s.peers, id), None)), Owned(s, id).value)
  }

  /** How many buckets at the head of the list are ready; the open bucket never is. */
  function ReadyPrefix(bs: seq<Bucket>): (n: nat)
    ensures bs != [] ==> n < |bs|
    ensures bs == [] ==> n == 0
    ensures forall i :: 0 <= i < n ==> bs[i].ready
    ensures n + 1 < |bs| ==> !bs[n].ready
  {
    if |bs| <= 1 || !bs[0].ready then 0 else 1 + ReadyPrefix(bs[1..])
  }

  /** Highest record index of a batch, -1 if there is none. */
  function MaxIndex(recs: seq<Rec>): int {
    if recs == [] then -1 else recs[|recs| - 1].index
  }

  function MaxIndices(batches: seq<seq<Rec>>): (r: seq<int>)
    ensures |r| == |batches| && forall i :: 0 <= i < |r| ==> r[i] == MaxIndex(batches[i])
  {
    seq(|batches|, i requires 0 <= i < |batches| => MaxIndex(batches[i]))
  }

  /** Clear the first `m` buckets upstream and drop them. */
  function Trim(s: State, m: nat): State
    requires m < |s.buckets|
  {
    var gone := BucketRecs(s.buckets[..m]);
    s.(buckets := s.buckets[m..],
       deliver := if m <= s.deliver then s.deliver - m else 0,
       recCnt := s.recCnt - |Flatten(gone)|,
       trimmed := s.trimmed + gone,
       cleared := s.cleared + MaxIndices(gone))
  }

  /** Clear upstream as far as the ready prefix and the upstream's answers allow. */
  function Cleanup(s: State, up: Upstream): (State, int) {
    var n := ReadyPrefix(s.buckets);
    match up
    case FailAt(call, rc) => if call < n then (Trim(s, call), rc) else (Trim(s, n), 0)
    case AllSucceed => (Trim(s, n), 0)
  }

  // ---------------------------------------------------------------- request handlers

  function HandleStart(s: State, id: Ident, body: Bytes): (State, int) {
    if |body| < START_SIZE then (s, -EINVAL)
    else if Registered(s, id) then (s, -EALREADY)
    else (Send(s.(peers := s.peers + [Peer(id, Unlittle(body[16..24]), None)]), id, AckMsg(0)), 0)
  }

  function HandleDequeue(s: State, id: Ident, body: Bytes, now: Timespec): (State, int) {
    if |body| < HEADER_SIZE then (s, -EPROTO)
    else if !Registered(s, id) || Owned(s, id).Some? then (s, -EPROTO)
    else
      var r := Positioned(s, now);
      if r.buckets[r.deliver].recs == [] then (r, 1)
      else (Deliver(r, PeerAt(s.peers, id), now), 0)
  }

  function HandleClear(s: State, id: Ident, body: Bytes, up: Upstream): (State, int) {
    if |body| < CLEAR_SIZE then (s, -EPROTO)
    else if !Registered(s, id) then (s, -EPROTO)
    else if Owned(s, id).None? then (Send(s, id, AckMsg(0)), 0)
    else
      var (r, rc) := Cleanup(Acknowledge(s, id), up);
      if rc < 0 then (r, rc) else (Send(r, id, AckMsg(0)), 0)
  }

  function HandleFini(s: State, id: Ident, body: Bytes): (State, int) {
    if |body| < HEADER_SIZE then (s, -EPROTO)
    else if !Registered(s, id) then (s, -EPROTO)
    else
      var k := PeerAt(s.peers, id);
      (Send(s.(peers := s.peers[..k] + s.peers[k + 1..]), id, AckMsg(0)), 0)
  }

  function Handle(s: State, id: Ident, body: Bytes, now: Timespec, up: Upstream): (State, int) {
    if |body| < HEADER_SIZE then (s, -EPROTO)
    else
      var op := OpType(body);
      if op > OP_SIGNAL then (s, -EINVAL)
      else if op == OP_START then HandleStart(s, id, body)
      else if op == OP_DEQUEUE then HandleDequeue(s, id, body, now)
      else if op == OP_CLEAR then HandleClear(s, id, body, up)
      else if op == OP_FINI then HandleFini(s, id, body)
      else (s, -EPROTO)
  }

  /** One message from the broker: handlers answer on success, the dispatcher on error or EOF. */
  function Dispatch(s: State, id: Ident, body: Bytes, now: Timespec, up: Upstream): State {
    var (r, rc) := Handle(s, id, body, now, up);
    if rc < 0 || rc == 1 then Send(r, id, AckMsg(rc)) else r
  }

  // ---------------------------------------------------------------- intake

  /** Insert a record in the open bucket, opening a new one when it is full. */
  function Insert(s: State, rec: Rec): State {
    var n := |s.buckets| - 1;
    var b := s.buckets[n];
    if |b.recs| == s.cfg.batch then
      s.(buckets := s.buckets + [EmptyBucket(s.bktIdx).(recs := [rec], size := |rec.bytes|)],
         bktIdx := s.bktIdx + 1)
    else
      s.(buckets := s.buckets[n := b.(recs := b.recs + [rec], size := b.size + |rec.bytes|)])
  }

  function Store(s: State, rec: Rec): State {
    Insert(s, rec).(srec := rec.index + 1, recRead := s.recRead + 1, recCnt := s.recCnt + 1)
  }

  /** Read a session until it ends, the batch is complete or the cache is full.  Returns what is
      left of the session and whether its end was reached. */
  function Pull(s: State, feed: seq<Rec>, stored: nat): (State, seq<Rec>, bool)
    decreases |feed|
  {
    if feed == [] then (s, [], true)
    else if feed[0].index < s.srec then Pull(s, feed[1..], stored)
    else
      var t := Store(s, feed[0]);
      if stored + 1 >= s.cfg.batch || Full(t) then (t, feed[1..], false)
      else Pull(t, feed[1..], stored + 1)
  }

  /** Session ends after which `llapi_changelog_start` is needed again. */
  predicate Reopens(rc: int) {
    rc == 1 || rc == -EAGAIN || rc == -EPROTO
  }

  /** One intake.  `startRc` is what opening a session would return; `feed` and `last` are what
      the session so opened would yield. */
  function Intake(s: State, startRc: int, feed: seq<Rec>, last: EndCode): (State, int) {
    if Full(s) then (s, 0)
    else if s.session.None? && startRc != 0 then (s, startRc)
    else
      var session := if s.session.Some? then s.session.value else Session(feed, last);
      var (t, rest, ended) := Pull(s, session.pending, 0);
      if !ended then (t.(session := Some(Session(rest, session.last))), 0)
      else if Reopens(session.last) then (t.(session := None), session.last)
      else (t.(session := Some(Session([], session.last))), session.last)
  }

  // ---------------------------------------------------------------- the main loop

  datatype Request = Request(from: Ident, body: Bytes, now: Timespec, up: Upstream)

  /** What one pass of the main loop meets: how opening a session would go and what it would yield,
      and the messages waiting when the reader turns to them. */
  datatype Pass = Pass(startRc: int, feed: seq<Rec>, last: EndCode, inbox: seq<Request>)

  function ServeAll(s: State, inbox: seq<Request>): State
    decreases |inbox|
  {
    if inbox == [] then s
    else
      var r := inbox[|inbox| - 1];
      Dispatch(ServeAll(s, inbox[..|inbox| - 1]), r.from, r.body, r.now, r.up)
  }

  /** Read first, then serve what is waiting; an intake that fails ends the loop. */
  function OnePass(s: State, p: Pass): (State, int) {
    var (t, rc) := Intake(s, p.startRc, p.feed, p.last);
    if rc < 0 then (t, rc) else (ServeAll(t, p.inbox), 0)
  }

  function MainLoop(s: State, passes: seq<Pass>): (State, int)
    decreases |passes|
  {
    if passes == [] then (s, 0)
    else
      var (t, rc) := MainLoop(s, passes[..|passes| - 1]);
      if rc < 0 then (t, rc) else OnePass(t, passes[|passes| - 1])
  }

  // ---------------------------------------------------------------- runs

  datatype Event =
    | Message(from: Ident, body: Bytes, now: Timespec, up: Upstream)
    | Read(startRc: int, feed: seq<Rec>, last: EndCode)

  function Step(s: State, e: Event): State {
    match e
    case Message(from, body, now, up) => Dispatch(s, from, body, now, up)
    case Read(startRc, feed, last) => Intake(s, startRc, feed, last).0
  }

  function Run(s: State, events: seq<Event>): State
    decreases |events|
  {
    if events == [] then s else Step(Run(s, events[..|events| - 1]), events[|events| - 1])
  }
}

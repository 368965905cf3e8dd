/** The proxy client's batch cursor as functions: how a reply to DEQUEUE is read, and what one call
    to receive or clear does to the cached batch. */
module ClientModel {
  import opened Records
  import opened Wire

  const RECV_BUFFER_LENGTH := 8 * 1024 * 1024

  /** The cached batch and the cursor on it (`rec_cnt` is the length of the batch). */
  datatype Cache = Cache(recs: seq<Rec>, next: nat)

  const EMPTY_CACHE := Cache([], 0)

  predicate Exhausted(c: Cache) {
    c.next == |c.recs|
  }

  predicate InBounds(c: Cache) {
    c.next <= |c.recs|
  }

  /** What a reply to DEQUEUE holds: a batch, a return code, or a batch whose walk leaves the
      buffer (the client does not check offsets). */
  datatype Reply = Batch(recs: seq<Rec>) | Retcode(rc: int) | Corrupt

  /** `px_dequeue_records`, from reception on. */
  function Decode(lay: Layout, msg: Bytes): Reply {
    if |msg| > RECV_BUFFER_LENGTH then Retcode(-EOVERFLOW)
    else if |msg| < HEADER_SIZE then Retcode(-EINVAL)
    else if OpType(msg) == OP_ACK then
      if |msg| < ACK_SIZE then Retcode(-EINVAL) else Retcode(Wire.Retcode(msg))
    else if OpType(msg) == OP_ENQUEUE then
      if |msg| < ENQUEUE_SIZE + lay.header then Retcode(-EINVAL)
      else
        match Walk(lay, msg[ENQUEUE_SIZE..], RecCount(msg))
        case Overrun => Corrupt
        case Walked(recs, rest) => Batch(recs)
    else Retcode(-EPROTO)
  }

  /** What a call to receive returns; `OutOfBounds` is a read outside the cached batch. */
  datatype Outcome = Got(rec: Rec) | Code(rc: int) | OutOfBounds

  function Take(c: Cache): (Cache, Outcome) {
    if c.next < |c.recs| then (c.(next := c.next + 1), Got(c.recs[c.next])) else (c, OutOfBounds)
  }

  /** A call to receive, once the reply to its DEQUEUE is there. */
  function Absorb(lay: Layout, c: Cache, reply: Bytes): (Cache, Outcome) {
    match Decode(lay, reply)
    case Batch(recs) => Take(Cache(recs, 0))
    case Retcode(rc) => if rc != 0 then (c, Code(rc)) else Take(c)
    case Corrupt => (c, OutOfBounds)
  }

  /** `px_changelog_recv`; `reply` is what a DEQUEUE would be answered with, if one is sent. */
  function Receive(lay: Layout, c: Cache, reply: Bytes): (Cache, Outcome) {
    if Exhausted(c) then Absorb(lay, c, reply) else Take(c)
  }

  /** What `cl_ack_retcode` makes of a reply. */
  function AckCode(msg: Bytes): int {
    if |msg| > ACK_SIZE then -EOVERFLOW
    else if |msg| < ACK_SIZE then -EINVAL
    else Wire.Retcode(msg)
  }

  // ---------------------------------------------------------------- properties

  /** Replies the client mistakes for a batch it can read from: an ACK with code 0, or an ENQUEUE of
      no record followed by enough bytes for one. */
  predicate Misleading(lay: Layout, msg: Bytes) {
    && HEADER_SIZE <= |msg| <= RECV_BUFFER_LENGTH
    && ((OpType(msg) == OP_ACK && |msg| >= ACK_SIZE && Wire.Retcode(msg) == 0)
        || (OpType(msg) == OP_ENQUEUE && |msg| >= ENQUEUE_SIZE + lay.header && RecCount(msg) == 0))
  }

  lemma {:induction false} WalkLength(lay: Layout, buf: Bytes, count: nat)
    ensures var w := Walk(lay, buf, count); w.Walked? ==> |w.recs| == count
  {
    if count > 0 && |buf| >= lay.header && |buf| >= lay.Length(buf[..lay.header]) {
      WalkLength(lay, buf[lay.Length(buf[..lay.header])..], count - 1);
    }
  }

  /** Receiving keeps the cursor within the batch, and reads within the batch exactly when records
      are left or the reply is neither misleading nor corrupt. */
  lemma ReceiveInBounds(lay: Layout, c: Cache, reply: Bytes)
    requires InBounds(c)
    ensures InBounds(Receive(lay, c, reply).0)
    ensures Receive(lay, c, reply).1 != OutOfBounds <==>
      !Exhausted(c) || (!Misleading(lay, reply) && Decode(lay, reply) != Corrupt)
  {
    if |reply| >= ENQUEUE_SIZE {
      WalkLength(lay, reply[ENQUEUE_SIZE..], RecCount(reply));
    }
  }

  /** An ENQUEUE of a described, non-empty batch is decoded to that very batch exactly when it fits
      the client's reception buffer; otherwise the batch is lost to the client. */
  lemma BatchDecodes(lay: Layout, recs: seq<Rec>)
    requires lay.Valid() && AllDescribed(lay, recs) && 0 < |recs| < TWO_32
    ensures var msg := EnqueueMsg(recs);
      Decode(lay, msg) == if |msg| <= RECV_BUFFER_LENGTH then Batch(recs) else Retcode(-EOVERFLOW)
  {
    BatchRoundTrip(lay, recs);
    ReplyOps(0, recs);
    assert lay.Describes(recs[0]);
    assert |Payload(recs)| >= |recs[0].bytes|;
  }

  /** An ACK is decoded to its code, and so are the acknowledgements of the other requests. */
  lemma AckDecodes(lay: Layout, rc: int)
    requires -TWO_31 <= rc < TWO_31
    ensures Decode(lay, AckMsg(rc)) == Retcode(rc) && AckCode(AckMsg(rc)) == rc
  {
    AckRoundTrip(rc);
    ReplyOps(rc, []);
  }

  /** An ENQUEUE without records is refused. */
  lemma EmptyBatchRefused(lay: Layout)
    requires lay.Valid()
    ensures Decode(lay, EnqueueMsg([])) == Retcode(-EINVAL)
  {
    ReplyOps(0, []);
  }

  // ---------------------------------------------------------------- what receive returns

  /** While records are cached, receive returns the next one, whatever a reply would say. */
  lemma ReceiveCached(lay: Layout, c: Cache, reply: Bytes)
    requires InBounds(c) && !Exhausted(c)
    ensures Receive(lay, c, reply) == (Cache(c.recs, c.next + 1), Got(c.recs[c.next]))
  {
  }

  /** Otherwise a code in reply to the DEQUEUE, end of stream or error, is what receive returns, and the
      cache is left alone; code 0, which announces no batch, makes it read out of bounds. */
  lemma ReceiveAck(lay: Layout, c: Cache, rc: int)
    requires Exhausted(c) && -TWO_31 <= rc < TWO_31
    ensures Receive(lay, c, AckMsg(rc)) == (c, if rc == 0 then OutOfBounds else Code(rc))
  {
    AckDecodes(lay, rc);
  }

  /** A batch in reply is cached, and its first record returned, exactly if it fits; otherwise receive
      returns -EOVERFLOW and the cache is left alone. */
  lemma ReceiveBatch(lay: Layout, c: Cache, recs: seq<Rec>)
    requires lay.Valid() && Exhausted(c) && AllDescribed(lay, recs) && 0 < |recs| < TWO_32
    ensures Receive(lay, c, EnqueueMsg(recs))
         == if |EnqueueMsg(recs)| <= RECV_BUFFER_LENGTH then (Cache(recs, 1), Got(recs[0])) else (c, Code(-EOVERFLOW))
  {
    BatchDecodes(lay, recs);
  }

  /** A reply that is neither leaves the cache alone and is reported: too long for the buffer, too short
      for what it says it is, or of an operation that answers no DEQUEUE. */
  lemma ReceiveOdd(lay: Layout, c: Cache, reply: Bytes)
    requires lay.Valid() && Exhausted(c)
    ensures |reply| > RECV_BUFFER_LENGTH ==> Receive(lay, c, reply) == (c, Code(-EOVERFLOW))
    ensures |reply| < HEADER_SIZE ==> Receive(lay, c, reply) == (c, Code(-EINVAL))
    ensures HEADER_SIZE <= |reply| < ACK_SIZE && OpType(reply) == OP_ACK ==> Receive(lay, c, reply) == (c, Code(-EINVAL))
    ensures HEADER_SIZE <= |reply| <= ENQUEUE_SIZE && OpType(reply) == OP_ENQUEUE ==>
      Receive(lay, c, reply) == (c, Code(-EINVAL))
    ensures HEADER_SIZE <= |reply| <= RECV_BUFFER_LENGTH && OpType(reply) != OP_ACK && OpType(reply) != OP_ENQUEUE ==>
      Receive(lay, c, reply) == (c, Code(-EPROTO))
  {
  }

  /** The code of an acknowledgement is read only from a message of exactly the length of an ACK. */
  lemma AckCodeOdd(msg: Bytes)
    ensures |msg| > ACK_SIZE ==> AckCode(msg) == -EOVERFLOW
    ensures |msg| < ACK_SIZE ==> AckCode(msg) == -EINVAL
    ensures |msg| == ACK_SIZE ==> -TWO_31 <= AckCode(msg) < TWO_31 && msg[8..12] == Little(Store32(AckCode(msg)), 4)
  {
    if |msg| == ACK_SIZE {
      CodeIs(msg[8..12]);
    }
  }

  /** Four bytes hold one signed 32-bit code. */
  lemma CodeIs(field: Bytes)
    requires |field| == 4
    ensures -TWO_31 <= Load32(Unlittle(field)) < TWO_31
    ensures field == Little(Store32(Load32(Unlittle(field))), 4)
  {
    Power256Four();
    UnlittleBound(field);
    LittleUnlittle(field);
    StoreLoad(Unlittle(field));
  }

  lemma StoreLoad(u: nat)
    requires u < TWO_32
    ensures -TWO_31 <= Load32(u) < TWO_31 && Store32(Load32(u)) == u
  {
  }
}

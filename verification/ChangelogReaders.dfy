/** The changelog reader as the daemon runs it: bucket and client records updated in place, cursors
    that point at buckets, loops over the lists.  Every method is proved against the function of
    module `ReaderModel` for the same operation.  The two lists appear as the sequences of their
    records; module `IntrusiveList` proves that following links, appending and removing nodes do
    what `After`, `+` and `Without` do here. */
module ChangelogReaders {
  import opened Records
  import opened Wire
  import opened WireBuffers
  import opened ReaderInvariant
  import R = ReaderRuns
  import opened IntrusiveList
  import M = ReaderModel

  /** `struct lcap_rec_bucket` */
  class RecBucket {
    const index: nat
    var expiry: Timespec
    var ready: bool
    var size: nat
    var recs: seq<Rec>

    constructor (index: nat)
      ensures Is(M.EmptyBucket(index))
    {
      this.index := index;
      expiry, ready, size, recs := M.NEVER, false, 0, [];
    }

    method Append(rec: Rec)
      modifies this`recs, this`size
      ensures recs == old(recs) + [rec] && size == old(size) + |rec.bytes|
    {
      recs := recs + [rec];
      size := size + |rec.bytes|;
    }

    /** `rec_bucket_max_index` */
    method MaxIndex() returns (index: int)
      ensures index == M.MaxIndex(recs)
    {
      if |recs| == 0 {
        return -1;
      }
      index := recs[|recs| - 1].index;
    }

    ghost predicate Is(b: M.Bucket)
      reads this
    {
      index == b.index && recs == b.recs && size == b.size && ready == b.ready && expiry == b.expiry
    }
  }

  /** `struct client_state` */
  class ClientState {
    const ident: Ident
    const start: nat
    var bucket: RecBucket?

    constructor (ident: Ident, start: nat)
      ensures Is(M.Peer(ident, start, None))
    {
      this.ident, this.start, this.bucket := ident, start, null;
    }

    ghost predicate Is(p: M.Peer)
      reads this
    {
      ident == p.ident && start == p.start && p.bucket == if bucket == null then None else Some(bucket.index)
    }
  }

  /** Bucket indices identify buckets. */
  ghost predicate Ordered(bs: seq<RecBucket>) {
    forall i, j :: 0 <= i < j < |bs| ==> bs[i].index < bs[j].index
  }

  ghost predicate DistinctPeers(cs: seq<ClientState>) {
    forall j, k :: 0 <= j < k < |cs| ==> cs[j].ident != cs[k].ident
  }

  /** `bucket_next` */
  function Next(bs: seq<RecBucket>, b: RecBucket): RecBucket? {
    match After(bs, b)
    case Some(next) => next
    case None => null
  }

  lemma NextAt(bs: seq<RecBucket>, i: nat)
    requires i < |bs| && Ordered(bs)
    ensures Next(bs, bs[i]) == if i + 1 < |bs| then bs[i + 1] else null
  {
    AfterAt(bs, i);
  }

  /** `struct reader_env` */
  class ChangelogReader {
    const cfg: M.Config
    var buckets: seq<RecBucket>
    var peers: seq<ClientState>
    var currentOpen: RecBucket
    var deliverNext: RecBucket?
    var cleanupNext: RecBucket?
    var srec: nat
    var bktIdx: nat
    var recCnt: int
    var recRead: nat
    var session: Option<M.Session>

    // What was sent to the broker, and the indices cleared upstream.
    var outbox: seq<M.Envelope>
    var cleared: seq<int>

    // What the fields stand for, history included.
    ghost var model: M.State

    /** The bucket list, and the cursors at its ends, stand for those of `r`. */
    ghost predicate BucketsAre(r: M.State)
      reads this, buckets
    {
      && |buckets| == |r.buckets|
      && (forall i :: 0 <= i < |buckets| ==> buckets[i].Is(r.buckets[i]))
      && currentOpen == buckets[|buckets| - 1]
      && cleanupNext == buckets[0]
    }

    ghost predicate CursorIs(r: M.State)
      reads this
    {
      r.deliver < |buckets| && deliverNext == buckets[r.deliver]
    }

    /** The clients stand for those of `r`, and their buckets are buckets of the list. */
    ghost predicate PeersAre(r: M.State)
      reads this, peers
    {
      && |peers| == |r.peers|
      && (forall k :: 0 <= k < |peers| ==> peers[k].Is(r.peers[k]))
      && (forall k :: 0 <= k < |peers| && peers[k].bucket != null ==> peers[k].bucket in buckets)
    }

    ghost predicate FieldsAre(r: M.State)
      reads this
    {
      (cfg, srec, bktIdx, recCnt, recRead, session, outbox, cleared) ==
        (r.cfg, r.srec, r.bktIdx, r.recCnt, r.recRead, r.session, r.outbox, r.cleared)
    }

    ghost predicate Coupled()
      reads this, buckets, peers
    {
      BucketsAre(model) && CursorIs(model) && PeersAre(model) && FieldsAre(model)
    }

    /** Bucket indices increase along the list and are below the counter; identities differ. */
    ghost predicate Keyed()
      reads this
    {
      && Ordered(buckets)
      && (forall i :: 0 <= i < |buckets| ==> buckets[i].index < bktIdx)
      && DistinctPeers(peers)
    }

    ghost predicate Valid()
      reads this, buckets, peers
    {
      Coupled() && Inv(model)
    }

    /** The fields now stand for `r`. */
    ghost method Commit(r: M.State)
      requires BucketsAre(r) && CursorIs(r) && PeersAre(r) && FieldsAre(r)
      modifies this`model
      ensures Coupled() && model == r
    {
      model := r;
    }

    /** `changelog_reader_init`: one empty bucket, which every cursor designates. */
    constructor (cfg: M.Config)
      requires cfg.Valid()
      ensures Valid() && Running() && model == M.Init(cfg) && fresh(Repr())
    {
      var first := new RecBucket(0);
      this.cfg := cfg;
      buckets, peers := [first], [];
      currentOpen, deliverNext, cleanupNext := first, first, first;
      srec, bktIdx, recCnt, recRead, session, outbox, cleared := 0, 1, 0, 0, None, [], [];
      model := M.Init(cfg);
      new;
      assert first.Is(model.buckets[0]);
      assert Coupled();
      InitInv(cfg);
      ReachableInit(cfg);
    }

    /** `rec_bucket_add` */
    method BucketAdd()
      modifies this`buckets, this`bktIdx, this`currentOpen
      ensures fresh(currentOpen) && buckets == old(buckets) + [currentOpen]
      ensures currentOpen.Is(M.EmptyBucket(old(bktIdx))) && bktIdx == old(bktIdx) + 1
    {
      var bkt := new RecBucket(bktIdx);
      bktIdx := bktIdx + 1;
      buckets := buckets + [bkt];
      currentOpen := bkt;
    }

    /** `changelog_reader_full` */
    predicate IsFull()
      reads this
    {
      recCnt >= cfg.batch * cfg.maxBuckets
    }

    /** `ack_retcode` */
    method AckRetcode(dst: Ident, rc: int)
      requires Coupled()
      modifies this`outbox, this`model
      ensures Coupled() && model == M.Send(old(model), dst, AckMsg(rc))
    {
      outbox := outbox + [M.Envelope(dst, AckMsg(rc))];
      Commit(M.Send(model, dst, AckMsg(rc)));
    }

    /** `client_state_get` */
    method ClientGet(id: Ident) returns (cs: ClientState?)
      requires PeersAre(model)
      ensures cs == null <==> !M.Registered(model, id)
      ensures cs != null ==> cs == peers[M.PeerAt(model.peers, id)]
    {
      for k := 0 to |peers|
        invariant forall j :: 0 <= j < k ==> model.peers[j].ident != id
      {
        assert peers[k].Is(model.peers[k]);
        if peers[k].ident == id {
          FirstPeer(model.peers, id, k);
          return peers[k];
        }
      }
      FirstPeer(model.peers, id, |peers|);
      return null;
    }

    // -------------------------------------------------------------- intake

    /** `changelog_reader_rec_store` */
    method RecStore(rec: Rec, ghost o: M.State, ghost r: M.State)
      requires Coupled() && Keyed() && MakesRoom(model, o) && Fills(o, rec, r)
      modifies this`buckets, this`bktIdx, this`currentOpen, currentOpen`recs, currentOpen`size
      ensures BucketsAre(r) && CursorIs(r) && PeersAre(r) && FieldsAre(r) && Keyed()
      ensures currentOpen == old(currentOpen) || fresh(currentOpen)
      ensures buckets == if currentOpen == old(currentOpen) then old(buckets) else old(buckets) + [currentOpen]
    {
      assert currentOpen.Is(model.buckets[|buckets| - 1]);
      if |currentOpen.recs| == cfg.batch {
        BucketAdd();
      }
      Fill(rec, o, r);
    }

    /** Append the record to the open bucket. */
    method Fill(rec: Rec, ghost o: M.State, ghost r: M.State)
      requires BucketsAre(o) && CursorIs(o) && PeersAre(o) && FieldsAre(o) && Keyed() && Fills(o, rec, r)
      modifies currentOpen`recs, currentOpen`size
      ensures BucketsAre(r) && CursorIs(r) && PeersAre(r) && FieldsAre(r)
    {
      assert currentOpen.Is(o.buckets[|buckets| - 1]);
      currentOpen.Append(rec);
    }

    /** Account for the record just inserted. */
    method Account(rec: Rec, ghost r: M.State)
      requires BucketsAre(r) && CursorIs(r) && PeersAre(r) && FieldsAre(r) && Keyed()
      modifies this`srec, this`recRead, this`recCnt, this`model
      ensures Coupled() && Keyed() && model == Accounted(r, rec)
    {
      srec := rec.index + 1;
      recRead := recRead + 1;
      recCnt := recCnt + 1;
      Commit(Accounted(r, rec));
    }

    /** Store a record and account for it. */
    method RecStoreCounted(rec: Rec)
      requires Coupled() && Keyed()
      modifies this`buckets, this`bktIdx, this`currentOpen, this`srec, this`recRead, this`recCnt, this`model,
               currentOpen`recs, currentOpen`size
      ensures Coupled() && Keyed() && model == M.Store(old(model), rec)
      ensures currentOpen == old(currentOpen) || fresh(currentOpen)
      ensures buckets == if currentOpen == old(currentOpen) then old(buckets) else old(buckets) + [currentOpen]
    {
      InsertFills(model, rec);
      RecStore(rec, Room(model), M.Insert(model, rec));
      Account(rec, M.Insert(model, rec));
    }

    /** The reading loop of `changelog_reader_enqueue`: read the session record by record. */
    method PullLoop(records: seq<Rec>) returns (pending: seq<Rec>, ended: bool)
      requires Coupled() && Keyed() && cfg.batch > 0
      modifies this`buckets, this`bktIdx, this`currentOpen, this`srec, this`recRead, this`recCnt, this`model, buckets
      ensures Coupled() && (model, pending, ended) == M.Pull(old(model), records, 0)
      ensures forall b :: b in buckets ==> b in old(buckets) || fresh(b)
    {
      pending, ended := records, false;
      var stored := 0;
      while true
        invariant Coupled() && Keyed() && stored < cfg.batch && !ended
        invariant M.Pull(model, pending, stored) == M.Pull(old(model), records, 0)
        invariant forall b :: b in buckets ==> b in old(buckets) || fresh(b)
        decreases |pending|
      {
        if pending == [] {
          ended := true;
          break;
        }
        var rec := pending[0];
        pending := pending[1..];
        if rec.index < srec {
          continue;
        }
        assert currentOpen in buckets;
        RecStoreCounted(rec);
        stored := stored + 1;
        if stored >= cfg.batch || IsFull() {
          break;
        }
      }
    }

    /** `changelog_reader_enqueue`: nothing when the cache is full; otherwise read the session that
        is open, or open one. */
    method Enqueue(startRc: int, feed: seq<Rec>, last: M.EndCode) returns (rc: int)
      requires Coupled() && Keyed() && cfg.batch > 0
      modifies this, buckets
      ensures Coupled() && (model, rc) == M.Intake(old(model), startRc, feed, last)
      ensures peers == old(peers) && forall b :: b in buckets ==> b in old(buckets) || fresh(b)
    {
      if IsFull() {
        return 0;
      }
      if session.None? && startRc != 0 {
        return startRc;
      }
      var open := if session.Some? then session.value else M.Session(feed, last);
      rc := ReadSession(open);
      IntakeIs(old(model), startRc, feed, last);
    }

    /** Read the open session, and close it if that is what its end asks for. */
    method ReadSession(open: M.Session) returns (rc: int)
      requires Coupled() && Keyed() && cfg.batch > 0
      modifies this`buckets, this`bktIdx, this`currentOpen, this`srec, this`recRead, this`recCnt, this`session, this`model,
               buckets
      ensures Coupled() && (model, rc) == AfterSession(old(model), open)
      ensures forall b :: b in buckets ==> b in old(buckets) || fresh(b)
    {
      var pending, ended := PullLoop(open.pending);
      rc := if ended then open.last else 0;
      session := if ended && M.Reopens(rc) then None else Some(M.Session(pending, open.last));
      Commit(model.(session := session));
    }

    // -------------------------------------------------------------- delivery

    /** Take bucket `b` away from whoever was processing it. */
    method Revoke(b: RecBucket)
      modifies peers
      ensures forall k :: 0 <= k < |peers| ==>
        peers[k].bucket == if old(peers[k].bucket) == b then null else old(peers[k].bucket)
    {
      var k := 0;
      while k < |peers|
        invariant 0 <= k <= |peers|
        invariant forall j :: 0 <= j < |peers| ==>
          peers[j].bucket == old(peers[j].bucket) || (peers[j].bucket == null && old(peers[j].bucket) == b)
        invariant forall j :: 0 <= j < k ==> peers[j].bucket != b
      {
        if peers[k].bucket == b {
          peers[k].bucket := null;
        }
        k := k + 1;
      }
    }

    /** The rewinding loop: every bucket before the delivery cursor is made non-ready and taken
        back from its client. */
    method RewindLoop(ghost s: M.State)
      requires BucketsAre(s) && CursorIs(s) && Ordered(buckets)
      modifies buckets, peers
      ensures forall j :: 0 <= j < |buckets| ==>
        buckets[j].Is(if j < s.deliver then s.buckets[j].(ready := false) else s.buckets[j])
      ensures forall k :: 0 <= k < |peers| ==>
        peers[k].bucket == if old(peers[k].bucket) in buckets[..s.deliver] then null else old(peers[k].bucket)
    {
      var i := 0;
      while i < |buckets| && buckets[i] != deliverNext
        invariant 0 <= i <= s.deliver
        invariant forall j :: 0 <= j < |buckets| ==>
          buckets[j].Is(if j < i then s.buckets[j].(ready := false) else s.buckets[j])
        invariant forall k :: 0 <= k < |peers| ==>
          peers[k].bucket == if old(peers[k].bucket) in buckets[..i] then null else old(peers[k].bucket)
      {
        Unready(i, s);
        Revoke(buckets[i]);
        InPrefix(buckets, i);
        i := i + 1;
      }
    }

    /** One bucket of the loop. */
    method Unready(i: nat, ghost s: M.State)
      requires i < |buckets| == |s.buckets| && Ordered(buckets)
      requires forall j :: 0 <= j < |buckets| ==>
        buckets[j].Is(if j < i then s.buckets[j].(ready := false) else s.buckets[j])
      modifies buckets
      ensures forall j :: 0 <= j < |buckets| ==>
        buckets[j].Is(if j < i + 1 then s.buckets[j].(ready := false) else s.buckets[j])
    {
      buckets[i].ready := false;
    }

    /** The same, in terms of the records the model holds. */
    method RewindRecords(ghost s: M.State, ghost r: M.State)
      requires BucketsAre(s) && CursorIs(s) && PeersAre(s) && Ordered(buckets)
      requires RewindsTo(s, r)
      modifies buckets, peers
      ensures BucketsAre(r) && PeersAre(r)
    {
      assert forall i :: 0 <= i < |buckets| ==> buckets[i].Is(s.buckets[i]);
      RewindLoop(s);
      forall k | 0 <= k < |peers|
        ensures peers[k].Is(r.peers[k])
      {
        assert old(peers[k].Is(s.peers[k]));
        RewindPeer(s, r, k, buckets, old(peers[k].bucket));
      }
    }

    /** The first half of `rec_bucket_get`: rewind if the head has expired. */
    method Position(now: Timespec)
      requires Coupled() && Keyed()
      modifies this`model, this`deliverNext, buckets, peers
      ensures Coupled() && Keyed() && model == M.Positioned(old(model), now)
    {
      assert cleanupNext.Is(model.buckets[0]);
      if now.sec > cleanupNext.expiry.sec {
        RewindRewinds(model);
        RewindAll(M.Rewind(model));
      }
    }

    method RewindAll(ghost r: M.State)
      requires Coupled() && Keyed() && RewindsTo(model, r)
      modifies this`model, this`deliverNext, buckets, peers
      ensures Coupled() && Keyed() && model == r
    {
      RewindRecords(model, r);
      deliverNext := cleanupNext;
      Commit(r);
    }

    /** `rec_bucket_get` */
    method BucketGet(now: Timespec) returns (bkt: RecBucket?)
      requires Coupled() && Keyed() && Sized(model)
      modifies this`model, this`deliverNext, buckets, peers
      ensures model == M.Positioned(old(model), now)
      ensures BucketsAre(model) && PeersAre(model) && FieldsAre(model) && Keyed() && Sized(model)
      ensures bkt == null <==> model.buckets[model.deliver].recs == []
      ensures bkt == null ==> CursorIs(model)
      ensures bkt != null ==> bkt == buckets[model.deliver]
      ensures bkt != null ==>
        deliverNext == (if model.deliver + 1 < |buckets| then buckets[model.deliver + 1] else null)
    {
      PositionedSized(model, now);
      Position(now);
      bkt := NextToServe();
    }

    /** The second half of `rec_bucket_get`: take the bucket at the cursor, unless it is empty. */
    method NextToServe() returns (bkt: RecBucket?)
      requires BucketsAre(model) && CursorIs(model) && PeersAre(model) && FieldsAre(model) && Keyed()
      modifies this`deliverNext
      ensures BucketsAre(model) && PeersAre(model) && FieldsAre(model) && Keyed()
      ensures bkt == null <==> model.buckets[model.deliver].recs == []
      ensures bkt == null ==> deliverNext == old(deliverNext)
      ensures bkt != null ==> bkt == buckets[model.deliver]
      ensures bkt != null ==>
        deliverNext == (if model.deliver + 1 < |buckets| then buckets[model.deliver + 1] else null)
    {
      bkt := deliverNext;
      assert bkt.Is(model.buckets[model.deliver]);
      if bkt.recs == [] {
        return null;
      }
      NextAt(buckets, model.deliver);
      deliverNext := Next(buckets, bkt);
    }

    /** `enqueue_rec`: pack the client's bucket, start its deadline, send it. */
    method EnqueueRec(cs: ClientState, now: Timespec)
      requires cs.bucket != null && cs.bucket.size == |Payload(cs.bucket.recs)|
      modifies this`outbox, cs.bucket`expiry
      ensures outbox == old(outbox) + [M.Envelope(cs.ident, EnqueueMsg(old(cs.bucket.recs)))]
      ensures cs.bucket.expiry == M.Deadline(now)
    {
      var rpc := PackEnqueue(cs.bucket.recs, cs.bucket.size);
      cs.bucket.expiry := Timespec(now.sec + M.ACK_TIMEOUT_SEC, now.nsec);
      outbox := outbox + [M.Envelope(cs.ident, rpc[..])];
    }

    /** Before bucket `bkt` is sent: if it is the open one, open another one behind it. */
    method OpenSuccessor(bkt: RecBucket, ghost o: M.State)
      requires BucketsAre(model) && PeersAre(model) && FieldsAre(model) && Keyed() && Opens(model, o)
      requires bkt == buckets[model.deliver]
      requires deliverNext == (if model.deliver + 1 < |buckets| then buckets[model.deliver + 1] else null)
      modifies this`buckets, this`bktIdx, this`currentOpen, this`deliverNext
      ensures BucketsAre(o) && PeersAre(o) && FieldsAre(o) && Keyed()
      ensures model.deliver + 1 < |buckets| && deliverNext == buckets[model.deliver + 1]
      ensures buckets == old(buckets) || (fresh(currentOpen) && buckets == old(buckets) + [currentOpen])
    {
      ghost var d := model.deliver;
      assert bkt == currentOpen <==> d + 1 == |buckets|;
      if bkt == currentOpen {
        BucketAdd();
        deliverNext := currentOpen;
      }
    }

    /** The end of `reader_handle_dequeue`: give the bucket to the client and send it. */
    method Serve(cs: ClientState, bkt: RecBucket, now: Timespec, ghost k: nat, ghost o: M.State, ghost r: M.State)
      requires BucketsAre(model) && PeersAre(model) && FieldsAre(model) && Keyed()
      requires k < |peers| && cs == peers[k] && bkt == buckets[model.deliver]
      requires deliverNext == (if model.deliver + 1 < |buckets| then buckets[model.deliver + 1] else null)
      requires Opens(model, o) && Hands(o, r, model.deliver, k, now)
      modifies this`buckets, this`bktIdx, this`currentOpen, this`deliverNext, this`outbox, this`model,
               cs`bucket, bkt`expiry
      ensures Coupled() && model == r
      ensures forall b :: b in buckets ==> b in old(buckets) || fresh(b)
    {
      OpenSuccessor(bkt, o);
      HandOver(cs, bkt, now, o, r, model.deliver, k);
    }

    /** From now on, bucket `bkt` belongs to the client, which is sent its records. */
    method HandOver(cs: ClientState, bkt: RecBucket, now: Timespec,
                    ghost o: M.State, ghost r: M.State, ghost d: nat, ghost k: nat)
      requires BucketsAre(o) && PeersAre(o) && FieldsAre(o) && Keyed()
      requires k < |peers| && cs == peers[k] && d + 1 < |buckets| && bkt == buckets[d] && deliverNext == buckets[d + 1]
      requires Hands(o, r, d, k, now)
      modifies this`outbox, this`model, cs`bucket, bkt`expiry
      ensures Coupled() && model == r
    {
      Assign(cs, bkt, now, o, d, k);
      Commit(r);
    }

    /** The two records this changes. */
    method Assign(cs: ClientState, bkt: RecBucket, now: Timespec, ghost o: M.State, ghost d: nat, ghost k: nat)
      requires Keyed() && |buckets| == |o.buckets| && |peers| == |o.peers|
      requires forall i :: 0 <= i < |buckets| ==> buckets[i].Is(o.buckets[i])
      requires forall j :: 0 <= j < |peers| ==> peers[j].Is(o.peers[j])
      requires d < |buckets| && bkt == buckets[d] && k < |peers| && cs == peers[k]
      requires o.buckets[d].size == |Payload(o.buckets[d].recs)|
      modifies this`outbox, cs`bucket, bkt`expiry
      ensures forall i :: 0 <= i < |buckets| ==>
        buckets[i].Is(if i == d then o.buckets[d].(expiry := M.Deadline(now)) else o.buckets[i])
      ensures forall j :: 0 <= j < |peers| ==>
        peers[j].Is(if j == k then o.peers[k].(bucket := Some(o.buckets[d].index)) else o.peers[j])
      ensures forall j :: 0 <= j < |peers| ==> peers[j].bucket == if j == k then bkt else old(peers[j].bucket)
      ensures outbox == old(outbox) + [M.Envelope(o.peers[k].ident, EnqueueMsg(o.buckets[d].recs))]
    {
      assert bkt.Is(o.buckets[d]) && cs.Is(o.peers[k]);
      cs.bucket := bkt;
      EnqueueRec(cs, now);
    }

    /** `reader_handle_dequeue` */
    method HandleDequeue(id: Ident, body: Bytes, now: Timespec) returns (rc: int)
      requires Coupled() && Keyed() && Sized(model)
      modifies this, buckets, peers
      ensures Coupled() && (model, rc) == M.HandleDequeue(old(model), id, body, now)
      ensures peers == old(peers) && forall b :: b in buckets ==> b in old(buckets) || fresh(b)
    {
      if |body| < HEADER_SIZE {
        return -EPROTO;
      }
      var cs := ClientGet(id);
      if cs == null {
        return -EPROTO;
      }
      ghost var k := M.PeerAt(model.peers, id);
      assert cs.Is(model.peers[k]);
      if cs.bucket != null {
        return -EPROTO;
      }
      rc := Provide(cs, now, k);
    }

    /** Its second half: give the client the next bucket, or report the end of the stream. */
    method Provide(cs: ClientState, now: Timespec, ghost k: nat) returns (rc: int)
      requires Coupled() && Keyed() && Sized(model) && k < |peers| && cs == peers[k]
      modifies this`buckets, this`bktIdx, this`currentOpen, this`deliverNext, this`outbox, this`model, buckets, peers
      ensures Coupled() && (model, rc) == NextServed(old(model), k, now)
      ensures forall b :: b in buckets ==> b in old(buckets) || fresh(b)
    {
      var bkt := BucketGet(now);
      if bkt == null {
        return 1;
      }
      DeliverHands(model, k, now);
      Serve(cs, bkt, now, k, M.Opened(model), M.Deliver(model, k, now));
      rc := 0;
    }

    // -------------------------------------------------------------- registration

    /** `reader_handle_start` */
    method HandleStart(id: Ident, body: Bytes) returns (rc: int)
      requires Coupled()
      modifies this
      ensures Coupled() && (model, rc) == M.HandleStart(old(model), id, body)
      ensures buckets == old(buckets) && forall c :: c in peers ==> c in old(peers) || fresh(c)
    {
      if |body| < START_SIZE {
        return -EINVAL;
      }
      var cs := ClientGet(id);
      if cs != null {
        return -EALREADY;
      }
      cs := new ClientState(id, Unlittle(body[16..24]));
      PeerAppend(cs, M.Peer(id, cs.start, None));
      AckRetcode(id, 0);
      rc := 0;
    }

    /** `list_append` of a client */
    method PeerAppend(cs: ClientState, ghost p: M.Peer)
      requires Coupled() && cs.Is(p) && cs.bucket == null
      modifies this`peers, this`model
      ensures Coupled() && model == old(model).(peers := old(model).peers + [p]) && peers == old(peers) + [cs]
    {
      peers := peers + [cs];
      Commit(model.(peers := model.peers + [p]));
    }

    /** `list_remove` of a client */
    method PeerRemove(cs: ClientState, ghost k: nat, ghost r: M.State)
      requires PeersAre(model) && DistinctPeers(peers) && k < |peers| && cs == peers[k]
      requires Removes(model.peers, r.peers, k)
      modifies this`peers
      ensures PeersAre(r)
      ensures forall c :: c in peers ==> c in old(peers)
    {
      WithoutAt(peers, k);
      peers := Without(peers, cs);
    }

    /** `reader_handle_fini` */
    method HandleFini(id: Ident, body: Bytes) returns (rc: int)
      requires Coupled() && Keyed()
      modifies this
      ensures Coupled() && (model, rc) == M.HandleFini(old(model), id, body)
      ensures buckets == old(buckets) && forall c :: c in peers ==> c in old(peers)
    {
      if |body| < HEADER_SIZE {
        return -EPROTO;
      }
      var cs := ClientGet(id);
      if cs == null {
        return -EPROTO;
      }
      Deregister(cs, id);
      rc := 0;
    }

    /** The end of `reader_handle_fini`. */
    method Deregister(cs: ClientState, id: Ident)
      requires Coupled() && Keyed() && M.Registered(model, id) && cs == peers[M.PeerAt(model.peers, id)]
      modifies this`peers, this`outbox, this`model
      ensures Coupled() && model == M.Send(WithoutPeer(old(model), id), id, AckMsg(0))
      ensures forall c :: c in peers ==> c in old(peers)
    {
      PeerRemove(cs, M.PeerAt(model.peers, id), WithoutPeer(model, id));
      Commit(WithoutPeer(model, id));
      AckRetcode(id, 0);
    }

    // -------------------------------------------------------------- acknowledgement

    method GiveBack(cs: ClientState)
      requires cs.bucket != null
      modifies cs`bucket, cs.bucket`ready
      ensures cs.bucket == null && old(cs.bucket).ready
    {
      var bkt := cs.bucket;
      cs.bucket := null;
      bkt.ready := true;
    }

    /** The client gives its bucket back, which becomes ready. */
    method Acknowledge(cs: ClientState, ghost id: Ident)
      requires Coupled() && Keyed() && M.Registered(model, id)
      requires cs == peers[M.PeerAt(model.peers, id)] && cs.bucket != null
      modifies cs`bucket, cs.bucket`ready, this`model
      ensures M.Owned(old(model), id).Some?
      ensures Coupled() && model == M.Acknowledge(old(model), id)
    {
      assert cs.Is(model.peers[M.PeerAt(model.peers, id)]);
      AcknowledgePointwise(model, id);
      GiveBack(cs);
      Commit(M.Acknowledge(model, id));
    }

    /** `llapi_changelog_clear`, the `calls`-th of this request: `up` says what it returns. */
    method UpstreamClear(index: int, calls: nat, up: M.Upstream) returns (rc: int)
      modifies this`cleared
      ensures up.FailAt? && calls == up.call ==> rc == up.rc && cleared == old(cleared)
      ensures !(up.FailAt? && calls == up.call) ==> rc == 0 && cleared == old(cleared) + [index]
    {
      if up.FailAt? && calls == up.call {
        return up.rc;
      }
      cleared := cleared + [index];
      rc := 0;
    }

    /** Unlink and release the head of the list, once it has been cleared upstream. */
    method DropHead(bkt: RecBucket)
      requires BucketsAre(model) && CursorIs(model) && Ordered(buckets)
      requires bkt == buckets[0] && 0 < model.deliver && recCnt == model.recCnt
      modifies this`buckets, this`cleanupNext, this`recCnt
      ensures buckets == old(buckets)[1..] && recCnt == M.Trim(model, 1).recCnt
      ensures BucketsAre(M.Trim(model, 1)) && CursorIs(M.Trim(model, 1))
    {
      assert bkt.Is(model.buckets[0]);
      TrimOne(model);
      NextAt(buckets, 0);
      var next := Next(buckets, bkt);
      buckets := buckets[1..];
      recCnt := recCnt - |bkt.recs|;
      cleanupNext := next;
    }

    /** The head has been cleared upstream: drop it. */
    method Cleared(bkt: RecBucket)
      requires BucketsAre(model) && CursorIs(model) && PeersAre(model) && Keyed()
      requires bkt == buckets[0] && 0 < model.deliver
      requires FieldsAre(model.(cleared := model.cleared + [M.MaxIndex(model.buckets[0].recs)]))
      requires forall k :: 0 <= k < |peers| && peers[k].bucket != null ==> peers[k].bucket in buckets[1..]
      modifies this`buckets, this`cleanupNext, this`recCnt, this`model
      ensures Coupled() && Keyed() && model == M.Trim(old(model), 1) && buckets == old(buckets)[1..]
    {
      TrimOne(model);
      DropHead(bkt);
      assert PeersAre(M.Trim(model, 1));
      Commit(M.Trim(model, 1));
    }

    /** Clear the head upstream and, if that is granted, drop it. */
    method ClearHead(calls: nat, up: M.Upstream) returns (rc: int)
      requires Coupled() && Keyed() && Tidy(model) && cleanupNext.ready
      modifies this`buckets, this`cleanupNext, this`recCnt, this`cleared, this`model
      ensures Coupled() && Keyed() && 0 < old(model).deliver
      ensures up.FailAt? && calls == up.call ==> rc == up.rc && model == old(model) && buckets == old(buckets)
      ensures !(up.FailAt? && calls == up.call) ==>
        rc == 0 && model == M.Trim(old(model), 1) && 1 < |old(buckets)| && buckets == old(buckets)[1..]
    {
      var bkt := cleanupNext;
      assert bkt.Is(model.buckets[0]);
      PeersOutlive();
      var index := bkt.MaxIndex();
      rc := UpstreamClear(index, calls, up);
      if rc >= 0 {
        Cleared(bkt);
      }
    }

    /** Nobody owns a ready bucket: once the head is dropped, owned buckets are still in the list. */
    lemma PeersOutlive()
      requires BucketsAre(model) && PeersAre(model) && Ordered(buckets) && Tidy(model) && buckets[0].ready
      ensures forall k :: 0 <= k < |peers| && peers[k].bucket != null ==> peers[k].bucket in buckets[1..]
    {
      assert buckets[0].Is(model.buckets[0]);
      forall k | 0 <= k < |peers| && peers[k].bucket != null
        ensures peers[k].bucket in buckets[1..]
      {
        assert peers[k].Is(model.peers[k]);
        var i :| 0 <= i < |buckets| && buckets[i] == peers[k].bucket;
        assert Outstanding(model, model.peers[k].bucket.value);
        assert buckets[i].Is(model.buckets[i]);
        assert i > 0 ==> buckets[1..][i - 1] == buckets[i];
      }
    }

    /** The clearing loop: acknowledge upstream the ready buckets at the head of the list, in order,
        until one is not ready or the upstream refuses. */
    method CleanupLoop(up: M.Upstream) returns (rc: int)
      requires Coupled() && Keyed() && Tidy(model)
      modifies this`buckets, this`cleanupNext, this`recCnt, this`cleared, this`model
      ensures Coupled() && (model, rc) == M.Cleanup(old(model), up)
      ensures forall b :: b in buckets ==> b in old(buckets)
    {
      ghost var start := model;
      var calls := 0;
      while cleanupNext.ready
        invariant Coupled() && Keyed() && Tidy(model)
        invariant Drops(start, model, calls)
        invariant up.FailAt? ==> calls <= up.call
        invariant forall b :: b in buckets ==> b in old(buckets)
        decreases |buckets|
      {
        ghost var before := model;
        assert buckets[0].Is(model.buckets[0]);
        rc := ClearHead(calls, up);
        if rc < 0 {
          CleanupIs(start, model, calls, up);
          return rc;
        }
        TrimTidy(before);
        DropsNext(start, before, calls);
        calls := calls + 1;
      }
      assert buckets[0].Is(model.buckets[0]);
      CleanupIs(start, model, calls, up);
      rc := 0;
    }

    /** The end of `reader_handle_clear`, for a client that holds a bucket. */
    method ClearBucket(cs: ClientState, id: Ident, up: M.Upstream) returns (rc: int)
      requires Coupled() && Keyed() && Tidy(model) && M.Registered(model, id)
      requires cs == peers[M.PeerAt(model.peers, id)] && cs.bucket != null
      modifies this`buckets, this`cleanupNext, this`recCnt, this`cleared, this`outbox, this`model,
               cs`bucket, cs.bucket`ready
      ensures M.Owned(old(model), id).Some?
      ensures Coupled() && (model, rc) == Answered(M.Cleanup(M.Acknowledge(old(model), id), up), id)
      ensures forall b :: b in buckets ==> b in old(buckets)
    {
      ghost var before := model;
      Acknowledge(cs, id);
      AcknowledgeTidy(before, id);
      rc := CleanupAnswered(id, up);
    }

    /** Clear as far as possible and tell the client, unless the dispatcher has to. */
    method CleanupAnswered(id: Ident, up: M.Upstream) returns (rc: int)
      requires Coupled() && Keyed() && Tidy(model)
      modifies this`buckets, this`cleanupNext, this`recCnt, this`cleared, this`outbox, this`model
      ensures Coupled() && (model, rc) == Answered(M.Cleanup(old(model), up), id)
      ensures forall b :: b in buckets ==> b in old(buckets)
    {
      rc := CleanupLoop(up);
      if rc >= 0 {
        AckRetcode(id, 0);
        rc := 0;
      }
    }

    /** `reader_handle_clear`.  `up` says what the upstream clears this request triggers return. */
    method HandleClear(id: Ident, body: Bytes, up: M.Upstream) returns (rc: int)
      requires Coupled() && Keyed() && Tidy(model)
      modifies this, buckets, peers
      ensures Coupled() && (model, rc) == M.HandleClear(old(model), id, body, up)
      ensures peers == old(peers) && forall b :: b in buckets ==> b in old(buckets)
    {
      if |body| < CLEAR_SIZE {
        return -EPROTO;
      }
      var cs := ClientGet(id);
      if cs == null {
        return -EPROTO;
      }
      assert cs.Is(model.peers[M.PeerAt(model.peers, id)]);
      if cs.bucket == null {
        AckRetcode(id, 0);
        return 0;
      }
      ClearHeld(model, id, body, up);
      rc := ClearBucket(cs, id, up);
    }

    // -------------------------------------------------------------- the event loop

    /** `rpc_handle_one`, after the checks of `changelog_reader_rpc_hdl`. */
    method Handle(id: Ident, body: Bytes, now: Timespec, up: M.Upstream) returns (rc: int)
      requires Coupled() && Keyed() && Tidy(model) && Sized(model)
      modifies this, buckets, peers
      ensures Coupled() && (model, rc) == M.Handle(old(model), id, body, now, up)
      ensures forall b :: b in buckets ==> b in old(buckets) || fresh(b)
      ensures forall c :: c in peers ==> c in old(peers) || fresh(c)
    {
      if |body| < HEADER_SIZE {
        return -EPROTO;
      }
      var op := OpType(body);
      if op > OP_SIGNAL {
        return -EINVAL;
      }
      if op == OP_START {
        rc := HandleStart(id, body);
      } else if op == OP_DEQUEUE {
        rc := HandleDequeue(id, body, now);
      } else if op == OP_CLEAR {
        rc := HandleClear(id, body, up);
      } else if op == OP_FINI {
        rc := HandleFini(id, body);
      } else {
        rc := -EPROTO;
      }
    }

    /** `changelog_reader_rpc_hdl`: errors and end of stream are answered here. */
    method Dispatch(id: Ident, body: Bytes, now: Timespec, up: M.Upstream)
      requires Coupled() && Keyed() && Tidy(model) && Sized(model)
      modifies this, buckets, peers
      ensures Coupled() && model == M.Dispatch(old(model), id, body, now, up)
      ensures forall b :: b in buckets ==> b in old(buckets) || fresh(b)
      ensures forall c :: c in peers ==> c in old(peers) || fresh(c)
    {
      var rc := Handle(id, body, now, up);
      if rc < 0 || rc == 1 {
        AckRetcode(id, rc);
      }
    }

    /** The invariant gives every handler what it relies on. */
    lemma ValidReady()
      requires Valid()
      ensures Ready()
    {
      assert forall i :: 0 <= i < |buckets| ==> buckets[i].Is(model.buckets[i]);
      assert forall k :: 0 <= k < |peers| ==> peers[k].Is(model.peers[k]);
    }

    /** Every bucket and client the reader holds. */
    ghost function Repr(): (r: set<object>)
      reads this
      ensures forall b :: b in buckets ==> b in r
      ensures forall c :: c in peers ==> c in r
    {
      (set b | b in buckets :: b as object) + (set c | c in peers :: c as object)
    }

    /** The reader after any number of turns. */
    ghost predicate Running()
      reads this, buckets, peers
    {
      Coupled() && Reachable(model)
    }

    /** What every handler relies on. */
    ghost predicate Ready()
      reads this, buckets, peers
    {
      Coupled() && Keyed() && Tidy(model) && Sized(model) && cfg.batch > 0
    }

    /** A message from the broker, or an intake of records. */
    method Process(e: M.Event)
      requires Ready()
      modifies this, Repr()
      ensures Coupled() && model == M.Step(old(model), e)
      ensures forall o :: o in Repr() ==> o in old(Repr()) || fresh(o)
    {
      match e
      case Message(from, body, now, up) => Dispatch(from, body, now, up);
      case Read(startRc, feed, last) => var _ := Enqueue(startRc, feed, last);
    }

    /** One turn of the reader: the class steps exactly as the state machine does and keeps its
        invariant. */
    method Turn(e: M.Event)
      requires Valid()
      modifies this, Repr()
      ensures Valid() && model == M.Step(old(model), e)
      ensures forall o :: o in Repr() ==> o in old(Repr()) || fresh(o)
    {
      ValidReady();
      StepInv(model, e);
      Process(e);
    }

    lemma RunningReady()
      requires Running()
      ensures Ready()
    {
      ReachableInv(model);
      ValidReady();
    }

    /** An intake, with its outcome. */
    method Read(startRc: int, feed: seq<Rec>, last: M.EndCode) returns (rc: int)
      requires Running()
      modifies this, Repr()
      ensures Running() && (model, rc) == M.Intake(old(model), startRc, feed, last)
      ensures forall o :: o in Repr() ==> o in old(Repr()) || fresh(o)
    {
      RunningReady();
      ReachableStep(model, M.Read(startRc, feed, last));
      rc := Enqueue(startRc, feed, last);
    }

    /** One message. */
    method Answer(r: M.Request)
      requires Running()
      modifies this, Repr()
      ensures Running() && model == M.Dispatch(old(model), r.from, r.body, r.now, r.up)
      ensures forall o :: o in Repr() ==> o in old(Repr()) || fresh(o)
    {
      RunningReady();
      ReachableStep(model, M.Message(r.from, r.body, r.now, r.up));
      Dispatch(r.from, r.body, r.now, r.up);
    }

    /** `changelog_reader_serve`: every message that is waiting, in order. */
    method ServeAll(inbox: seq<M.Request>)
      requires Running()
      modifies this, Repr()
      ensures Running() && model == M.ServeAll(old(model), inbox)
      ensures forall o :: o in Repr() ==> o in old(Repr()) || fresh(o)
    {
      var i := 0;
      while i < |inbox|
        invariant 0 <= i <= |inbox| && Running() && model == M.ServeAll(old(model), inbox[..i])
        invariant forall o :: o in Repr() ==> o in old(Repr()) || fresh(o)
      {
        R.ServeAllNext(old(model), inbox, i);
        Answer(inbox[i]);
        i := i + 1;
      }
      assert inbox[..i] == inbox;
    }

    /** One pass of the main loop: read, then serve. */
    method OnePass(p: M.Pass) returns (rc: int)
      requires Running()
      modifies this, Repr()
      ensures Running() && (model, rc) == M.OnePass(old(model), p)
      ensures forall o :: o in Repr() ==> o in old(Repr()) || fresh(o)
    {
      rc := Read(p.startRc, p.feed, p.last);
      if rc >= 0 {
        ServeAll(p.inbox);
        rc := 0;
      }
    }

    /** `reader_main`, once initialised: passes until an intake fails. */
    method MainLoop(passes: seq<M.Pass>) returns (rc: int)
      requires Running()
      modifies this, Repr()
      ensures Running() && (model, rc) == M.MainLoop(old(model), passes)
    {
      var i := 0;
      rc := 0;
      while i < |passes| && rc >= 0
        invariant 0 <= i <= |passes| && Running() && (model, rc) == M.MainLoop(old(model), passes[..i])
        invariant forall o :: o in Repr() ==> o in old(Repr()) || fresh(o)
      {
        R.MainLoopNext(old(model), passes, i);
        rc := OnePass(passes[i]);
        i := i + 1;
      }
      if rc < 0 {
        R.MainLoopEnds(old(model), passes, i);
      }
      assert rc >= 0 ==> passes[..i] == passes;
    }
  }

  /** What the clearing loop relies on: a ready bucket lies before the cursor, and what a client owns
      is outstanding. */
  ghost predicate Tidy(s: M.State) {
    && (forall i :: 0 <= i < |s.buckets| ==> s.buckets[i].index == |s.trimmed| + i)
    && (forall i :: s.deliver <= i < |s.buckets| ==> !s.buckets[i].ready)
    && OwnerInv(s)
  }

  /** The outcome of a handler that answers its client itself when it succeeds. */
  function Answered(outcome: (M.State, int), id: Ident): (M.State, int) {
    if outcome.1 < 0 then outcome else (M.Send(outcome.0, id, AckMsg(0)), 0)
  }

  lemma ClearHeld(s: M.State, id: Ident, body: Bytes, up: M.Upstream)
    requires |body| >= CLEAR_SIZE && M.Owned(s, id).Some?
    ensures M.HandleClear(s, id, body, up) == Answered(M.Cleanup(M.Acknowledge(s, id), up), id)
  {
  }

  lemma AcknowledgeTidy(s: M.State, id: Ident)
    requires Tidy(s) && M.Owned(s, id).Some?
    ensures Tidy(M.Acknowledge(s, id))
  {
    var k, x := M.PeerAt(s.peers, id), M.Owned(s, id).value;
    var t := M.Acknowledge(s, id);
    assert Outstanding(s, x);
    assert forall y: nat :: Outstanding(s, y) && y != x ==> Outstanding(t, y);
  }

  lemma TrimTidy(s: M.State)
    requires Tidy(s) && s.buckets[0].ready && 1 < |s.buckets|
    ensures Tidy(M.Trim(s, 1))
  {
    var t := M.Trim(s, 1);
    assert t.buckets == s.buckets[1..] && |t.trimmed| == |s.trimmed| + 1;
    forall x: nat | Outstanding(s, x)
      ensures Outstanding(t, x)
    {
      assert t.buckets[x - |t.trimmed|] == s.buckets[x - |s.trimmed|];
    }
  }

  /** `after` is `before` without the peer at `k`. */
  ghost predicate Removes(before: seq<M.Peer>, after: seq<M.Peer>, k: nat) {
    && k < |before| == |after| + 1
    && forall j :: 0 <= j < |after| ==> after[j] == before[if j < k then j else j + 1]
  }

  function WithoutPeer(s: M.State, id: Ident): M.State
    requires M.Registered(s, id)
  {
    var k := M.PeerAt(s.peers, id);
    s.(peers := s.peers[..k] + s.peers[k + 1..])
  }

  /** The outcome of reading a session. */
  function AfterSession(s: M.State, open: M.Session): (M.State, int) {
    var (t, rest, ended) := M.Pull(s, open.pending, 0);
    var rc := if ended then open.last else 0;
    (t.(session := if ended && M.Reopens(rc) then None else Some(M.Session(rest, open.last))), rc)
  }

  lemma IntakeIs(s: M.State, startRc: int, feed: seq<Rec>, last: M.EndCode)
    requires !M.Full(s) && (s.session.Some? || startRc == 0)
    ensures M.Intake(s, startRc, feed, last)
         == AfterSession(s, if s.session.Some? then s.session.value else M.Session(feed, last))
  {
    PullEnds(s, if s.session.Some? then s.session.value.pending else feed, 0);
  }

  lemma {:induction false} ReadyAtLeast(bs: seq<M.Bucket>, n: nat)
    requires n < |bs| && forall i :: 0 <= i < n ==> bs[i].ready
    ensures M.ReadyPrefix(bs) >= n
  {
    if n > 0 {
      ReadyAtLeast(bs[1..], n - 1);
    }
  }

  lemma ReadyExactly(bs: seq<M.Bucket>, n: nat)
    requires n < |bs| && !bs[n].ready && forall i :: 0 <= i < n ==> bs[i].ready
    ensures M.ReadyPrefix(bs) == n
  {
    ReadyAtLeast(bs, n);
  }

  /** Trimming the head. */
  lemma TrimOne(s: M.State)
    requires 1 < |s.buckets|
    ensures var t, b := M.Trim(s, 1), s.buckets[0];
      t == s.(buckets := s.buckets[1..], deliver := if s.deliver >= 1 then s.deliver - 1 else 0,
              recCnt := s.recCnt - |b.recs|,
              trimmed := s.trimmed + [b.recs], cleared := s.cleared + [M.MaxIndex(b.recs)])
  {
    var b := s.buckets[0];
    assert s.buckets[..1] == [b];
    assert M.BucketRecs([b]) == [b.recs];
    FlattenOne(b.recs);
  }

  /** `t` is `s` after `n` ready heads were dropped one by one. */
  ghost predicate Drops(s: M.State, t: M.State, n: nat) {
    && n < |s.buckets| && t == M.Trim(s, n)
    && forall i :: 0 <= i < n ==> s.buckets[i].ready
  }

  lemma TrimNext(s: M.State, m: nat)
    requires m + 1 < |s.buckets|
    ensures M.Trim(M.Trim(s, m), 1) == M.Trim(s, m + 1)
  {
    var b := s.buckets[m];
    assert s.buckets[..m + 1] == s.buckets[..m] + [b];
    assert M.BucketRecs(s.buckets[..m + 1]) == M.BucketRecs(s.buckets[..m]) + [b.recs];
    FlattenSnoc(M.BucketRecs(s.buckets[..m]), b.recs);
    assert s.buckets[m..][..1] == [b];
    assert M.BucketRecs([b]) == [b.recs];
    FlattenOne(b.recs);
  }

  /** Dropping one more. */
  lemma DropsNext(s: M.State, t: M.State, n: nat)
    requires Drops(s, t, n) && t.buckets[0].ready && 1 < |t.buckets|
    ensures Drops(s, M.Trim(t, 1), n + 1)
  {
    TrimNext(s, n);
    assert t.buckets[0] == s.buckets[n];
  }

  /** When the next head is not ready, or the upstream refuses it, the cleanup is complete. */
  lemma CleanupIs(s: M.State, t: M.State, n: nat, up: M.Upstream)
    requires Drops(s, t, n) && (up.FailAt? ==> n <= up.call)
    requires !t.buckets[0].ready || (up.FailAt? && n == up.call && 1 < |t.buckets|)
    ensures M.Cleanup(s, up) == (t, if t.buckets[0].ready then up.rc else 0)
  {
    assert t.buckets[0] == s.buckets[n];
    if t.buckets[0].ready {
      ReadyAtLeast(s.buckets, n + 1);
    } else {
      ReadyExactly(s.buckets, n);
    }
  }

  /** `lrb_size` of every bucket is the length of its records. */
  ghost predicate Sized(s: M.State) {
    forall i :: 0 <= i < |s.buckets| ==> s.buckets[i].size == |Payload(s.buckets[i].recs)|
  }

  /** The outcome of looking for a bucket to give to peer `k`. */
  function NextServed(s: M.State, k: nat, now: Timespec): (M.State, int)
    requires k < |s.peers|
  {
    var r := M.Positioned(s, now);
    if r.buckets[r.deliver].recs == [] then (r, 1) else (M.Deliver(r, k, now), 0)
  }

  lemma PositionedSized(s: M.State, now: Timespec)
    requires Sized(s)
    ensures Sized(M.Positioned(s, now))
  {
  }

  /** `r` is `o` after bucket `d` was given and sent to client `k`. */
  ghost predicate Hands(o: M.State, r: M.State, d: nat, k: nat, now: Timespec) {
    && d < |o.buckets| == |r.buckets| && k < |o.peers| == |r.peers|
    && o.buckets[d].size == |Payload(o.buckets[d].recs)|
    && (forall i :: 0 <= i < |r.buckets| ==>
          r.buckets[i] == if i == d then o.buckets[d].(expiry := M.Deadline(now)) else o.buckets[i])
    && (forall j :: 0 <= j < |r.peers| ==>
          r.peers[j] == if j == k then o.peers[k].(bucket := Some(o.buckets[d].index)) else o.peers[j])
    && r.deliver == d + 1
    && (r.cfg, r.srec, r.bktIdx, r.recCnt, r.recRead, r.session, r.cleared) ==
         (o.cfg, o.srec, o.bktIdx, o.recCnt, o.recRead, o.session, o.cleared)
    && r.outbox == o.outbox + [M.Envelope(o.peers[k].ident, EnqueueMsg(o.buckets[d].recs))]
  }

  /** `o` is `s` with a bucket behind the cursor, opened if there was none. */
  ghost predicate Opens(s: M.State, o: M.State) {
    var add := s.deliver + 1 == |s.buckets|;
    && o.buckets == (if add then s.buckets + [M.EmptyBucket(s.bktIdx)] else s.buckets)
    && o.bktIdx == (if add then s.bktIdx + 1 else s.bktIdx)
    && SameButList(s, o)
  }

  /** Sending the bucket at the cursor does both. */
  lemma DeliverHands(s: M.State, k: nat, now: Timespec)
    requires k < |s.peers| && Sized(s)
    ensures Opens(s, M.Opened(s)) && Hands(M.Opened(s), M.Deliver(s, k, now), s.deliver, k, now)
  {
  }

  lemma AcknowledgePointwise(s: M.State, id: Ident)
    requires M.Owned(s, id).Some?
    ensures var r, x := M.Acknowledge(s, id), M.Owned(s, id).value;
      && |r.buckets| == |s.buckets| && |r.peers| == |s.peers|
      && (forall i :: 0 <= i < |r.buckets| ==>
            r.buckets[i] == if s.buckets[i].index == x then s.buckets[i].(ready := true) else s.buckets[i])
      && (forall j :: 0 <= j < |r.peers| ==>
            r.peers[j] == if j == M.PeerAt(s.peers, id) then s.peers[j].(bucket := None) else s.peers[j])
      && r.deliver == s.deliver
      && r.cfg == s.cfg && r.srec == s.srec && r.bktIdx == s.bktIdx && r.recCnt == s.recCnt
      && r.recRead == s.recRead && r.session == s.session && r.outbox == s.outbox && r.cleared == s.cleared
  {
  }

  /** `s` with room for a record in its open bucket. */
  function Room(s: M.State): M.State {
    if |M.Last(s).recs| == s.cfg.batch then
      s.(buckets := s.buckets + [M.EmptyBucket(s.bktIdx)], bktIdx := s.bktIdx + 1)
    else s
  }

  ghost predicate MakesRoom(s: M.State, o: M.State) {
    var full := |M.Last(s).recs| == s.cfg.batch;
    && o.buckets == (if full then s.buckets + [M.EmptyBucket(s.bktIdx)] else s.buckets)
    && o.bktIdx == (if full then s.bktIdx + 1 else s.bktIdx)
    && SameButList(s, o)
  }

  /** `r` is `o` with the record in its open bucket. */
  ghost predicate Fills(o: M.State, rec: Rec, r: M.State) {
    var n := |o.buckets| - 1;
    var b := o.buckets[n];
    && |r.buckets| == |o.buckets| && r.bktIdx == o.bktIdx
    && (forall i :: 0 <= i < |o.buckets| ==>
          r.buckets[i] == if i == n then b.(recs := b.recs + [rec], size := b.size + |rec.bytes|) else o.buckets[i])
    && SameButList(o, r)
  }

  ghost predicate SameButList(s: M.State, r: M.State) {
    && r.deliver == s.deliver && r.peers == s.peers
    && (r.cfg, r.srec, r.recCnt, r.recRead, r.session, r.outbox, r.cleared) ==
         (s.cfg, s.srec, s.recCnt, s.recRead, s.session, s.outbox, s.cleared)
  }

  function Accounted(s: M.State, rec: Rec): M.State {
    s.(srec := rec.index + 1, recRead := s.recRead + 1, recCnt := s.recCnt + 1)
  }

  lemma InsertFills(s: M.State, rec: Rec)
    ensures MakesRoom(s, Room(s)) && Fills(Room(s), rec, M.Insert(s, rec))
    ensures M.Store(s, rec) == Accounted(M.Insert(s, rec), rec)
  {
    assert [] + [rec] == [rec];
  }

  /** `r` is `s` after a rewind: what changes record by record, and what does not. */
  ghost predicate RewindsTo(s: M.State, r: M.State) {
    && |r.buckets| == |s.buckets| && |r.peers| == |s.peers| && r.deliver == 0
    && (forall i :: 0 <= i < |s.buckets| ==>
          r.buckets[i] == if i < s.deliver then s.buckets[i].(ready := false) else s.buckets[i])
    && (forall k :: 0 <= k < |s.peers| ==>
          r.peers[k] == s.peers[k].(bucket := KeptBucket(s.peers[k].bucket, s.buckets[..s.deliver])))
    && (r.cfg, r.srec, r.bktIdx, r.recCnt, r.recRead, r.session, r.outbox, r.cleared) ==
         (s.cfg, s.srec, s.bktIdx, s.recCnt, s.recRead, s.session, s.outbox, s.cleared)
  }

  function KeptBucket(x: Option<nat>, sent: seq<M.Bucket>): Option<nat> {
    if x.Some? && M.HasIndex(sent, x.value) then None else x
  }

  lemma RewindRewinds(s: M.State)
    ensures RewindsTo(s, M.Rewind(s))
  {
  }

  lemma RewindPeer(s: M.State, r: M.State, k: nat, bs: seq<RecBucket>, b: RecBucket?)
    requires RewindsTo(s, r)
    requires k < |s.peers| && |bs| == |s.buckets| && Ordered(bs) && (b != null ==> b in bs)
    requires forall i :: 0 <= i < |bs| ==> bs[i].index == s.buckets[i].index
    requires s.peers[k].bucket == if b == null then None else Some(b.index)
    ensures r.peers[k] == s.peers[k].(bucket := if b == null || b in bs[..s.deliver] then None else Some(b.index))
  {
    BeforeCursor(bs, s.buckets, s.deliver, b);
  }

  lemma InPrefix(bs: seq<RecBucket>, i: nat)
    requires i < |bs|
    ensures forall b: RecBucket? :: b in bs[..i + 1] <==> b in bs[..i] || b == bs[i]
  {
    assert bs[..i + 1] == bs[..i] + [bs[i]];
  }

  /** A bucket of the list lies before the cursor exactly when its index does. */
  lemma BeforeCursor(bs: seq<RecBucket>, ms: seq<M.Bucket>, d: nat, b: RecBucket?)
    requires |bs| == |ms| && d <= |bs| && Ordered(bs) && (b != null ==> b in bs)
    requires forall i :: 0 <= i < |bs| ==> bs[i].index == ms[i].index
    ensures b != null ==> (b in bs[..d] <==> M.HasIndex(ms[..d], b.index))
  {
    if b != null {
      var i :| 0 <= i < |bs| && bs[i] == b;
      if i < d {
        assert bs[..d][i] == b && ms[..d][i].index == b.index;
      }
      if M.HasIndex(ms[..d], b.index) {
        var j :| 0 <= j < d && ms[..d][j].index == b.index;
        assert bs[j].index == b.index;
      }
    }
  }

  lemma {:induction false} FirstPeer(peers: seq<M.Peer>, id: Ident, k: nat)
    requires k <= |peers| && (k < |peers| ==> peers[k].ident == id)
    requires forall j :: 0 <= j < k ==> peers[j].ident != id
    ensures M.PeerAt(peers, id) == k
  {
    if k > 0 {
      FirstPeer(peers[1..], id, k - 1);
    }
  }
}

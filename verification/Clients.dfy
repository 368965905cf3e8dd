/** The proxy client as it runs: an array of records that is reallocated and refilled, and a cursor
    that hands them out one by one. */
module Clients {
  import opened Records
  import opened Wire
  import opened WireBuffers
  import opened ClientModel

  const DEFAULT_CACHE_SIZE := 256

  const NO_RECORD := Rec(0, [])

  /** `struct px_zmq_data` */
  class ProxyClient {
    const lay: Layout
    var records: array<Rec>
    var recNxt: nat
    var recCnt: nat
    var buffered: bool
    var sent: seq<Bytes>

    /** The cursor is within the batch, the batch within the allocated slots, and the reception
        buffer is held as long as a record of it is undelivered. */
    ghost predicate Valid()
      reads this
    {
      recNxt <= recCnt <= records.Length && (recNxt < recCnt ==> buffered)
    }

    ghost function View(): Cache
      requires Valid()
      reads this, records
    {
      Cache(records[..recCnt], recNxt)
    }

    /** `pzd_init` */
    constructor (lay: Layout)
      ensures Valid() && View() == EMPTY_CACHE && this.lay == lay && fresh(records) && sent == []
      ensures records.Length == DEFAULT_CACHE_SIZE
    {
      this.lay := lay;
      records := new Rec[DEFAULT_CACHE_SIZE](_ => NO_RECORD);
      recNxt, recCnt, buffered, sent := 0, 0, false, [];
    }

    /** `pzd_cache_grow`: `realloc` keeps what fits. */
    method CacheGrow(slots: nat)
      modifies this`records
      ensures fresh(records) && records.Length == slots
      ensures forall i :: 0 <= i < slots && i < old(records).Length ==> records[i] == old(records[i])
    {
      var grown := new Rec[slots](_ => NO_RECORD);
      var kept := if slots < records.Length then slots else records.Length;
      forall i | 0 <= i < kept {
        grown[i] := records[i];
      }
      records := grown;
    }

    /** The walk of `px_dequeue_records` over the body of an ENQUEUE message.  The client does not
        check that it stays within the buffer; `overrun` says that it does not. */
    method FillRecords(buf: Bytes, count: nat) returns (overrun: bool)
      requires count <= records.Length
      modifies records
      ensures overrun <==> Walk(lay, buf, count).Overrun?
      ensures !overrun ==> records[..count] == Walk(lay, buf, count).recs
    {
      var off := 0;
      for i := 0 to count
        invariant off <= |buf|
        invariant match Walk(lay, buf[off..], count - i)
          case Overrun => Walk(lay, buf, count).Overrun?
          case Walked(recs, rest) => Walk(lay, buf, count) == Walked(records[..i] + recs, rest)
      {
        if |buf| - off < lay.header {
          return true;
        }
        var head := buf[off..][..lay.header];
        var len := lay.Length(head);
        if |buf| - off < len {
          return true;
        }
        assert buf[off..][..len] == buf[off..off + len] && buf[off..][len..] == buf[off + len..];
        records[i] := Rec(lay.index(head), buf[off..off + len]);
        off := off + len;
      }
      overrun := false;
    }

    /** `px_dequeue_records`: send a DEQUEUE and read its reply. */
    method DequeueRecords(reply: Bytes) returns (rc: int, overrun: bool)
      requires Valid() && Exhausted(View())
      modifies this, records
      ensures sent == old(sent) + [DequeueMsg()]
      ensures overrun <==> Decode(lay, reply).Corrupt?
      ensures Valid() && (records == old(records) || fresh(records))
      ensures !overrun ==>
        match Decode(lay, reply)
        case Batch(recs) => rc == 0 && View() == Cache(recs, 0)
        case Retcode(code) => rc == code && View() == old(View())
    {
      sent := sent + [DequeueMsg()];
      rc, overrun := 0, false;
      if |reply| > RECV_BUFFER_LENGTH {
        rc := -EOVERFLOW;
      } else if |reply| < HEADER_SIZE {
        rc := -EINVAL;
      } else if OpType(reply) == OP_ACK {
        rc := if |reply| < ACK_SIZE then -EINVAL else Wire.Retcode(reply);
      } else if OpType(reply) == OP_ENQUEUE {
        if |reply| < ENQUEUE_SIZE + lay.header {
          rc := -EINVAL;
        } else {
          var count := RecCount(reply);
          if count > recCnt {
            CacheGrow(count);
          }
          overrun := FillRecords(reply[ENQUEUE_SIZE..], count);
          if !overrun {
            recNxt, recCnt, buffered := 0, count, true;
          }
        }
      } else {
        rc := -EPROTO;
      }
    }

    /** `px_changelog_recv` */
    method Recv(reply: Bytes) returns (out: Outcome)
      requires Valid()
      modifies this, records
      ensures Valid() && (records == old(records) || fresh(records))
      ensures sent == old(sent) + (if Exhausted(old(View())) then [DequeueMsg()] else [])
      ensures Exhausted(old(View())) && Decode(lay, reply).Corrupt? ==> out == OutOfBounds
      ensures !(Exhausted(old(View())) && Decode(lay, reply).Corrupt?) ==>
        (View(), out) == Receive(lay, old(View()), reply)
    {
      if recNxt == recCnt {
        var rc, overrun := DequeueRecords(reply);
        if overrun {
          return OutOfBounds;
        }
        if rc != 0 {
          return Code(rc);
        }
      }
      if recNxt >= recCnt {
        return OutOfBounds;
      }
      out := Got(records[recNxt]);
      recNxt := recNxt + 1;
    }

    /** `px_changelog_free`: the buffer goes with the last record of the batch. */
    method Free()
      requires Valid()
      modifies this`buffered
      ensures Valid() && View() == old(View())
      ensures buffered == (old(buffered) && !Exhausted(View()))
    {
      if recNxt == recCnt {
        buffered := false;
      }
    }

    /** `px_changelog_clear`: every clear of a batch but the last one is a local no-op; the last one
        is a CLEAR request, whose reply is `reply`. */
    method Clear(mdtname: Bytes, id: Bytes, endrec: int, reply: Bytes) returns (rc: int)
      requires Valid()
      modifies this`sent
      ensures Valid() && View() == old(View())
      ensures sent == old(sent) + (if Exhausted(View()) then [ClearMsg(id, mdtname, endrec)] else [])
      ensures rc == if Exhausted(View()) then AckCode(reply) else 0
    {
      if recNxt < recCnt {
        return 0;
      }
      var rpc := PackClear(id, mdtname, endrec);
      sent := sent + [rpc[..]];
      rc := AckCode(reply);
    }
  }
}

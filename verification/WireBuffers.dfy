/** The packers as the daemon and the client run them: messages assembled in place in a
    zero-filled buffer. */
module WireBuffers {
  import opened Records
  import opened Wire

  /** `memcpy` of `src` at offset `off`. */
  method Copy(dst: array<byte>, off: nat, src: Bytes)
    requires off + |src| <= dst.Length
    modifies dst
    ensures dst[..] == old(dst[..off]) + src + old(dst[off + |src|..])
  {
    forall i | 0 <= i < |src| {
      dst[off + i] := src[i];
    }
  }

  lemma {:induction false} PayloadSplit(recs: seq<Rec>, i: nat)
    requires i <= |recs|
    ensures Payload(recs) == Payload(recs[..i]) + Payload(recs[i..])
  {
    if i > 0 {
      PayloadSplit(recs[1..], i - 1);
      assert recs[..i][1..] == recs[1..][..i - 1];
      assert recs[i..] == recs[1..][i - 1..];
    }
  }

  /** Copying the next record of a batch stays within the payload. */
  lemma PayloadNext(recs: seq<Rec>, i: nat)
    requires i < |recs|
    ensures Payload(recs[..i + 1]) == Payload(recs[..i]) + recs[i].bytes
    ensures |Payload(recs[..i + 1])| <= |Payload(recs)|
  {
    assert recs[..i + 1] == recs[..i] + [recs[i]];
    PayloadSnoc(recs[..i], recs[i]);
    PayloadSplit(recs, i + 1);
  }

  /** Pack an ENQUEUE message.  When `size` is the aggregated size of the records, the buffer is
      filled exactly and never overrun. */
  method PackEnqueue(recs: seq<Rec>, size: nat) returns (rpc: array<byte>)
    requires size == |Payload(recs)|
    ensures fresh(rpc) && rpc[..] == EnqueueMsg(recs)
  {
    var head := Header(OP_ENQUEUE) + Little(|recs|, 4);
    rpc := new byte[ENQUEUE_SIZE + size](_ => 0);
    Copy(rpc, 0, head);
    var off := ENQUEUE_SIZE;
    for i := 0 to |recs|
      invariant off == ENQUEUE_SIZE + |Payload(recs[..i])| <= rpc.Length
      invariant rpc[..off] == head + Payload(recs[..i])
    {
      PayloadNext(recs, i);
      Copy(rpc, off, recs[i].bytes);
      off := off + |recs[i].bytes|;
    }
    assert recs[..|recs|] == recs;
    assert rpc[..] == rpc[..off];
  }

  function Zeros(n: nat): (z: Bytes)
    ensures |z| == n
  {
    seq(n, _ => 0)
  }

  /** Writing `a`, then `b` one byte further, into `n` zeros. */
  method CopyStrings(rpc: array<byte>, head: Bytes, a: Bytes, b: Bytes)
    requires rpc[..] == head + Zeros(|a| + |b| + 2)
    modifies rpc
    ensures rpc[..] == head + a + [0] + b + [0]
  {
    Copy(rpc, |head|, a);
    assert rpc[..] == head + a + Zeros(|b| + 2);
    Copy(rpc, |head| + |a| + 1, b);
    assert rpc[..] == head + a + Zeros(1) + b + Zeros(1);
    assert Zeros(1) == [0];
  }

  /** Pack a CLEAR message: the two strings are copied one byte apart into a zero-filled buffer,
      so that each is followed by its terminator. */
  method PackClear(id: Bytes, mdtname: Bytes, endrec: int) returns (rpc: array<byte>)
    ensures fresh(rpc) && rpc[..] == ClearMsg(id, mdtname, endrec)
  {
    var head := Header(OP_CLEAR) + Little(endrec % TWO_64, 8) + Little(Store32(|id| + |mdtname| + 2), 4);
    rpc := new byte[CLEAR_SIZE + |id| + |mdtname| + 2](_ => 0);
    Copy(rpc, 0, head);
    assert rpc[..] == head + Zeros(|id| + |mdtname| + 2);
    CopyStrings(rpc, head, id, mdtname);
  }

  /** `strlen` from offset `off`. */
  method StringLength(buf: array<byte>, off: nat) returns (n: nat)
    requires off <= buf.Length
    ensures n == |CString(buf[off..])|
  {
    n := 0;
    while off + n < buf.Length && buf[off + n] != 0
      invariant off + n <= buf.Length
      invariant |CString(buf[off..])| == n + |CString(buf[off + n..])|
    {
      assert buf[off + n..] == [buf[off + n]] + buf[off + n + 1..];
      n := n + 1;
    }
  }
}

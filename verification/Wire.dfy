/** Message layouts of the LCAP exchange protocol (packed, little endian), the packers and the
    getters, as functions on byte strings. */
module Wire {
  import opened Records

  const OP_START := 0
  const OP_DEQUEUE := 1
  const OP_CLEAR := 2
  const OP_FINI := 3
  const OP_ENQUEUE := 4
  const OP_ACK := 5
  const OP_SIGNAL := 6

  const HEADER_SIZE := 8
  const START_SIZE := 152
  const CLEAR_SIZE := 20
  const ENQUEUE_SIZE := 12
  const ACK_SIZE := 12
  const SIGNAL_SIZE := 144
  const MDTNAME_SIZE := 128

  const TWO_31 := 0x8000_0000
  const TWO_32 := 0x1_0000_0000
  const TWO_64 := 0x1_0000_0000_0000_0000

  // ---------------------------------------------------------------- little-endian integers

  function Little(n: nat, width: nat): (bs: Bytes)
    ensures |bs| == width
  {
    if width == 0 then [] else [(n % 0x100) as byte] + Little(n / 0x100, width - 1)
  }

  function Unlittle(bs: Bytes): nat {
    if bs == [] then 0 else bs[0] as nat + 0x100 * Unlittle(bs[1..])
  }

  function Power256(k: nat): nat {
    if k == 0 then 1 else 0x100 * Power256(k - 1)
  }

  lemma {:induction false} LittleRoundTrip(n: nat, width: nat)
    requires n < Power256(width)
    ensures Unlittle(Little(n, width)) == n
  {
    if width > 0 {
      LittleRoundTrip(n / 0x100, width - 1);
      assert Little(n, width)[1..] == Little(n / 0x100, width - 1);
    }
  }

  /** Too large a number is truncated to the width of its field. */
  lemma {:induction false} LittleModulo(n: nat, width: nat)
    ensures Power256(width) > 0 && Unlittle(Little(n, width)) == n % Power256(width)
  {
    if width > 0 {
      LittleModulo(n / 0x100, width - 1);
      assert Little(n, width)[1..] == Little(n / 0x100, width - 1);
      ModuloSplit(n, Power256(width - 1));
    }
  }

  lemma ModuloSplit(n: nat, m: nat)
    requires m > 0
    ensures n % (0x100 * m) == n % 0x100 + 0x100 * ((n / 0x100) % m)
  {
    var q, r := n / 0x100 / m, (n / 0x100) % m;
    assert n == 0x100 * (q * m + r) + n % 0x100;
    assert 0x100 * (q * m + r) == q * (0x100 * m) + 0x100 * r;
    ModuloIs(n, 0x100 * m, q, 0x100 * r + n % 0x100);
  }

  lemma ModuloIs(n: nat, m: nat, q: nat, r: nat)
    requires n == q * m + r && r < m
    ensures n % m == r
  {
    var d := n / m - q;
    assert n == n / m * m + n % m;
    assert d * m == r - n % m;
    Multiple(d, m);
  }

  lemma Multiple(d: int, m: nat)
    ensures d > 0 ==> d * m >= m
    ensures d < 0 ==> d * m <= 0 - m
  {
    assert d > 0 ==> (d - 1) * m >= 0;
    assert d < 0 ==> (-d - 1) * m >= 0;
  }

  lemma {:induction false} UnlittleBound(bs: Bytes)
    ensures Unlittle(bs) < Power256(|bs|)
  {
    if bs != [] {
      UnlittleBound(bs[1..]);
    }
  }

  /** Reading a field and writing it back changes nothing. */
  lemma {:induction false} LittleUnlittle(bs: Bytes)
    ensures Little(Unlittle(bs), |bs|) == bs
  {
    if bs != [] {
      LittleUnlittle(bs[1..]);
      assert Unlittle(bs) % 0x100 == bs[0] as nat && Unlittle(bs) / 0x100 == Unlittle(bs[1..]);
    }
  }

  lemma Power256Four()
    ensures Power256(4) == TWO_32
  {
    assert Power256(1) == 0x100;
    assert Power256(2) == 0x1_0000;
    assert Power256(3) == 0x100_0000;
  }

  /** Two's complement: how an `int` is stored in 32 bits, and how it is read back. */
  function Store32(n: int): nat {
    n % TWO_32
  }

  function Load32(u: nat): int {
    if u < TWO_31 then u else u - TWO_32
  }

  // ---------------------------------------------------------------- messages

  function Header(op: nat): (bs: Bytes)
    ensures |bs| == HEADER_SIZE
  {
    Little(op, 4) + Little(0, 4)
  }

  function OpType(body: Bytes): nat
    requires |body| >= HEADER_SIZE
  {
    Unlittle(body[..4])
  }

  /** The shortest body the broker forwards for each operation. */
  function ExpectedLength(op: nat): nat
    requires op <= OP_SIGNAL
  {
    if op == OP_START then START_SIZE
    else if op == OP_CLEAR then CLEAR_SIZE
    else if op == OP_ENQUEUE then ENQUEUE_SIZE
    else if op == OP_ACK then ACK_SIZE
    else if op == OP_SIGNAL then SIGNAL_SIZE
    else HEADER_SIZE
  }

  function AckMsg(rc: int): (bs: Bytes)
    ensures |bs| == ACK_SIZE
  {
    Header(OP_ACK) + Little(Store32(rc), 4)
  }

  function Retcode(body: Bytes): int
    requires |body| >= ACK_SIZE
  {
    Load32(Unlittle(body[8..12]))
  }

  /** The records of a batch, one after the other. */
  function Payload(recs: seq<Rec>): Bytes {
    if recs == [] then [] else recs[0].bytes + Payload(recs[1..])
  }

  function EnqueueMsg(recs: seq<Rec>): (bs: Bytes)
    ensures |bs| == ENQUEUE_SIZE + |Payload(recs)|
  {
    Header(OP_ENQUEUE) + Little(|recs|, 4) + Payload(recs)
  }

  function RecCount(body: Bytes): nat
    requires |body| >= ENQUEUE_SIZE
  {
    Unlittle(body[8..12])
  }

  /** `strncpy` into a zero-filled field of fixed width. */
  function Padded(name: Bytes, width: nat): (bs: Bytes)
    ensures |bs| == width
  {
    if |name| >= width then name[..width] else name + seq(width - |name|, _ => 0)
  }

  function StartMsg(flags: nat, mdtname: Bytes, startrec: int): (bs: Bytes)
    ensures |bs| == START_SIZE
  {
    Header(OP_START) + Little(flags, 4) + Little(0, 4) + Little(startrec % TWO_64, 8) + Padded(mdtname, MDTNAME_SIZE)
  }

  function DequeueMsg(): Bytes { Header(OP_DEQUEUE) }

  function FiniMsg(): Bytes { Header(OP_FINI) }

  /** CLEAR carries the reader id and the MDT name, each followed by a NUL. */
  function ClearMsg(id: Bytes, mdtname: Bytes, endrec: int): (bs: Bytes)
    ensures |bs| == CLEAR_SIZE + |id| + |mdtname| + 2
  {
    Header(OP_CLEAR) + Little(endrec % TWO_64, 8) + Little(Store32(|id| + |mdtname| + 2), 4)
    + id + [0] + mdtname + [0]
  }

  lemma HeaderOp(op: nat, rest: Bytes)
    requires op < TWO_32
    ensures OpType(Header(op) + rest) == op
  {
    Power256Four();
    LittleRoundTrip(op, 4);
    assert (Header(op) + rest)[..4] == Little(op, 4);
  }

  predicate ReservedClear(msg: Bytes)
    requires |msg| >= HEADER_SIZE
  {
    msg[4..8] == [0, 0, 0, 0]
  }

  /** The reserved word of every message is zero. */
  lemma Reserved(flags: nat, mdtname: Bytes, startrec: int, id: Bytes, endrec: int, rc: int, recs: seq<Rec>)
    ensures ReservedClear(StartMsg(flags, mdtname, startrec)) && ReservedClear(DequeueMsg())
    ensures ReservedClear(ClearMsg(id, mdtname, endrec)) && ReservedClear(FiniMsg())
    ensures ReservedClear(AckMsg(rc)) && ReservedClear(EnqueueMsg(recs))
  {
    ZeroWord();
    assert forall op :: Header(op)[4..8] == Little(0, 4);
    assert forall op, rest: Bytes :: (Header(op) + rest)[4..8] == Header(op)[4..8];
    ClearMsgHeader(id, mdtname, endrec);
  }

  lemma ZeroWord()
    ensures Little(0, 4) == [0, 0, 0, 0]
  {
    assert Little(0, 1) == [0] && Little(0, 2) == [0, 0] && Little(0, 3) == [0, 0, 0];
  }

  lemma ClearMsgHeader(id: Bytes, mdtname: Bytes, endrec: int)
    ensures ClearMsg(id, mdtname, endrec)[4..8] == Little(0, 4)
  {
  }

  /** The packers write the operation that the dispatchers will read. */
  lemma ReplyOps(rc: int, recs: seq<Rec>)
    ensures OpType(AckMsg(rc)) == OP_ACK
    ensures OpType(EnqueueMsg(recs)) == OP_ENQUEUE
  {
    HeaderOp(OP_ACK, Little(Store32(rc), 4));
    HeaderOp(OP_ENQUEUE, Little(|recs|, 4) + Payload(recs));
    assert EnqueueMsg(recs) == Header(OP_ENQUEUE) + (Little(|recs|, 4) + Payload(recs));
  }

  lemma StartOp(flags: nat, mdtname: Bytes, startrec: int)
    ensures OpType(StartMsg(flags, mdtname, startrec)) == OP_START
  {
    var a, b, c, d := Little(flags, 4), Little(0, 4), Little(startrec % TWO_64, 8), Padded(mdtname, MDTNAME_SIZE);
    HeaderOp(OP_START, a + b + c + d);
    assert Header(OP_START) + a + b + c + d == Header(OP_START) + (a + b + c + d);
  }

  /** START carries the start record where the reader looks for it. */
  lemma StartRecord(flags: nat, mdtname: Bytes, startrec: int)
    ensures Unlittle(StartMsg(flags, mdtname, startrec)[16..24]) == startrec % TWO_64
  {
    var n := startrec % TWO_64;
    assert StartMsg(flags, mdtname, startrec)[16..24] == Little(n, 8);
    Power256Eight();
    LittleRoundTrip(n, 8);
  }

  /** CLEAR carries the index it clears. */
  lemma ClearIndex(id: Bytes, mdtname: Bytes, endrec: int)
    ensures Unlittle(ClearMsg(id, mdtname, endrec)[8..16]) == endrec % TWO_64
  {
    var n := endrec % TWO_64;
    assert ClearMsg(id, mdtname, endrec)[8..16] == Little(n, 8);
    Power256Eight();
    LittleRoundTrip(n, 8);
  }

  /** START carries the flags, truncated to their field, and the MDT name, which is terminated exactly
      if it is shorter than its field. */
  lemma StartFields(flags: nat, mdtname: Bytes, startrec: int)
    requires 0 !in mdtname
    ensures var msg := StartMsg(flags, mdtname, startrec);
      && Unlittle(msg[8..12]) == flags % TWO_32 && Unlittle(msg[12..16]) == 0
      && CString(msg[24..]) == (if |mdtname| <= MDTNAME_SIZE then mdtname else mdtname[..MDTNAME_SIZE])
      && (0 in msg[24..] <==> |mdtname| < MDTNAME_SIZE)
  {
    var msg := StartMsg(flags, mdtname, startrec);
    Power256Four();
    LittleModulo(flags, 4);
    LittleModulo(0, 4);
    assert msg[8..12] == Little(flags, 4) && msg[12..16] == Little(0, 4);
    assert msg[24..] == Padded(mdtname, MDTNAME_SIZE);
    if |mdtname| < MDTNAME_SIZE {
      var pad: Bytes := seq(MDTNAME_SIZE - |mdtname|, _ => 0);
      assert pad == [0] + pad[1..];
      assert mdtname + pad == mdtname + [0] + pad[1..];
      CStringIs(mdtname, pad[1..]);
      assert msg[24..][|mdtname|] == 0;
    } else {
      CStringWhole(mdtname[..MDTNAME_SIZE]);
    }
  }

  lemma {:induction false} CStringWhole(s: Bytes)
    requires 0 !in s
    ensures CString(s) == s
  {
    if s != [] {
      CStringWhole(s[1..]);
    }
  }

  /** Every message that is packed is as long as its receiver requires, the fixed ones exactly so. */
  lemma PackedLengths(flags: nat, mdtname: Bytes, startrec: int, id: Bytes, endrec: int, rc: int, recs: seq<Rec>)
    ensures |StartMsg(flags, mdtname, startrec)| == ExpectedLength(OP_START)
    ensures |DequeueMsg()| == ExpectedLength(OP_DEQUEUE) && |FiniMsg()| == ExpectedLength(OP_FINI)
    ensures |ClearMsg(id, mdtname, endrec)| == ExpectedLength(OP_CLEAR) + |id| + |mdtname| + 2
    ensures |AckMsg(rc)| == ExpectedLength(OP_ACK)
    ensures |EnqueueMsg(recs)| == ExpectedLength(OP_ENQUEUE) + |Payload(recs)|
  {
  }

  lemma Power256Eight()
    ensures Power256(8) == TWO_64
  {
    Power256Four();
    assert Power256(5) == 0x100_0000_0000;
    assert Power256(6) == 0x1_0000_0000_0000;
    assert Power256(7) == 0x100_0000_0000_0000;
  }

  lemma ShortOps()
    ensures OpType(DequeueMsg()) == OP_DEQUEUE
    ensures OpType(FiniMsg()) == OP_FINI
  {
    HeaderOp(OP_DEQUEUE, []);
    assert DequeueMsg() == Header(OP_DEQUEUE) + [];
    HeaderOp(OP_FINI, []);
    assert FiniMsg() == Header(OP_FINI) + [];
  }

  lemma ClearOp(id: Bytes, mdtname: Bytes, endrec: int)
    ensures OpType(ClearMsg(id, mdtname, endrec)) == OP_CLEAR
  {
    var a, b := Little(endrec % TWO_64, 8), Little(Store32(|id| + |mdtname| + 2), 4);
    ClearTail(a, b, id, mdtname);
  }

  lemma ClearTail(a: Bytes, b: Bytes, id: Bytes, mdtname: Bytes)
    ensures OpType(Header(OP_CLEAR) + a + b + id + [0] + mdtname + [0]) == OP_CLEAR
  {
    HeaderOp(OP_CLEAR, a + b + id + [0] + mdtname + [0]);
    assert Header(OP_CLEAR) + a + b + id + [0] + mdtname + [0]
        == Header(OP_CLEAR) + (a + b + id + [0] + mdtname + [0]);
  }

  /** A return code survives the trip, sign included. */
  lemma AckRoundTrip(rc: int)
    requires -TWO_31 <= rc < TWO_31
    ensures Retcode(AckMsg(rc)) == rc
  {
    Power256Four();
    LittleRoundTrip(Store32(rc), 4);
    assert AckMsg(rc)[8..12] == Little(Store32(rc), 4);
  }

  // ---------------------------------------------------------------- batches

  /** How a record describes itself: the size of its fixed header, and what the header says of
      the bytes that follow it (extensions and name) and of the record's index.  The definition
      of the header belongs to Lustre, so every such description is covered. */
  datatype Layout = Layout(header: nat, extra: Bytes -> nat, index: Bytes -> nat) {
    predicate Valid() {
      header > 0
    }

    function Length(head: Bytes): nat {
      header + extra(head)
    }

    /** The bytes of `r` are as long as their own header says, and hold its index. */
    predicate Describes(r: Rec) {
      |r.bytes| >= header
      && var head := r.bytes[..header]; |r.bytes| == Length(head) && r.index == index(head)
    }
  }

  predicate AllDescribed(lay: Layout, recs: seq<Rec>) {
    forall i :: 0 <= i < |recs| ==> lay.Describes(recs[i])
  }

  datatype Walked = Walked(recs: seq<Rec>, rest: Bytes) | Overrun

  /** Step through `count` records, each found where the previous one ends.  `Overrun` stands for
      a walk that leaves the buffer. */
  function Walk(lay: Layout, buf: Bytes, count: nat): Walked {
    if count == 0 then Walked([], buf)
    else if |buf| < lay.header then Overrun
    else
      var head := buf[..lay.header];
      var len := lay.Length(head);
      if |buf| < len then Overrun
      else match Walk(lay, buf[len..], count - 1)
        case Overrun => Overrun
        case Walked(recs, rest) => Walked([Rec(lay.index(head), buf[..len])] + recs, rest)
  }

  lemma {:induction false} WalkPayload(lay: Layout, recs: seq<Rec>, tail: Bytes)
    requires AllDescribed(lay, recs)
    ensures Walk(lay, Payload(recs) + tail, |recs|) == Walked(recs, tail)
  {
    if recs == [] {
      assert Payload(recs) + tail == tail;
    } else {
      var first := recs[0];
      var rest := Payload(recs[1..]) + tail;
      assert lay.Describes(first);
      assert Payload(recs) + tail == first.bytes + rest;
      WalkPayload(lay, recs[1..], tail);
      WalkOne(lay, first, rest, |recs| - 1);
    }
  }

  lemma WalkOne(lay: Layout, first: Rec, rest: Bytes, count: nat)
    requires lay.Describes(first)
    ensures Walk(lay, first.bytes + rest, count + 1)
         == match Walk(lay, rest, count)
            case Overrun => Overrun
            case Walked(recs, tail) => Walked([first] + recs, tail)
  {
    var buf := first.bytes + rest;
    assert buf[..lay.header] == first.bytes[..lay.header];
    assert buf[..|first.bytes|] == first.bytes;
    assert buf[|first.bytes|..] == rest;
  }

  lemma {:induction false} PayloadSnoc(recs: seq<Rec>, r: Rec)
    ensures Payload(recs + [r]) == Payload(recs) + r.bytes
  {
    if recs == [] {
      assert Payload([r]) == r.bytes + Payload([]);
    } else {
      PayloadSnoc(recs[1..], r);
      assert (recs + [r])[1..] == recs[1..] + [r];
    }
  }

  /** A batch of bounded records has a bounded size. */
  lemma {:induction false} PayloadBound(recs: seq<Rec>, limit: nat)
    requires forall i :: 0 <= i < |recs| ==> |recs[i].bytes| <= limit
    ensures |Payload(recs)| <= |recs| * limit
  {
    if recs != [] {
      PayloadBound(recs[1..], limit);
    }
  }

  /** The client's walk over an ENQUEUE message recovers the batch and stops on its last byte,
      whatever the layout of the records. */
  lemma BatchRoundTrip(lay: Layout, recs: seq<Rec>)
    requires AllDescribed(lay, recs) && |recs| < TWO_32
    ensures var msg := EnqueueMsg(recs);
            RecCount(msg) == |recs| && Walk(lay, msg[ENQUEUE_SIZE..], RecCount(msg)) == Walked(recs, [])
  {
    var msg := EnqueueMsg(recs);
    Power256Four();
    LittleRoundTrip(|recs|, 4);
    assert msg[8..12] == Little(|recs|, 4);
    assert msg[ENQUEUE_SIZE..] == Payload(recs) + [];
    WalkPayload(lay, recs, []);
  }

  // ---------------------------------------------------------------- strings of a CLEAR message

  /** The bytes before the first NUL. */
  function CString(buf: Bytes): (s: Bytes)
    ensures |s| <= |buf| && s == buf[..|s|]
    ensures |s| < |buf| ==> buf[|s|] == 0
    ensures 0 !in s
  {
    if buf == [] || buf[0] == 0 then [] else [buf[0]] + CString(buf[1..])
  }

  function GetId(msg: Bytes): Bytes
    requires |msg| >= CLEAR_SIZE
  {
    CString(msg[CLEAR_SIZE..])
  }

  function GetMdtname(msg: Bytes): Bytes
    requires |msg| >= CLEAR_SIZE
  {
    var start := CLEAR_SIZE + |GetId(msg)| + 1;
    if start <= |msg| then CString(msg[start..]) else []
  }

  function IdLength(msg: Bytes): int
    requires |msg| >= CLEAR_SIZE
  {
    Load32(Unlittle(msg[16..20]))
  }

  /** A NUL-free string followed by a NUL is what the string read there is. */
  lemma {:induction false} CStringIs(s: Bytes, tail: Bytes)
    requires 0 !in s
    ensures CString(s + [0] + tail) == s
  {
    var buf := s + [0] + tail;
    if s == [] {
      assert buf[0] == 0;
    } else {
      assert buf[0] == s[0] && buf[1..] == s[1..] + [0] + tail;
      CStringIs(s[1..], tail);
    }
  }

  lemma ClearStrings(stamp: Bytes, len: Bytes, id: Bytes, mdtname: Bytes)
    requires |stamp| == 16 && |len| == 4 && 0 !in id && 0 !in mdtname
    ensures var msg := stamp + len + id + [0] + mdtname + [0];
            && GetId(msg) == id && GetMdtname(msg) == mdtname && msg[16..20] == len
            && msg[CLEAR_SIZE + |id|] == 0 && msg[CLEAR_SIZE + |id| + 1 + |mdtname|] == 0
  {
    var msg := stamp + len + id + [0] + mdtname + [0];
    assert msg[CLEAR_SIZE..] == id + [0] + (mdtname + [0]);
    CStringIs(id, mdtname + [0]);
    assert msg[CLEAR_SIZE + |id| + 1..] == mdtname + [0] + [];
    CStringIs(mdtname, []);
  }

  lemma AnnouncedLength(n: nat)
    requires n < TWO_31
    ensures Load32(Unlittle(Little(Store32(n), 4))) == n
  {
    Power256Four();
    LittleRoundTrip(Store32(n), 4);
  }

  /** Both getters return exactly the strings that were packed, and both terminators lie within
      the announced length. */
  lemma ClearRoundTrip(id: Bytes, mdtname: Bytes, endrec: int)
    requires 0 !in id && 0 !in mdtname && |id| + |mdtname| + 2 < TWO_31
    ensures var msg := ClearMsg(id, mdtname, endrec);
            && GetId(msg) == id && GetMdtname(msg) == mdtname
            && IdLength(msg) == |id| + |mdtname| + 2
            && msg[CLEAR_SIZE + |id|] == 0 && msg[CLEAR_SIZE + |id| + 1 + |mdtname|] == 0
            && |id| + 1 + |mdtname| < IdLength(msg)
  {
    var announced := |id| + |mdtname| + 2;
    ClearStrings(Header(OP_CLEAR) + Little(endrec % TWO_64, 8), Little(Store32(announced), 4), id, mdtname);
    AnnouncedLength(announced);
  }
}

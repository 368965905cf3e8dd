/** Values shared by every component: bytes, identities, changelog records, clock readings,
    and the concatenation of batches. */
module Records {

  newtype byte = b: int | 0 <= b < 0x100

  type Bytes = seq<byte>

  /** A connection identity (`struct conn_id`): its length and its data. */
  type Ident = Bytes

  datatype Option<+T> = None | Some(value: T)

  /** A changelog record: its index in the changelog and the bytes it occupies in memory and on
      the wire, extensions and name included. */
  datatype Rec = Rec(index: nat, bytes: Bytes)

  const NSEC_PER_SEC := 1_000_000_000

  type Nsec = n: nat | n < NSEC_PER_SEC

  /** A reading of the monotonic clock. */
  datatype Timespec = Timespec(sec: nat, nsec: Nsec)

  function Nanos(t: Timespec): nat {
    t.sec * NSEC_PER_SEC + t.nsec
  }

  // Linux errno values used by the daemon and its client.
  const EAGAIN := 11
  const EINVAL := 22
  const EPROTO := 71
  const EOVERFLOW := 75
  const EALREADY := 114

  /** A failure code, as an `int` holding a negated errno. */
  type Failure = rc: int | -0x8000_0000 <= rc < 0 witness -1

  function Flatten<T>(batches: seq<seq<T>>): seq<T> {
    if batches == [] then [] else batches[0] + Flatten(batches[1..])
  }

  lemma {:induction false} FlattenConcat<T>(xs: seq<seq<T>>, ys: seq<seq<T>>)
    ensures Flatten(xs + ys) == Flatten(xs) + Flatten(ys)
  {
    if xs == [] {
      assert xs + ys == ys;
    } else {
      assert (xs + ys)[1..] == xs[1..] + ys;
      FlattenConcat(xs[1..], ys);
    }
  }

  lemma FlattenOne<T>(x: seq<T>)
    ensures Flatten([x]) == x
  {
    assert Flatten([x]) == x + Flatten<T>([]);
  }

  lemma FlattenSnoc<T>(xs: seq<seq<T>>, x: seq<T>)
    ensures Flatten(xs + [x]) == Flatten(xs) + x
  {
    FlattenConcat(xs, [x]);
    FlattenOne(x);
  }

  /** Growing the last batch by one element appends that element to the whole. */
  lemma FlattenGrowLast<T>(xs: seq<seq<T>>, e: T)
    requires xs != []
    ensures var n := |xs| - 1; Flatten(xs[n := xs[n] + [e]]) == Flatten(xs) + [e]
  {
    var n := |xs| - 1;
    var init := xs[..n];
    assert xs == init + [xs[n]];
    assert xs[n := xs[n] + [e]] == init + [xs[n] + [e]];
    FlattenSnoc(init, xs[n]);
    FlattenSnoc(init, xs[n] + [e]);
  }

  /** Every element of a batch is an element of the whole. */
  lemma {:induction false} FlattenMember<T>(xs: seq<seq<T>>, i: nat, e: T)
    requires i < |xs| && e in xs[i]
    ensures e in Flatten(xs)
  {
    if i > 0 {
      assert xs[1..][i - 1] == xs[i];
      FlattenMember(xs[1..], i - 1, e);
    }
  }

  /** Every element of the whole comes from some batch. */
  lemma {:induction false} FlattenSource<T>(xs: seq<seq<T>>, e: T) returns (i: nat)
    requires e in Flatten(xs)
    ensures i < |xs| && e in xs[i]
  {
    if e in xs[0] {
      i := 0;
    } else {
      var j := FlattenSource(xs[1..], e);
      i := j + 1;
    }
  }

  /** A sequence of non-empty batches is no longer than what it holds. */
  lemma {:induction false} FlattenAtLeast<T>(xs: seq<seq<T>>)
    requires forall i :: 0 <= i < |xs| ==> xs[i] != []
    ensures |xs| <= |Flatten(xs)|
  {
    if xs != [] {
      FlattenAtLeast(xs[1..]);
    }
  }

  ghost predicate Increasing(recs: seq<Rec>) {
    forall i, j :: 0 <= i < j < |recs| ==> recs[i].index < recs[j].index
  }
}

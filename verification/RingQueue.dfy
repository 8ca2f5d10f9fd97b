/** A byte queue laid out in a ring of slots: the common ground of the queues of this project, each of
    which encodes its start and length in its own way. */
module RingQueue {

  /** The slot `t` places after slot `o` of a ring of `size` slots. */
  function Slot(o: nat, t: nat, size: nat): (i: nat)
    requires o < size && t <= size
    ensures i < size
  {
    if o + t < size then o + t else o + t - size
  }

  /** The `n` bytes from slot `o` on. */
  function Queue(b: seq<bv8>, o: nat, n: nat): (q: seq<bv8>)
    requires o < |b| && n <= |b|
    ensures |q| == n
  {
    seq(n, j requires 0 <= j < n => b[Slot(o, j, |b|)])
  }

  /** `c` is `b` with `d` written from slot `off` on, around the end if need be. */
  ghost predicate Written(b: seq<bv8>, c: seq<bv8>, off: nat, d: seq<bv8>)
    requires off < |b|
  {
    && |c| == |b| && |d| <= |b|
    && (forall i :: 0 <= i < |d| ==> c[Slot(off, i, |b|)] == d[i])
    && (forall i :: |d| <= i < |b| ==> c[Slot(off, i, |b|)] == b[Slot(off, i, |b|)])
  }

  /** Writing behind the queue, into free slots, appends. */
  lemma WriteAppends(b: seq<bv8>, c: seq<bv8>, o: nat, n: nat, d: seq<bv8>)
    requires o < |b| && n + |d| <= |b| && Written(b, c, Slot(o, n, |b|), d)
    ensures Queue(c, o, n + |d|) == Queue(b, o, n) + d
  {
    var m, off := |b|, Slot(o, n, |b|);
    forall j | 0 <= j < n
      ensures c[Slot(o, j, m)] == b[Slot(o, j, m)]
    {
      var i := m - n + j;
      assert Slot(off, i, m) == Slot(o, j, m);
    }
    forall j | 0 <= j < |d|
      ensures c[Slot(o, n + j, m)] == d[j]
    {
      assert Slot(off, j, m) == Slot(o, n + j, m);
    }
  }

  /** Moving the start on drops the head. */
  lemma AdvanceDrops(b: seq<bv8>, o: nat, n: nat, len: nat)
    requires o < |b| && len <= n <= |b|
    ensures Queue(b, Slot(o, len, |b|), n - len) == Queue(b, o, n)[len..]
    ensures Queue(b, o, len) == Queue(b, o, n)[..len]
  {
    forall j | 0 <= j < n - len
      ensures Slot(Slot(o, len, |b|), j, |b|) == Slot(o, len + j, |b|)
    {
    }
  }
}

/** Intrusive circular doubly linked lists (beken378/common/doubly_list.h).

    A list is a ring of link nodes that starts with its header.  The ghost sequence `c` passed to the
    operations is that ring, header first, so the elements of the list are `c[1..]`. */
module DoublyList {

  /** One `struct list_head`.  `slot` stands for the position of the record the node is embedded in:
      it is what the address arithmetic of `list_entry` computes.  A bare header has slot -1. */
  class ListHead {
    var next: ListHead?
    var prev: ListHead?
    const slot: int

    constructor (slot: int)
      ensures this.slot == slot && next == null && prev == null
    {
      this.slot := slot;
      next, prev := null, null;
    }
  }

  ghost predicate Distinct<T>(s: seq<T>) {
    forall i, j :: 0 <= i < j < |s| ==> s[i] != s[j]
  }

  ghost function Succ(i: nat, n: nat): nat {
    if i + 1 == n then 0 else i + 1
  }

  ghost function Pred(i: nat, n: nat): int {
    if i == 0 then n - 1 else i - 1
  }

  ghost predicate Follows(c: seq<ListHead>, i: nat)
    requires i < |c|
    reads c[i]
  {
    c[i].next == c[Succ(i, |c|)]
  }

  ghost predicate Precedes(c: seq<ListHead>, i: nat)
    requires i < |c|
    reads c[i]
  {
    c[i].prev == c[Pred(i, |c|)]
  }

  /** `c` is a well-formed ring: distinct nodes, every `next` and `prev` leads to the neighbour. */
  ghost predicate Ring(c: seq<ListHead>)
    reads c
  {
    && |c| > 0
    && Distinct(c)
    && forall i :: 0 <= i < |c| ==> Follows(c, i) && Precedes(c, i)
  }

  /** The ring with `x` inserted right after position `k`. */
  ghost function InsertAfter<T>(c: seq<T>, k: nat, x: T): seq<T>
    requires k < |c|
  {
    c[..k + 1] + [x] + c[k + 1..]
  }

  /** The ring without position `k`. */
  ghost function Without<T>(c: seq<T>, k: nat): seq<T>
    requires k < |c|
  {
    c[..k] + c[k + 1..]
  }

  ghost predicate Disjoint<T>(c: seq<T>, d: seq<T>) {
    forall i, j :: 0 <= i < |c| && 0 <= j < |d| ==> c[i] != d[j]
  }

  method InitListHead(h: ListHead)
    modifies h
    ensures Ring([h])
  {
    h.next := h;
    h.prev := h;
  }

  /** A ring cut open after position `k`, with both ends tied to `x`. */
  lemma LinkedIn(c: seq<ListHead>, k: nat, x: ListHead)
    requires k < |c| && Distinct(c) && x !in c
    requires forall i :: 0 <= i < |c| && i != k ==> Follows(c, i)
    requires forall i :: 0 <= i < |c| && i != Succ(k, |c|) ==> Precedes(c, i)
    requires c[k].next == x && x.prev == c[k] && x.next == c[Succ(k, |c|)] && c[Succ(k, |c|)].prev == x
    ensures Ring(InsertAfter(c, k, x))
  {
    var e := InsertAfter(c, k, x);
    forall i | 0 <= i < |e|
      ensures Follows(e, i) && Precedes(e, i)
    {
      if i != k + 1 {
        var o := if i <= k then i else i - 1;
        assert e[i] == c[o];
        assert o != k ==> Follows(c, o);
        assert o != Succ(k, |c|) ==> Precedes(c, o);
      }
    }
  }

  /** A ring whose links bypass position `k`. */
  lemma LinkedOut(c: seq<ListHead>, k: nat)
    requires 0 < k < |c| && Distinct(c)
    requires forall i :: 0 <= i < |c| && i != k - 1 && i != k ==> Follows(c, i)
    requires forall i :: 0 <= i < |c| && i != Succ(k, |c|) && i != k ==> Precedes(c, i)
    requires c[k - 1].next == c[Succ(k, |c|)] && c[Succ(k, |c|)].prev == c[k - 1]
    ensures Ring(Without(c, k))
  {
    var e := Without(c, k);
    forall i | 0 <= i < |e|
      ensures Follows(e, i) && Precedes(e, i)
    {
      var o := if i < k then i else i + 1;
      assert e[i] == c[o];
      assert o != k - 1 ==> Follows(c, o);
      assert o != Succ(k, |c|) ==> Precedes(c, o);
    }
  }

  /** The elements of `c` linked between the header of `d` and the elements of `d`. */
  lemma LinkedTogether(c: seq<ListHead>, d: seq<ListHead>)
    requires |c| > 1 && |d| > 0 && Distinct(c) && Distinct(d) && Disjoint(c, d)
    requires forall i :: 1 <= i < |c| - 1 ==> Follows(c, i)
    requires forall i :: 2 <= i < |c| ==> Precedes(c, i)
    requires forall i :: 1 <= i < |d| ==> Follows(d, i)
    requires forall i :: 0 <= i < |d| && i != Succ(0, |d|) ==> Precedes(d, i)
    requires d[0].next == c[1] && c[1].prev == d[0]
    requires c[|c| - 1].next == d[Succ(0, |d|)] && d[Succ(0, |d|)].prev == c[|c| - 1]
    ensures Ring([d[0]] + c[1..] + d[1..])
  {
    var e := [d[0]] + c[1..] + d[1..];
    var m := |c| - 1;
    assert forall i :: 0 <= i < |e| ==> e[i] == if i == 0 then d[0] else if i <= m then c[i] else d[i - m];
    forall i | 0 <= i < |e|
      ensures Follows(e, i) && Precedes(e, i)
    {
      if i == 0 {
        assert |d| > 1 ==> Precedes(d, 0);
      } else if i <= m {
        assert e[i] == c[i];
        assert i < m ==> Follows(c, i);
        assert i > 1 ==> Precedes(c, i);
      } else {
        assert e[i] == d[i - m] && Follows(d, i - m);
        assert i - m != 1 ==> Precedes(d, i - m);
      }
    }
  }

  /** `prev` and `next` are the neighbours around the gap after position `k` of ring `c`. */
  ghost predicate Between(prev: ListHead, next: ListHead, c: seq<ListHead>, k: nat)
    reads c
  {
    Ring(c) && k < |c| && prev == c[k] && next == c[Succ(k, |c|)]
  }

  /** The raw insertion.  Its effect on the links is stated without assuming anything about the nodes,
      because callers do reach it with a node that is linked already.  Between neighbours of a ring
      that does not hold the new node it inserts. */
  method ListAdd(x: ListHead, prev: ListHead, next: ListHead, ghost c: seq<ListHead>, ghost k: nat)
    modifies x, prev, next
    ensures x.prev == prev && prev.next == x
    ensures prev != x ==> x.next == next
    ensures next != x ==> next.prev == x
    ensures prev != next && prev != x ==> prev.prev == old(prev.prev)
    ensures prev != next && next != x ==> next.next == old(next.next)
    ensures old(Between(prev, next, c, k)) && x !in c ==> Ring(InsertAfter(c, k, x))
  {
    next.prev := x;
    x.next := next;
    x.prev := prev;
    prev.next := x;
    if old(Between(prev, next, c, k)) && x !in c {
      assert old(Follows(c, k) && Precedes(c, Succ(k, |c|)));
      LinkedIn(c, k, x);
    }
  }

  /** Insert after `head`, any node of the ring. */
  method ListAddHead(x: ListHead, head: ListHead, ghost c: seq<ListHead>, ghost k: nat)
    requires Ring(c) && k < |c| && head == c[k] && x !in c
    modifies x, head, head.next
    ensures Ring(InsertAfter(c, k, x))
  {
    assert Follows(c, k);
    ListAdd(x, head, head.next, c, k);
  }

  /** Insert before `head`; before the header the node becomes the last element.  A node that is in
      the same ring already, further on, leaves links behind that are no ring through the header. */
  method ListAddTail(x: ListHead, head: ListHead, ghost c: seq<ListHead>, ghost k: nat)
    requires Ring(c) && k < |c| && head == c[Succ(k, |c|)]
    modifies x, head, head.prev
    ensures x !in c ==> Ring(InsertAfter(c, k, x))
    ensures k + 2 <= |c| && x in c[k + 2..] ==> forall d :: |d| > 0 && d[0] == c[0] ==> !Ring(d)
  {
    assert Precedes(c, Succ(k, |c|)) && Pred(Succ(k, |c|), |c|) == k;
    ListAdd(x, head.prev, head, c, k);
    if k + 2 <= |c| && x in c[k + 2..] {
      ghost var p :| k + 2 <= p < |c| && x == c[p];
      assert forall i :: 0 <= i < |c| && i != k && i != p ==> old(Follows(c, i));
      TwistedRing(c, k + 1, p);
    }
  }

  method ListDelLinks(prev: ListHead, next: ListHead)
    modifies prev, next
    ensures next.prev == prev && prev.next == next
    ensures prev != next ==> prev.prev == old(prev.prev) && next.next == old(next.next)
  {
    next.prev := prev;
    prev.next := next;
  }

  /** Unlink an element; its own links are left dangling, as documented. */
  method ListDel(entry: ListHead, ghost c: seq<ListHead>, ghost k: nat)
    requires Ring(c) && 0 < k < |c| && entry == c[k]
    modifies entry.prev, entry.next
    ensures Ring(Without(c, k))
    ensures entry.next == old(entry.next) && entry.prev == old(entry.prev)
  {
    assert Follows(c, k) && Precedes(c, k) && Follows(c, k - 1) && Precedes(c, Succ(k, |c|));
    ListDelLinks(entry.prev, entry.next);
    LinkedOut(c, k);
  }

  method ListDelInit(entry: ListHead, ghost c: seq<ListHead>, ghost k: nat)
    requires Ring(c) && 0 < k < |c| && entry == c[k]
    modifies entry, entry.prev, entry.next
    ensures Ring(Without(c, k)) && Ring([entry])
  {
    ListDel(entry, c, k);
    InitListHead(entry);
  }

  /** What ring `d` is once position `k` of ring `c`, perhaps the same ring, has been taken out. */
  ghost function Remaining<T>(c: seq<T>, k: nat, d: seq<T>): seq<T>
    requires k < |c|
  {
    if d == c then Without(c, k) else d
  }

  /** Taking an element out of `c` leaves `d` a ring, whether or not it is the same one. */
  method ListDetach(entry: ListHead, ghost c: seq<ListHead>, ghost k: nat, ghost d: seq<ListHead>)
    requires Ring(c) && 0 < k < |c| && entry == c[k]
    requires Ring(d) && (d == c || Disjoint(c, d))
    modifies entry.prev, entry.next
    ensures Ring(Remaining(c, k, d)) && Ring(Without(c, k))
    ensures d[0].next in {old(d[0].next), old(entry.next)}
    ensures d[0].prev in {old(d[0].prev), old(entry.prev)}
  {
    assert Follows(c, k) && Precedes(c, k) && Follows(d, 0) && Precedes(d, 0);
    ListDel(entry, c, k);
    if d == c {
      assert Follows(Without(c, k), 0) && Precedes(Without(c, k), 0);
    } else {
      assert forall i :: 0 <= i < |d| ==> old(Follows(d, i) && Precedes(d, i));
    }
  }

  lemma NotRemaining<T>(c: seq<T>, k: nat, d: seq<T>)
    requires Distinct(c) && k < |c| && (d == c || Disjoint(c, d))
    ensures c[k] !in Remaining(c, k, d) && c[k] !in Without(c, k)
  {
  }

  /** Move an element of ring `c` behind `head`, the header of ring `d`; the two may be one ring. */
  method ListMove(entry: ListHead, head: ListHead, ghost c: seq<ListHead>, ghost k: nat, ghost d: seq<ListHead>)
    requires Ring(c) && 0 < k < |c| && entry == c[k]
    requires Ring(d) && head == d[0] && (d == c || Disjoint(c, d))
    modifies entry, entry.prev, entry.next, head, head.next
    ensures Ring(InsertAfter(Remaining(c, k, d), 0, entry))
    ensures d != c ==> Ring(Without(c, k))
  {
    ListDetach(entry, c, k, d);
    ghost var rest := Remaining(c, k, d);
    assert Follows(rest, 0);
    label Detached:
    ListAddHead(entry, head, rest, 0);
    if d != c {
      assert forall i :: 0 <= i < |c| - 1 ==> old@Detached(Follows(Without(c, k), i) && Precedes(Without(c, k), i));
    }
  }

  /** Move an element of ring `c` in front of `head`, the header of ring `d`. */
  method ListMoveTail(entry: ListHead, head: ListHead, ghost c: seq<ListHead>, ghost k: nat, ghost d: seq<ListHead>)
    requires Ring(c) && 0 < k < |c| && entry == c[k]
    requires Ring(d) && head == d[0] && (d == c || Disjoint(c, d))
    modifies entry, entry.prev, entry.next, head, head.prev
    ensures Ring(Remaining(c, k, d) + [entry])
    ensures d != c ==> Ring(Without(c, k))
  {
    hide Distinct;
    NotRemaining(c, k, d);
    ListDetach(entry, c, k, d);
    ghost var rest := Remaining(c, k, d);
    assert Precedes(rest, 0);
    label Detached:
    ListAddTail(entry, head, rest, |rest| - 1);
    assert InsertAfter(rest, |rest| - 1, entry) == rest + [entry];
    if d != c {
      assert forall i :: 0 <= i < |c| - 1 ==> old@Detached(Follows(Without(c, k), i) && Precedes(Without(c, k), i));
    }
  }

  predicate ListEmpty(head: ListHead)
    reads head
  {
    head.next == head
  }

  lemma EmptyMeansAlone(c: seq<ListHead>)
    requires Ring(c)
    ensures ListEmpty(c[0]) <==> |c| == 1
  {
    assert Follows(c, 0);
  }

  method SpliceLinks(list: ListHead, head: ListHead, ghost c: seq<ListHead>, ghost d: seq<ListHead>)
    requires Ring(c) && Ring(d) && Disjoint(c, d) && |c| > 1 && list == c[0] && head == d[0]
    modifies list.next, list.prev, head, head.next
    ensures Ring([head] + c[1..] + d[1..])
    ensures list.next == old(list.next) && list.prev == old(list.prev)
  {
    assert Follows(c, 0) && Precedes(c, 0) && Precedes(c, 1) && Follows(c, |c| - 1);
    assert Follows(d, 0) && Precedes(d, Succ(0, |d|));
    var first := list.next;
    var last := list.prev;
    var at := head.next;
    first.prev := head;
    head.next := first;
    last.next := at;
    at.prev := last;
    assert forall i :: 0 <= i < |c| ==> old(Follows(c, i) && Precedes(c, i));
    assert forall i :: 0 <= i < |d| ==> old(Follows(d, i) && Precedes(d, i));
    LinkedTogether(c, d);
  }

  /** Join: the whole of `list` goes in front of the elements of `head`.  The emptied header keeps its
      old links. */
  method ListSplice(list: ListHead, head: ListHead, ghost c: seq<ListHead>, ghost d: seq<ListHead>)
    requires Ring(c) && Ring(d) && Disjoint(c, d) && list == c[0] && head == d[0]
    modifies c, d
    ensures Ring([head] + c[1..] + d[1..])
    ensures list.next == old(list.next) && list.prev == old(list.prev)
  {
    EmptyMeansAlone(c);
    if !ListEmpty(list) {
      assert Follows(c, 0) && Precedes(c, 0) && Follows(d, 0);
      SpliceLinks(list, head, c, d);
    } else {
      assert [head] + c[1..] + d[1..] == d;
    }
  }

  method ListSpliceInit(list: ListHead, head: ListHead, ghost c: seq<ListHead>, ghost d: seq<ListHead>)
    requires Ring(c) && Ring(d) && Disjoint(c, d) && list == c[0] && head == d[0]
    modifies c, d
    ensures Ring([head] + c[1..] + d[1..]) && Ring([list])
  {
    EmptyMeansAlone(c);
    if !ListEmpty(list) {
      assert Follows(c, 0) && Precedes(c, 0) && Follows(d, 0);
      SpliceLinks(list, head, c, d);
      InitListHead(list);
    } else {
      assert [head] + c[1..] + d[1..] == d;
      assert c == [list];
    }
  }

  /** Counts by walking with the deletion-safe iterator. */
  method ListSize(list: ListHead, ghost c: seq<ListHead>) returns (size: nat)
    requires Ring(c) && list == c[0]
    ensures size == |c[1..]|
  {
    size := 0;
    assert Follows(c, 0);
    var pos := list.next;
    var n := pos.next;
    while pos != list
      invariant size < |c|
      invariant pos == c[Succ(size, |c|)] && n == pos.next
      decreases |c| - size, pos != list
    {
      assert Follows(c, Succ(size, |c|));
      size := size + 1;
      pos := n;
      n := pos.next;
    }
    assert Succ(size, |c|) == 0;
  }

  /** A path of `next` links from `h` that reaches a node whose successor does not point back is
      incompatible with any ring through `h`. */
  lemma {:induction false} BrokenPath(path: seq<ListHead>, d: seq<ListHead>)
    requires |path| >= 2
    requires forall j :: 0 <= j < |path| - 1 ==> path[j].next == path[j + 1]
    requires path[|path| - 1].prev != path[|path| - 2]
    ensures !(Ring(d) && d[0] == path[0])
  {
    if Ring(d) && d[0] == path[0] {
      var i := 0;
      var j := 0;
      while j < |path| - 1
        invariant 0 <= j < |path|
        invariant 0 <= i < |d| && d[i] == path[j]
        invariant j > 0 ==> path[j].prev == path[j - 1]
      {
        assert Follows(d, i) && Precedes(d, Succ(i, |d|));
        i := Succ(i, |d|);
        j := j + 1;
      }
      assert false;
    }
  }

  /** A ring in which the node at `p` has been inserted a second time, in front of position `k`: no
      ring through the header can be made of the links any more. */
  lemma TwistedRing(c: seq<ListHead>, k: nat, p: nat)
    requires 1 <= k < p < |c| && Distinct(c)
    requires forall i :: 0 <= i < |c| && i != k - 1 && i != p ==> Follows(c, i)
    requires c[k - 1].next == c[p] && c[p].next == c[k] && c[p].prev == c[k - 1]
    ensures forall d :: |d| > 0 && d[0] == c[0] ==> !Ring(d)
  {
    var path := c[..k] + [c[p]] + c[k..p + 1];
    forall j | 0 <= j < |path| - 1
      ensures path[j].next == path[j + 1]
    {
      if j != k - 1 && j != k {
        var o := if j < k then j else j - 1;
        assert path[j] == c[o] && path[j + 1] == c[o + 1] && Follows(c, o);
      }
    }
    forall d | |d| > 0 && d[0] == c[0]
      ensures !Ring(d)
    {
      BrokenPath(path, d);
    }
  }
}

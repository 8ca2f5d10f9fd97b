/** The nested configuration records in flash (beken378/app/net_work/app_drone.c): every record is a type,
    a length and that many bytes, which may again be records. */
module ConfigSearch {
  import opened Flash
  import opened Numbers
  import opened LittleEndian

  const HEAD := 8
  const CONFIG_ADDR_START := 0xbd000

  // ------------------------------------------------------------------------------------------------
  // Records and their encoding.

  type U32Number = n: nat | n < WRAP

  datatype Record = Record(typ: U32Number, value: seq<bv8>)

  function Encode(r: Record): (b: seq<bv8>)
    ensures |b| == HEAD + |r.value|
  {
    Le32Bytes(r.typ) + Le32Bytes(|r.value|) + r.value
  }

  /** The head of a record is its type and its length, four bytes each, the lowest first. */
  lemma HeadIs(r: Record)
    requires |r.value| < 0x1_0000_0000
    ensures |Encode(r)| == 8 + |r.value| && Encode(r)[8..] == r.value
    ensures Le(Encode(r)[..4]) == r.typ && Le(Encode(r)[4..8]) == |r.value|
  {
    hide Le, Le32Bytes;
    LeInverts(r.typ);
    LeInverts(|r.value|);
    assert Encode(r)[..4] == Le32Bytes(r.typ) && Encode(r)[4..8] == Le32Bytes(|r.value|);
  }

  function EncodeAll(rs: seq<Record>): seq<bv8> {
    if rs == [] then [] else Encode(rs[0]) + EncodeAll(rs[1..])
  }

  /** The first record of a type; the number of records if there is none. */
  function FirstOf(rs: seq<Record>, typ: nat): (k: nat)
    ensures k <= |rs| && (k < |rs| ==> rs[k].typ == typ)
    ensures forall i :: 0 <= i < k ==> rs[i].typ != typ
  {
    if rs == [] || rs[0].typ == typ then 0 else 1 + FirstOf(rs[1..], typ)
  }

  /** Flash holds `d` from address `a` on. */
  ghost predicate Stored(cells: seq<bv8>, a: nat, d: seq<bv8>) {
    ReadRange(cells, a, |d|) == d
  }

  // ------------------------------------------------------------------------------------------------
  // The search, on any flash contents.

  function TypeAt(cells: seq<bv8>, a: nat): nat {
    Le(ReadRange(cells, a, 4))
  }

  function LenAt(cells: seq<bv8>, a: nat): nat {
    Le(ReadRange(cells, a + 4, 4))
  }

  /** The first record of the type before `end`, 0 if there is none; addresses are unbounded. */
  function Find(cells: seq<bv8>, typ: nat, a: nat, end: nat): nat
    decreases end - a
  {
    if a >= end then 0
    else if TypeAt(cells, a) == typ then a
    else Find(cells, typ, a + HEAD + LenAt(cells, a), end)
  }

  /** No address on the way is beyond 32 bits. */
  predicate Reachable(cells: seq<bv8>, typ: nat, a: nat, end: nat)
    decreases end - a
  {
    a < WRAP && (a < end && TypeAt(cells, a) != typ ==> Reachable(cells, typ, a + HEAD + LenAt(cells, a), end))
  }

  // ------------------------------------------------------------------------------------------------
  // The search as the 32-bit code does it, and when it ends.

  /** What is searched, and for what. */
  datatype Query = Query(cells: seq<bv8>, typ: nat, end: nat)

  /** The loop is left at this address. */
  predicate Stops(q: Query, a: nat) {
    a >= q.end || TypeAt(q.cells, a) == q.typ
  }

  /** One round of the loop. */
  function Further(q: Query, a: nat): (b: nat)
    ensures b < WRAP
  {
    U32(U32(a + HEAD) + LenAt(q.cells, a))
  }

  /** Where the search is after `n` rounds, or where it has stopped before. */
  function Walked(q: Query, a: nat, n: nat): nat
    decreases n
  {
    if n == 0 || Stops(q, a) then a else Walked(q, Further(q, a), n - 1)
  }

  ghost predicate Ends(q: Query, a: nat) {
    exists n: nat :: Stops(q, Walked(q, a, n))
  }

  /** The search comes to an address a second time. */
  ghost predicate Revisits(q: Query, a: nat) {
    exists i: nat, j: nat :: i < j && !Stops(q, Walked(q, a, j)) && Walked(q, a, i) == Walked(q, a, j)
  }

  lemma {:induction false} WalkedFurther(q: Query, a: nat, n: nat, m: nat)
    ensures Walked(q, a, n + m) == Walked(q, Walked(q, a, n), m)
    decreases n
  {
    hide Stops, Further;
    if Stops(q, a) {
      StaysStopped(q, a, n + m);
      StaysStopped(q, a, n);
      StaysStopped(q, a, m);
    } else if n > 0 {
      WalkedFurther(q, Further(q, a), n - 1, m);
    }
  }

  lemma StaysStopped(q: Query, a: nat, n: nat)
    ensures Stops(q, a) ==> Walked(q, a, n) == a
  {
  }

  /** A search that has not stopped has not stopped before. */
  lemma NotBefore(q: Query, a: nat, i: nat, j: nat)
    requires i <= j && !Stops(q, Walked(q, a, j))
    ensures !Stops(q, Walked(q, a, i))
  {
    WalkedFurther(q, a, i, j - i);
    StaysStopped(q, Walked(q, a, i), j - i);
  }

  /** A search that comes back to an address goes round for ever. */
  lemma {:induction false} GoesRound(q: Query, a: nat, p: nat, n: nat)
    requires p > 0 && !Stops(q, Walked(q, a, p)) && Walked(q, a, p) == a
    ensures !Stops(q, Walked(q, a, n))
    decreases n
  {
    if n < p {
      NotBefore(q, a, n, p);
    } else {
      WalkedFurther(q, a, p, n - p);
      GoesRound(q, a, p, n - p);
    }
  }

  /** More values below `m` than `m` are not all different. */
  lemma {:induction false} Pigeons(s: seq<nat>, m: nat) returns (i: nat, j: nat)
    requires |s| > m && forall k :: 0 <= k < |s| ==> s[k] < m
    ensures i < j < |s| && s[i] == s[j]
    decreases m
  {
    var last := |s| - 1;
    if k :| 0 <= k < last && s[k] == s[last] {
      return k, last;
    }
    var v := s[last];
    // Without the last one, and with `m - 1` renamed to it, the values are below `m - 1`.
    var t := seq(last, k requires 0 <= k < last => if s[k] == m - 1 then v else s[k]);
    i, j := Pigeons(t, m - 1);
  }

  /** The search ends if and only if it ends within as many rounds as there are addresses before the
      end, and if and only if it comes to no address twice. */
  lemma EndsExactlyIf(q: Query, a: nat)
    ensures Ends(q, a) <==> Stops(q, Walked(q, a, q.end))
    ensures Ends(q, a) <==> !Revisits(q, a)
  {
    hide Stops, Walked;
    if !Stops(q, Walked(q, a, q.end)) {
      NeverEndingRevisits(q, a);
    }
    if Revisits(q, a) {
      var i: nat, j: nat :| i < j && !Stops(q, Walked(q, a, j)) && Walked(q, a, i) == Walked(q, a, j);
      forall n: nat
        ensures !Stops(q, Walked(q, a, n))
      {
        RevisitLasts(q, a, i, j, n);
      }
    }
  }

  lemma NeverEndingRevisits(q: Query, a: nat)
    requires !Stops(q, Walked(q, a, q.end))
    ensures Revisits(q, a)
  {
    hide Stops, Walked;
    var s := seq(q.end + 1, k requires 0 <= k => Walked(q, a, k));
    forall k | 0 <= k < |s|
      ensures s[k] < q.end
    {
      NotBefore(q, a, k, q.end);
      NotStopped(q, s[k]);
    }
    var i, j := Pigeons(s, q.end);
    NotBefore(q, a, j, q.end);
  }

  lemma NotStopped(q: Query, a: nat)
    requires !Stops(q, a)
    ensures a < q.end
  {
  }

  lemma RevisitLasts(q: Query, a: nat, i: nat, j: nat, n: nat)
    requires i < j && !Stops(q, Walked(q, a, j)) && Walked(q, a, i) == Walked(q, a, j)
    ensures !Stops(q, Walked(q, a, n))
  {
    hide Stops, Walked;
    var b := Walked(q, a, i);
    WalkedFurther(q, a, i, j - i);
    WalkedFurther(q, a, i, n);
    GoesRound(q, b, j - i, n);
    NotBefore(q, a, n, i + n);
  }

  /** What `search_by_type` returns where it ends. */
  function Found(q: Query, a: nat): nat {
    var b := Walked(q, a, q.end);
    if b >= q.end then 0 else b
  }

  /** Where no address wraps the search ends, at the first record of the type. */
  lemma {:induction false} ReachableEnds(q: Query, a: nat, n: nat)
    requires Reachable(q.cells, q.typ, a, q.end) && n + a >= q.end
    ensures Stops(q, Walked(q, a, n))
    ensures Find(q.cells, q.typ, a, q.end) == if Walked(q, a, n) >= q.end then 0 else Walked(q, a, n)
    decreases n
  {
    hide TypeAt, LenAt, U32;
    if !Stops(q, a) {
      var b := a + HEAD + LenAt(q.cells, a);
      assert b < WRAP;
      Unwrapped(a + HEAD);
      Unwrapped(b);
      ReachableEnds(q, b, n - 1);
    }
  }

  lemma Unwrapped(x: nat)
    requires x < WRAP
    ensures U32(x) == x
  {
  }

  /** A length that wraps around to the same record makes the search stand still: it never ends. */
  lemma WrappingLengthStands(q: Query, a: nat)
    requires a < WRAP && !Stops(q, a) && LenAt(q.cells, a) == WRAP - HEAD
    ensures !Ends(q, a)
  {
    hide LenAt, TypeAt;
    assert Walked(q, a, 1) == Further(q, a) == a;
    forall n: nat
      ensures !Stops(q, Walked(q, a, n))
    {
      GoesRound(q, a, 1, n);
    }
  }

  /** A length that wraps around to a record of the type is no obstacle: the search goes back to it. */
  lemma WrappingLengthMayEnd(q: Query, a: nat, back: nat)
    requires HEAD < back <= a < q.end && a < WRAP && LenAt(q.cells, a) == WRAP - HEAD - back
    requires TypeAt(q.cells, a) != q.typ && TypeAt(q.cells, a - back) == q.typ
    ensures Ends(q, a) && Found(q, a) == a - back && !Reachable(q.cells, q.typ, a, q.end)
  {
    hide LenAt, TypeAt;
    assert Further(q, a) == a - back;
    assert Walked(q, a, 1) == a - back;
    WalkedFurther(q, a, 1, q.end - 1);
    StaysStopped(q, a - back, q.end - 1);
    assert Stops(q, Walked(q, a, 1));
  }

  /** The container at `startAddr`, as the code computes its end. */
  function Container(cells: seq<bv8>, typ: nat, startAddr: nat): Query {
    Query(cells, typ, U32(U32(startAddr + HEAD) + LenAt(cells, startAddr)))
  }

  /** `search_by_type`, wherever it ends. */
  method SearchByType(cells: seq<bv8>, typ: nat, startAddr: nat) returns (addr: nat)
    requires Ends(Container(cells, typ, startAddr), U32(startAddr + HEAD))
    ensures addr == Found(Container(cells, typ, startAddr), U32(startAddr + HEAD))
  {
    hide TypeAt, LenAt, U32, Ends, Revisits;
    ghost var q := Container(cells, typ, startAddr);
    EndsExactlyIf(q, U32(startAddr + HEAD));
    var len := LenAt(cells, startAddr);
    addr := U32(startAddr + HEAD);
    var endAddr := U32(addr + len);
    ghost var left := endAddr;
    while addr < endAddr
      invariant Walked(q, addr, left) == Walked(q, U32(startAddr + HEAD), q.end) && Stops(q, Walked(q, addr, left))
      decreases left
    {
      var headType, headLen := TypeAt(cells, addr), LenAt(cells, addr);
      if typ == headType {
        StaysStopped(q, addr, left);
        break;
      } else {
        addr := U32(addr + HEAD);
        addr := U32(addr + headLen);
        left := left - 1;
      }
    }
    if addr >= endAddr {
      StaysStopped(q, addr, left);
      addr := 0;
    }
  }

  /** The search of a container in which no address wraps. */
  lemma ContainerFound(cells: seq<bv8>, typ: nat, startAddr: nat)
    requires startAddr + HEAD + LenAt(cells, startAddr) < WRAP
    requires Reachable(cells, typ, startAddr + HEAD, startAddr + HEAD + LenAt(cells, startAddr))
    ensures U32(startAddr + HEAD) == startAddr + HEAD && Ends(Container(cells, typ, startAddr), startAddr + HEAD)
    ensures Found(Container(cells, typ, startAddr), startAddr + HEAD) ==
              Find(cells, typ, startAddr + HEAD, startAddr + HEAD + LenAt(cells, startAddr))
  {
    hide TypeAt, LenAt, Find, Reachable, Walked, Stops, U32;
    Unwrapped(startAddr + HEAD);
    Unwrapped(startAddr + HEAD + LenAt(cells, startAddr));
    var q := Container(cells, typ, startAddr);
    ReachableEnds(q, startAddr + HEAD, q.end);
  }

  // ------------------------------------------------------------------------------------------------
  // The search inverts the encoding.

  lemma StoredPart(cells: seq<bv8>, a: nat, d: seq<bv8>, e: seq<bv8>)
    requires Stored(cells, a, d + e)
    ensures Stored(cells, a, d) && Stored(cells, a + |d|, e)
  {
    var r := ReadRange(cells, a, |d + e|);
    assert ReadRange(cells, a, |d|) == r[..|d|] == d;
    assert ReadRange(cells, a + |d|, |e|) == r[|d|..] == e;
  }

  /** A stored record reads back as its type, its length and its value. */
  lemma ReadsBack(cells: seq<bv8>, a: nat, r: Record)
    requires Stored(cells, a, Encode(r)) && |r.value| < WRAP
    ensures TypeAt(cells, a) == r.typ && LenAt(cells, a) == |r.value| && Stored(cells, a + HEAD, r.value)
  {
    hide Stored, Le, Le32Bytes;
    var t, l := Le32Bytes(r.typ), Le32Bytes(|r.value|);
    StoredPart(cells, a, t + l, r.value);
    StoredPart(cells, a, t, l);
    LeInverts(r.typ);
    LeInverts(|r.value|);
    assert ReadRange(cells, a, 4) == t && ReadRange(cells, a + 4, 4) == l by { Reads(cells, a, t); Reads(cells, a + 4, l); }
  }

  lemma Reads(cells: seq<bv8>, a: nat, d: seq<bv8>)
    requires Stored(cells, a, d)
    ensures ReadRange(cells, a, |d|) == d
  {
  }

  lemma {:induction false} Longer(rs: seq<Record>, k: nat)
    requires k < |rs|
    ensures |EncodeAll(rs)| >= |EncodeAll(rs[..k])| + HEAD + |rs[k].value|
  {
    hide Encode;
    if k > 0 {
      Longer(rs[1..], k - 1);
      assert rs[1..][..k - 1] == rs[..k][1..];
    }
  }

  /** Where the records lie. */
  lemma OffsetOf(rs: seq<Record>, k: nat)
    requires 0 < k <= |rs|
    ensures |EncodeAll(rs[..k])| == |Encode(rs[0])| + |EncodeAll(rs[1..][..k - 1])|
  {
    assert rs[..k][1..] == rs[1..][..k - 1];
  }

  lemma {:induction false} RecordStored(cells: seq<bv8>, a: nat, rs: seq<Record>, k: nat)
    requires Stored(cells, a, EncodeAll(rs)) && k < |rs|
    ensures Stored(cells, a + |EncodeAll(rs[..k])|, Encode(rs[k]))
    decreases k
  {
    hide Stored, Encode;
    StoredPart(cells, a, Encode(rs[0]), EncodeAll(rs[1..]));
    if k > 0 {
      OffsetOf(rs, k);
      RecordStored(cells, a + |Encode(rs[0])|, rs[1..], k - 1);
    }
  }

  /** Among stored records the search stays within them and finds the first of the type. */
  lemma {:induction false} FindsFirst(cells: seq<bv8>, typ: nat, a: nat, rs: seq<Record>)
    requires Stored(cells, a, EncodeAll(rs)) && 0 < a && a + |EncodeAll(rs)| < WRAP
    ensures var k, end := FirstOf(rs, typ), a + |EncodeAll(rs)|;
            Reachable(cells, typ, a, end) && Find(cells, typ, a, end) == if k < |rs| then a + |EncodeAll(rs[..k])| else 0
    decreases |rs|
  {
    hide Stored, TypeAt, LenAt, Encode, EncodeAll;
    var k, end := FirstOf(rs, typ), a + |EncodeAll(rs)|;
    if rs == [] {
      NoRecords();
    } else {
      OneRecord(rs);
      var r, rest := rs[0], rs[1..];
      StoredPart(cells, a, Encode(r), EncodeAll(rest));
      ReadsBack(cells, a, r);
      if r.typ == typ {
        NoRecords();
        assert rs[..0] == [];
      } else {
        FindsFirst(cells, typ, a + |Encode(r)|, rest);
        if k < |rs| {
          OffsetOf(rs, k);
        }
      }
    }
  }

  lemma NoRecords()
    ensures EncodeAll([]) == []
  {
  }

  lemma OneRecord(rs: seq<Record>)
    requires rs != []
    ensures EncodeAll(rs) == Encode(rs[0]) + EncodeAll(rs[1..]) && |Encode(rs[0])| == HEAD + |rs[0].value|
  {
  }

  // ------------------------------------------------------------------------------------------------
  // The two levels.

  datatype Class = Class(typ: U32Number, items: seq<Record>)

  function ClassRecord(c: Class): Record {
    Record(c.typ, EncodeAll(c.items))
  }

  function ClassRecords(cs: seq<Class>): (rs: seq<Record>)
    ensures |rs| == |cs|
  {
    seq(|cs|, i requires 0 <= i < |cs| => ClassRecord(cs[i]))
  }

  /** The whole configuration. */
  function Image(typ: U32Number, cs: seq<Class>): Record {
    Record(typ, EncodeAll(ClassRecords(cs)))
  }

  datatype Option<T> = None | Some(value: T)

  /** Class `i` is the first of its type. */
  predicate FirstClass(cs: seq<Class>, i: int, typ: nat) {
    0 <= i < |cs| && cs[i].typ == typ && forall j :: 0 <= j < i ==> cs[j].typ != typ
  }

  /** Item `k` is the first of its type. */
  predicate FirstItem(items: seq<Record>, k: int, typ: nat) {
    0 <= k < |items| && items[k].typ == typ && forall j :: 0 <= j < k ==> items[j].typ != typ
  }

  predicate NoItem(items: seq<Record>, typ: nat) {
    forall k :: 0 <= k < |items| ==> items[k].typ != typ
  }

  predicate NoClass(cs: seq<Class>, typ: nat) {
    forall i :: 0 <= i < |cs| ==> cs[i].typ != typ
  }

  /** There is at most one first class, and it is where the search among the records ends. */
  lemma ClassIs(cs: seq<Class>, typ: nat)
    ensures var k := FirstOf(ClassRecords(cs), typ);
            if k < |cs| then (forall i :: FirstClass(cs, i, typ) <==> i == k) && !NoClass(cs, typ)
            else (forall i :: !FirstClass(cs, i, typ)) && NoClass(cs, typ)
  {
    hide FirstOf;
    var rs, k := ClassRecords(cs), FirstOf(ClassRecords(cs), typ);
    assert forall i :: 0 <= i < |cs| ==> rs[i].typ == cs[i].typ;
    forall i
      ensures FirstClass(cs, i, typ) <==> i == k < |cs|
    {
      if i == k < |cs| {
        assert forall j :: 0 <= j < k ==> rs[j].typ != typ;
      } else if 0 <= i < k {
        assert rs[i].typ != typ;
      }
    }
  }

  lemma ItemIs(items: seq<Record>, typ: nat)
    ensures var k := FirstOf(items, typ);
            if k < |items| then (forall i :: FirstItem(items, i, typ) <==> i == k) && !NoItem(items, typ)
            else (forall i :: !FirstItem(items, i, typ)) && NoItem(items, typ)
  {
    hide FirstOf;
  }

  /** One item of the configuration, as `app_drone_get_general_paramters` and
      `app_drone_get_ap_paramters` look it up: the class, the item in it, its head, its value.  The
      answer is the value of the first item of its type in the first class of its type. */
  method GetParameter(cells: seq<bv8>, classType: nat, item: nat, ghost typ: U32Number, ghost cs: seq<Class>)
    returns (value: Option<seq<bv8>>)
    requires 0xbd000 + 8 + |Image(typ, cs).value| < 0x1_0000_0000
    requires Stored(cells, 0xbd000, Encode(Image(typ, cs)))
    ensures forall i, k :: FirstClass(cs, i, classType) && FirstItem(cs[i].items, k, item) ==>
              value == Some(cs[i].items[k].value)
    ensures forall i :: FirstClass(cs, i, classType) && NoItem(cs[i].items, item) ==> value == None
    ensures NoClass(cs, classType) ==> value == None
  {
    hide Stored, TypeAt, LenAt, Find, Reachable, Encode, EncodeAll, Ends, Found, U32, Container;
    hide FirstClass, FirstItem, NoClass, NoItem, FirstOf;
    ghost var rs, base := ClassRecords(cs), CONFIG_ADDR_START + HEAD;
    ClassIs(cs, classType);
    ReadsBack(cells, CONFIG_ADDR_START, Image(typ, cs));
    FindsFirst(cells, classType, base, rs);
    ContainerFound(cells, classType, CONFIG_ADDR_START);
    var classAddr := SearchByType(cells, classType, CONFIG_ADDR_START);
    if classAddr == 0 {
      return None;
    }
    ghost var i := FirstOf(rs, classType);
    ghost var items := cs[i].items;
    Longer(rs, i);
    RecordStored(cells, base, rs, i);
    ReadsBack(cells, classAddr, rs[i]);
    FindsFirst(cells, item, classAddr + HEAD, items);
    ItemIs(items, item);
    ContainerFound(cells, item, classAddr);
    var addr := SearchByType(cells, item, classAddr);
    if addr == 0 {
      return None;
    }
    ghost var k := FirstOf(items, item);
    Longer(items, k);
    RecordStored(cells, classAddr + HEAD, items, k);
    ReadsBack(cells, addr, items[k]);
    var len := LenAt(cells, addr);
    value := Some(ReadRange(cells, addr + HEAD, len));
    Reads(cells, addr + HEAD, items[k].value);
  }
}

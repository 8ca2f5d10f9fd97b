/** The interrupt controller (beken378/driver/intc/intc.c): service routines are nodes of one circular
    list kept in priority order, and a 32-bit mask shadows which lines are on it.

    A 32-bit status word is modelled as the set of its one-bits: `&` is `*`, `|` is `+`, `& ~` is `-`
    and a zero word is `{}`. */
module Intc {
  import opened DoublyList

  const INTC_MAX_COUNT := 32

  type UInt8 = x: int | 0 <= x < 256
  type Word = w: set<nat> | forall i :: i in w ==> i < 32

  const LOW_HALF: Word := set i: nat | i < 16
  const HIGH_HALF: Word := set i: nat | 16 <= i < 32

  /** A function pointer; 0 is NULL. */
  type Handler = nat

  /** One element of the list as an observer sees it. */
  datatype Entry = Entry(line: nat, pri: UInt8, handler: Handler)

  type Table = seq<Entry>

  // ------------------------------------------------------------------------------------------------
  // What the operations mean on the priority-ordered table.

  ghost predicate Ascending(v: Table) {
    forall i, j :: 0 <= i < j < |v| ==> v[i].pri < v[j].pri
  }

  ghost predicate HasPri(v: Table, pri: int) {
    exists i :: 0 <= i < |v| && v[i].pri == pri
  }

  ghost predicate HasLine(v: Table, line: nat) {
    exists i :: 0 <= i < |v| && v[i].line == line
  }

  /** Where a new priority belongs: after every smaller one. */
  function Rank(v: Table, pri: int): (k: nat)
    ensures k <= |v|
    ensures forall i :: 0 <= i < k ==> v[i].pri < pri
    ensures k < |v| ==> pri <= v[k].pri
  {
    if v == [] || pri <= v[0].pri then 0 else 1 + Rank(v[1..], pri)
  }

  /** Registering: a taken priority or a line that is on the list already is rejected, anything else is
      put in its place. */
  ghost function Registered(v: Table, e: Entry): Table {
    if HasPri(v, e.pri) || HasLine(v, e.line) then v else v[..Rank(v, e.pri)] + [e] + v[Rank(v, e.pri)..]
  }

  /** The walk of the registration reaches `e.pri`, or the line itself, before it would insert.  This
      fails only for a line that is on the list and asks for an unused priority that belongs in front
      of the line's predecessor. */
  ghost predicate Safe(v: Table, e: Entry) {
    HasLine(v, e.line) && !HasPri(v, e.pri) ==>
      forall i :: 0 <= i < |v| && v[i].line == e.line ==> i <= Rank(v, e.pri)
  }

  ghost predicate MarksOf(isrs: Table, mask: Word, lines: seq<nat>)
    requires |isrs| == INTC_MAX_COUNT
  {
    && (forall i :: 0 <= i < INTC_MAX_COUNT ==> ((i in lines) == (i in mask)))
    && (forall i :: 0 <= i < INTC_MAX_COUNT ==> if i in lines then isrs[i].line == i else isrs[i].handler == 0)
  }

  /** The table after a line that was not on the list has been put at position `k` of it. */
  lemma NowListed(isrs: Table, mask: Word, lines: seq<nat>, e: Entry, k: nat)
    requires |isrs| == INTC_MAX_COUNT && (forall i :: i in lines ==> i < INTC_MAX_COUNT)
    requires e.line < INTC_MAX_COUNT && e.line !in lines && k <= |lines|
    requires MarksOf(isrs, mask, lines) && Ascending(ViewOf(isrs, lines))
    requires !HasPri(ViewOf(isrs, lines), e.pri) && !HasLine(ViewOf(isrs, lines), e.line)
    requires Rank(ViewOf(isrs, lines), e.pri) == k
    ensures var isrs', lines' := isrs[e.line := e], lines[..k] + [e.line] + lines[k..];
      && (forall i :: i in lines' ==> i < INTC_MAX_COUNT)
      && MarksOf(isrs', mask + {e.line}, lines')
      && Ascending(ViewOf(isrs', lines'))
      && ViewOf(isrs', lines') == Registered(ViewOf(isrs, lines), e)
  {
    var v := ViewOf(isrs, lines);
    var isrs', lines' := isrs[e.line := e], lines[..k] + [e.line] + lines[k..];
    assert forall i :: 0 <= i < |lines| ==> lines[i] in lines;
    assert ViewOf(isrs', lines) == v;
    MoreLines(isrs', lines, k, e.line);
    AscendingInsert(v, k, e);
    assert lines == lines[..k] + lines[k..];
    assert forall i :: i in lines' <==> i in lines || i == e.line;
  }

  /** What the search of the list tells about the table `v`, although it sees `w`, in which the line
      being registered shows its new priority already. */
  lemma SearchResult(v: Table, w: Table, e: Entry, k: nat)
    requires Ascending(v) && |w| == |v|
    requires forall i, j :: 0 <= i < j < |v| ==> v[i].line != v[j].line
    requires forall i :: 0 <= i < |v| ==> w[i].pri == if v[i].line == e.line then e.pri else v[i].pri
    requires k <= |w| && (forall i :: 0 <= i < k ==> w[i].pri < e.pri) && (k < |w| ==> e.pri <= w[k].pri)
    ensures k < |w| && w[k].pri == e.pri ==> Safe(v, e) && (HasPri(v, e.pri) || HasLine(v, e.line))
    ensures !(k < |w| && w[k].pri == e.pri) && !HasLine(v, e.line) ==> !HasPri(v, e.pri) && Rank(v, e.pri) == k
    ensures !(k < |w| && w[k].pri == e.pri) && HasLine(v, e.line) ==>
              !Safe(v, e) && forall p :: 0 <= p < |v| && v[p].line == e.line ==> k < p
  {
    var r := Rank(v, e.pri);
    assert forall i :: 0 <= i < k ==> v[i].pri < e.pri;
    if k < |w| && w[k].pri == e.pri {
      if v[k].line == e.line {
        assert HasLine(v, e.line);
        assert k <= r;
      } else {
        assert HasPri(v, e.pri);
      }
    } else if HasLine(v, e.line) {
      var p :| 0 <= p < |v| && v[p].line == e.line;
      assert w[p].pri == e.pri;
      assert k < p && v[k].line != e.line && e.pri < v[k].pri;
      assert r == k && !HasPri(v, e.pri);
    }
  }

  /** The records of `lines`, in that order. */
  ghost function ViewOf(isrs: Table, lines: seq<nat>): (v: Table)
    requires forall i :: i in lines ==> i < |isrs|
    ensures |v| == |lines|
  {
    seq(|lines|, k requires 0 <= k < |lines| => assert lines[k] in lines; isrs[lines[k]])
  }

  lemma AscendingInsert(v: Table, k: nat, e: Entry)
    requires Ascending(v) && k <= |v|
    requires (forall i :: 0 <= i < k ==> v[i].pri < e.pri) && (k < |v| ==> e.pri < v[k].pri)
    ensures Ascending(v[..k] + [e] + v[k..])
  {
  }

  lemma MoreLines(isrs: Table, lines: seq<nat>, k: nat, n: nat)
    requires k <= |lines| && n < |isrs| && forall i :: i in lines ==> i < |isrs|
    ensures forall i :: i in lines[..k] + [n] + lines[k..] ==> i < |isrs|
    ensures ViewOf(isrs, lines[..k] + [n] + lines[k..]) == ViewOf(isrs, lines)[..k] + [isrs[n]] + ViewOf(isrs, lines)[k..]
  {
    assert lines == lines[..k] + lines[k..];
    assert forall i :: i in lines[..k] + [n] + lines[k..] <==> i in lines || i == n;
  }

  /** The calls the dispatcher makes for a status word. */
  function Served(v: Table, status: set<nat>): Table {
    if v == [] then []
    else (if v[0].line in status then [v[0]] else []) + Served(v[1..], status)
  }

  lemma {:induction false} ServedSplit(v: Table, w: Table, status: set<nat>)
    ensures Served(v + w, status) == Served(v, status) + Served(w, status)
  {
    if v == [] {
      assert v + w == w;
    } else {
      assert (v + w)[1..] == v[1..] + w;
      ServedSplit(v[1..], w, status);
    }
  }

  /** Exactly the pending entries are served, each once (priorities are strictly ascending, so no entry
      occurs twice), in priority order. */
  lemma {:induction false} ServedOnce(v: Table, status: set<nat>)
    requires Ascending(v)
    ensures forall e :: e in Served(v, status) <==> e in v && e.line in status
    ensures Ascending(Served(v, status))
  {
    if v != [] {
      ServedOnce(v[1..], status);
      assert forall e :: e in v <==> e == v[0] || e in v[1..];
      assert forall e :: e in v[1..] ==> v[0].pri < e.pri;
    }
  }

  /** The two interrupt entry points split the lines: for one status word they serve together what a
      single dispatch would, and nothing twice. */
  lemma {:induction false} HalvesServeAll(v: Table, status: Word)
    requires forall i :: 0 <= i < |v| ==> v[i].line < INTC_MAX_COUNT
    ensures multiset(Served(v, status * LOW_HALF)) + multiset(Served(v, status * HIGH_HALF)) == multiset(Served(v, status))
    ensures forall e :: !(e in Served(v, status * LOW_HALF) && e in Served(v, status * HIGH_HALF))
  {
    if v != [] {
      HalvesServeAll(v[1..], status);
      ServedFrom(v[1..], status * LOW_HALF);
      ServedFrom(v[1..], status * HIGH_HALF);
      assert v[0].line in status ==> (v[0].line in status * LOW_HALF) != (v[0].line in status * HIGH_HALF);
    }
  }

  lemma {:induction false} ServedFrom(v: Table, status: set<nat>)
    ensures forall e :: e in Served(v, status) ==> e in v && e.line in status
  {
    if v != [] {
      ServedFrom(v[1..], status);
    }
  }

  lemma ServedStep(v: Table, k: nat, status: set<nat>)
    requires k < |v|
    ensures Served(v[..k + 1], status) == Served(v[..k], status) + if v[k].line in status then [v[k]] else []
  {
    assert v[..k + 1] == v[..k] + [v[k]];
    ServedSplit(v[..k], [v[k]], status);
  }

  lemma {:induction false} NothingServed(v: Table, status: set<nat>)
    requires forall i :: 0 <= i < |v| ==> v[i].line !in status
    ensures Served(v, status) == []
  {
    if v != [] {
      NothingServed(v[1..], status);
    }
  }

  /** The table after a sequence of registrations, starting from an empty one. */
  ghost function RegisteredAll(reqs: seq<Entry>): Table {
    if reqs == [] then [] else Registered(RegisteredAll(reqs[..|reqs| - 1]), reqs[|reqs| - 1])
  }

  /** An unsafe request: line 1, listed behind line 0, asks for a priority in front of it. */
  lemma UnsafeRequest()
    ensures var first, second := Entry(0, 5, 1), Entry(1, 9, 1);
            RegisteredAll([first, second]) == [first, second] && !Safe([first, second], Entry(1, 2, 1))
  {
    var first, second := Entry(0, 5, 1), Entry(1, 9, 1);
    assert [first, second][..1] == [first] && [first][..0] == [];
    assert RegisteredAll([]) == [] && Registered([], first) == [first];
    assert !HasPri([first], 9) && !HasLine([first], 1) && Rank([first], 9) == 1;
    var v := [first, second];
    assert Rank(v, 2) == 0 && v[1].line == 1 && HasLine(v, 1) && !HasPri(v, 2);
  }

  /** Every line keeps to one priority. */
  ghost predicate OnePriorityEach(reqs: seq<Entry>) {
    forall i, j :: 0 <= i < |reqs| && 0 <= j < |reqs| && reqs[i].line == reqs[j].line ==> reqs[i].pri == reqs[j].pri
  }

  /** Request `i` is the first one for its priority. */
  ghost predicate FirstOfItsPriority(reqs: seq<Entry>, i: nat)
    requires i < |reqs|
  {
    forall j :: 0 <= j < i ==> reqs[j].pri != reqs[i].pri
  }

  lemma InsertedEntries(v: Table, e: Entry)
    requires Ascending(v)
    ensures Ascending(Registered(v, e))
    ensures forall x :: x in Registered(v, e) <==> x in v || (x == e && !HasPri(v, e.pri) && !HasLine(v, e.line))
  {
    var k := Rank(v, e.pri);
    assert v == v[..k] + v[k..];
    if !HasPri(v, e.pri) {
      AscendingInsert(v, k, e);
    }
  }

  lemma PriorityStays(v: Table, e: Entry, x: Entry)
    requires Ascending(v) && (x in v || (x == e && !HasPri(v, e.pri) && !HasLine(v, e.line)))
    ensures HasPri(Registered(v, e), x.pri)
  {
    hide Registered;
    InsertedEntries(v, e);
    assert x in Registered(v, e);
  }

  /** Every priority that was ever asked for is taken. */
  lemma {:induction false} PriorityTaken(reqs: seq<Entry>, j: nat)
    requires OnePriorityEach(reqs) && j < |reqs|
    ensures HasPri(RegisteredAll(reqs), reqs[j].pri)
    decreases |reqs|, 1
  {
    hide Registered, Ascending, FirstOfItsPriority;
    var n := |reqs| - 1;
    var before, e := reqs[..n], reqs[n];
    var v := RegisteredAll(before);
    RunAscends(before);
    assert OnePriorityEach(before);
    if j < n {
      PriorityTaken(before, j);
      var i :| 0 <= i < |v| && v[i].pri == reqs[j].pri;
      PriorityStays(v, e, v[i]);
    } else if HasLine(v, e.line) {
      var i :| 0 <= i < |v| && v[i].line == e.line;
      var f := RequestOf(before, v[i]);
      assert reqs[f].line == reqs[n].line;
      PriorityStays(v, e, v[i]);
    } else if HasPri(v, e.pri) {
      var i :| 0 <= i < |v| && v[i].pri == e.pri;
      PriorityStays(v, e, v[i]);
    } else {
      PriorityStays(v, e, e);
    }
  }

  /** Every entry of the table is the first request for its priority. */
  lemma {:induction false} RequestOf(reqs: seq<Entry>, e: Entry) returns (i: nat)
    requires OnePriorityEach(reqs) && e in RegisteredAll(reqs)
    ensures i < |reqs| && reqs[i] == e && FirstOfItsPriority(reqs, i)
    decreases |reqs|, 0
  {
    var n := |reqs| - 1;
    var before := reqs[..n];
    var v := RegisteredAll(before);
    RunAscends(before);
    InsertedEntries(v, reqs[n]);
    if e in v {
      i := RequestOf(before, e);
    } else {
      i := n;
      forall j | 0 <= j < n
        ensures reqs[j].pri != e.pri
      {
        PriorityTaken(before, j);
      }
    }
  }

  /** The first request for a priority is in the table. */
  lemma {:induction false} FirstIsListed(reqs: seq<Entry>, i: nat)
    requires OnePriorityEach(reqs) && i < |reqs| && FirstOfItsPriority(reqs, i)
    ensures reqs[i] in RegisteredAll(reqs)
  {
    var n := |reqs| - 1;
    var before := reqs[..n];
    var v := RegisteredAll(before);
    RunAscends(before);
    InsertedEntries(v, reqs[n]);
    if i < n {
      FirstIsListed(before, i);
    } else {
      forall k | 0 <= k < |v|
        ensures v[k].pri != reqs[n].pri && v[k].line != reqs[n].line
      {
        var j := RequestOf(before, v[k]);
        assert reqs[j] == v[k];
      }
    }
  }

  lemma {:induction false} RunAscends(reqs: seq<Entry>)
    ensures Ascending(RegisteredAll(reqs))
  {
    if reqs != [] {
      RunAscends(reqs[..|reqs| - 1]);
      InsertedEntries(RegisteredAll(reqs[..|reqs| - 1]), reqs[|reqs| - 1]);
    }
  }

  ghost predicate IsFirst(reqs: seq<Entry>, e: Entry) {
    exists i :: 0 <= i < |reqs| && reqs[i] == e && FirstOfItsPriority(reqs, i)
  }

  /** Over every run of registrations in which each line keeps one priority, the next registration is
      safe, the table is strictly ascending, and it holds exactly the first request for each
      priority. */
  lemma FirstRequestWins(reqs: seq<Entry>, next: Entry)
    requires OnePriorityEach(reqs + [next])
    ensures Ascending(RegisteredAll(reqs))
    ensures forall e :: e in RegisteredAll(reqs) <==> IsFirst(reqs, e)
    ensures Safe(RegisteredAll(reqs), next)
  {
    var all := reqs + [next];
    assert forall i :: 0 <= i < |reqs| ==> all[i] == reqs[i];
    var v := RegisteredAll(reqs);
    RunAscends(reqs);
    forall e
      ensures e in v <==> IsFirst(reqs, e)
    {
      if e in v {
        var i := RequestOf(reqs, e);
      }
      if IsFirst(reqs, e) {
        var i :| 0 <= i < |reqs| && reqs[i] == e && FirstOfItsPriority(reqs, i);
        FirstIsListed(reqs, i);
      }
    }
    if HasLine(v, next.line) {
      var k :| 0 <= k < |v| && v[k].line == next.line;
      var i := RequestOf(reqs, v[k]);
      assert all[i].line == all[|reqs|].line;
      assert HasPri(v, next.pri);
    }
  }

  lemma NextIsSafe(reqs: seq<Entry>, k: nat)
    requires OnePriorityEach(reqs) && k < |reqs|
    ensures Safe(RegisteredAll(reqs[..k]), reqs[k])
  {
    assert reqs[..k] + [reqs[k]] == reqs[..k + 1];
    FirstRequestWins(reqs[..k], reqs[k]);
  }

  lemma WholeRun(reqs: seq<Entry>)
    requires OnePriorityEach(reqs) && reqs != []
    ensures Ascending(RegisteredAll(reqs)) && forall e :: e in RegisteredAll(reqs) <==> IsFirst(reqs, e)
  {
    // Asking for the first one again changes nothing and keeps to the rule.
    assert OnePriorityEach(reqs + [reqs[0]]);
    FirstRequestWins(reqs, reqs[0]);
  }

  lemma EmptyRun()
    ensures Ascending(RegisteredAll([])) && forall e :: e in RegisteredAll([]) <==> IsFirst([], e)
  {
  }

  // ------------------------------------------------------------------------------------------------
  // The code.

  class Controller {
    const nodes: seq<ListHead>  // the list nodes embedded in `_isrs`, one for each line
    const hdr: ListHead         // `isr_hdr`
    var isrs: Table             // the rest of the `_isrs` records: line, priority, service routine
    var isrsMask: Word
    ghost const links: set<ListHead>
    ghost var lines: seq<nat>   // the lines on the list, in list order

    /** The static table: the nodes are pairwise different and know their place in it. */
    ghost predicate Wired()
      reads this
    {
      && |nodes| == |isrs| == INTC_MAX_COUNT
      && hdr.slot == -1
      && hdr in links
      && forall i :: 0 <= i < INTC_MAX_COUNT ==> nodes[i].slot == i && nodes[i] in links
    }

    /** The header followed by the nodes of the lines `s`. */
    ghost function RingOf(s: seq<nat>): (c: seq<ListHead>)
      requires forall i :: i in s ==> i < |nodes|
      ensures |c| == |s| + 1 && forall x :: x in c ==> x == hdr || x in nodes
    {
      var body := seq(|s|, k requires 0 <= k < |s| => assert s[k] in s; nodes[s[k]]);
      assert forall k :: 0 <= k < |s| ==> s[k] in s && body[k] == nodes[s[k]];
      [hdr] + body
    }

    /** The list is the ring through the header and the nodes of `lines`. */
    ghost predicate Shape()
      reads this, links
    {
      && Wired()
      && (forall i :: i in lines ==> i < INTC_MAX_COUNT)
      && Distinct(lines)
      && (forall x :: x in RingOf(lines) ==> x in links)
      && Ring(RingOf(lines))
    }

    /** The mask has exactly the linked lines; a line that is not linked has no service routine. */
    ghost predicate Marks()
      requires Wired()
      reads this
    {
      MarksOf(isrs, isrsMask, lines)
    }

    /** Everything a caller may rely on between two operations. */
    ghost predicate Valid()
      reads this, links
    {
      Shape() && Marks() && Ascending(View())
    }

    /** The list as a table, in list order. */
    ghost function View(): (v: Table)
      requires Wired() && forall i :: i in lines ==> i < INTC_MAX_COUNT
      reads this
    {
      ViewOf(isrs, lines)
    }

    constructor ()
      ensures Valid() && View() == [] && isrsMask == {}
    {
      var h := new ListHead(-1);
      InitListHead(h);
      var table: seq<ListHead> := [];
      while |table| < INTC_MAX_COUNT
        invariant |table| <= INTC_MAX_COUNT
        invariant Ring([h]) && h.slot == -1
        invariant forall i :: 0 <= i < |table| ==> table[i].slot == i
      {
        var x := new ListHead(|table|);
        table := table + [x];
        assert Ring([h]) by { assert Follows([h], 0) && Precedes([h], 0); }
      }
      hdr := h;
      nodes := table;
      links := {h} + set i | 0 <= i < INTC_MAX_COUNT :: table[i];
      isrs := seq(INTC_MAX_COUNT, i => Entry(0, 0, 0));
      isrsMask := {};
      lines := [];
      new;
      assert RingOf([]) == [h];
    }

    /** `list_add_tail` and the mask update of a registration: put the node of line `n` in front of
        `head`.  A line that is on the list already, further on, leaves links behind that are no ring
        through the header. */
    method Link(n: nat, head: ListHead, ghost k: nat)
      requires Shape() && n < INTC_MAX_COUNT
      requires k <= |lines| && head == RingOf(lines)[Succ(k, |lines| + 1)]
      requires n in lines ==> k < |lines| && n in lines[k + 1..]
      modifies this`isrsMask, this`lines, links
      ensures isrsMask == old(isrsMask) + {n}
      ensures old(n !in lines) ==> Shape() && lines == old(lines)[..k] + [n] + old(lines)[k..]
      ensures old(n in lines) ==> forall d :: |d| > 0 && d[0] == hdr ==> !Ring(d)
    {
      hide Distinct;
      ghost var c := RingOf(lines);
      RingMembers(n, k);
      assert Precedes(c, Succ(k, |c|));
      ListAddTail(nodes[n], head, c, k);
      isrsMask := isrsMask + {n};
      if n !in lines {
        InsertLine(lines, k, n);
        lines := lines[..k] + [n] + lines[k..];
      }
    }

    /** Nodes in the ring are lines on the list. */
    lemma RingMembers(n: nat, k: nat)
      requires Wired() && n < INTC_MAX_COUNT && forall i :: i in lines ==> i < INTC_MAX_COUNT
      ensures n !in lines ==> nodes[n] !in RingOf(lines)
      ensures k < |lines| && n in lines[k + 1..] ==> nodes[n] in RingOf(lines)[k + 2..]
    {
      var c := RingOf(lines);
      if nodes[n] in c {
        var j :| 0 <= j < |c| && c[j] == nodes[n];
        assert j > 0 ==> lines[j - 1] in lines && nodes[lines[j - 1]].slot == lines[j - 1];
      }
      if k < |lines| && n in lines[k + 1..] {
        var p :| k + 1 <= p < |lines| && lines[p] == n;
        assert c[k + 2..][p - k - 1] == nodes[n];
      }
    }

    lemma InsertLine(s: seq<nat>, k: nat, n: nat)
      requires |nodes| == INTC_MAX_COUNT && n < INTC_MAX_COUNT && k <= |s|
      requires forall i :: i in s ==> i < INTC_MAX_COUNT
      ensures forall i :: i in s[..k] + [n] + s[k..] <==> i in s || i == n
      ensures RingOf(s[..k] + [n] + s[k..]) == InsertAfter(RingOf(s), k, nodes[n])
      ensures forall x :: x in InsertAfter(RingOf(s), k, nodes[n]) ==> x in RingOf(s) || x == nodes[n]
      ensures Distinct(s) && n !in s ==> Distinct(s[..k] + [n] + s[k..])
    {
      assert s == s[..k] + s[k..];
      assert forall i :: i in s[..k] + [n] + s[k..] <==> i in s || i == n;
    }

    /** The walk along the list: to the first record whose priority is not smaller, or back to the
        header. */
    method Search(pri: UInt8) returns (pos: ListHead, taken: bool, ghost k: nat)
      requires Shape()
      ensures k <= |lines| && pos == RingOf(lines)[Succ(k, |lines| + 1)]
      ensures forall j :: 0 <= j < k ==> View()[j].pri < pri
      ensures k < |lines| ==> pri <= View()[k].pri
      ensures taken <==> k < |lines| && pri == View()[k].pri
    {
      AtHeader();
      k := 0;
      pos := hdr.next;
      while pos != hdr
        invariant k <= |lines| && pos == RingOf(lines)[Succ(k, |lines| + 1)]
        invariant forall j :: 0 <= j < k ==> View()[j].pri < pri
        decreases |lines| - k, pos != hdr
      {
        At(k);
        var tmpPri := isrs[pos.slot].pri;
        if pri < tmpPri {
          return pos, false, k;
        } else if pri == tmpPri {
          return pos, true, k;
        }
        pos := pos.next;
        k := k + 1;
      }
      taken := false;
    }

    /** The insertion loop of the registration, run on the list in which line `e.line` shows its new
        data; `v` is the table from before. */
    method SearchAndLink(e: Entry, ghost v: Table) returns (taken: bool)
      requires Shape() && e.line < INTC_MAX_COUNT && 0 <= e.pri < 256
      requires Ascending(v) && Overwritten(v, e)
      modifies this`isrsMask, this`lines, links
      ensures taken ==> Safe(v, e) && (HasPri(v, e.pri) || HasLine(v, e.line)) && Untouched() && Shape()
      ensures !taken ==> isrsMask == old(isrsMask) + {e.line}
      ensures !taken && old(e.line !in lines) ==>
                && Shape() && !HasPri(v, e.pri) && !HasLine(v, e.line)
                && lines == old(lines)[..Rank(v, e.pri)] + [e.line] + old(lines)[Rank(v, e.pri)..]
      ensures !taken && old(e.line in lines) ==> !Safe(v, e) && forall d :: |d| > 0 && d[0] == hdr ==> !Ring(d)
    {
      ghost var k: nat;
      var pos;
      pos, taken, k := Search(e.pri);
      SearchResult(v, View(), e, k);
      if !taken {
        LaterOn(e.line, k, v);
        Link(e.line, pos, k);
      }
    }

    lemma LaterOn(n: nat, k: nat, v: Table)
      requires |v| == |lines| && forall i :: 0 <= i < |v| ==> v[i].line == lines[i]
      requires HasLine(v, n) ==> forall p :: 0 <= p < |v| && v[p].line == n ==> k < p
      ensures n in lines ==> k < |lines| && n in lines[k + 1..]
    {
      if n in lines {
        var p :| 0 <= p < |lines| && lines[p] == n;
        assert v[p].line == n;
        assert lines[k + 1..][p - k - 1] == n;
      }
    }

    /** `_isrs[int_num] = buf_ele`: the whole record is written back, its links included. */
    method Restore(n: nat, ele: Entry, next: ListHead?, prev: ListHead?)
      requires Shape() && n < INTC_MAX_COUNT && nodes[n].next == next && nodes[n].prev == prev
      modifies this`isrs, nodes[n]
      ensures Shape() && isrs == old(isrs)[n := ele]
      ensures nodes[n].next == old(nodes[n].next) && nodes[n].prev == old(nodes[n].prev)
    {
      nodes[n].next, nodes[n].prev := next, prev;
      assert forall i :: 0 <= i <= |lines| ==> old(Follows(RingOf(lines), i) && Precedes(RingOf(lines), i));
      isrs := isrs[n := ele];
    }

    twostate predicate Untouched()
      reads this, links
    {
      && isrs == old(isrs) && isrsMask == old(isrsMask) && lines == old(lines)
      && forall x :: x in links ==> x.next == old(x.next) && x.prev == old(x.prev)
    }

    /** `intc_service_register`.  The fields of the line are overwritten before the list is searched, so
        a line that is on the list already is looked at with its new priority. */
    method Register(n: nat, pri: UInt8, isr: Handler)
      requires Valid() && n < INTC_MAX_COUNT
      modifies this`isrs, this`isrsMask, this`lines, links
      ensures old(Safe(View(), Entry(n, pri, isr))) ==>
                Valid() && View() == Registered(old(View()), Entry(n, pri, isr))
      ensures old(Safe(View(), Entry(n, pri, isr)) && (HasPri(View(), pri) || HasLine(View(), n))) ==> Untouched()
      ensures old(!Safe(View(), Entry(n, pri, isr))) ==> forall d :: |d| > 0 && d[0] == hdr ==> !Ring(d)
    {
      ghost var v := View();
      var e := Entry(n, pri, isr);
      var bufEle, bufNext, bufPrev := isrs[n], nodes[n].next, nodes[n].prev;
      isrs := isrs[n := e];
      WhileRegistering(old(isrs), e);

      EmptyMeansAlone(RingOf(lines));
      if ListEmpty(hdr) {
        Link(n, hdr, 0);
        NowListed(old(isrs), old(isrsMask), [], e, 0);
        return;
      }
      var taken := SearchAndLink(e, v);
      if taken {
        Restore(n, bufEle, bufNext, bufPrev);
        assert isrs == old(isrs);
      } else if old(n !in lines) {
        NowListed(old(isrs), old(isrsMask), old(lines), e, Rank(v, pri));
      }
    }

    /** A run of registrations on an empty table, each line keeping one priority: in the end the list holds
        exactly the first request for each priority, in priority order. */
    method RegisterRun(reqs: seq<Entry>)
      requires Valid() && View() == [] && OnePriorityEach(reqs)
      requires forall i :: 0 <= i < |reqs| ==> reqs[i].line < INTC_MAX_COUNT
      modifies this`isrs, this`isrsMask, this`lines, links
      ensures Valid() && View() == RegisteredAll(reqs)
      ensures forall e :: e in View() <==> IsFirst(reqs, e)
      ensures Ascending(View())
    {
      hide View, Ascending, Registered, IsFirst, Safe, OnePriorityEach;
      for k := 0 to |reqs|
        invariant Valid() && View() == RegisteredAll(reqs[..k])
      {
        var e := reqs[k];
        NextIsSafe(reqs, k);
        Register(e.line, e.pri, e.handler);
        assert reqs[..k + 1][..k] == reqs[..k] && reqs[..k + 1][k] == e;
      }
      assert reqs[..|reqs|] == reqs;
      if reqs != [] {
        WholeRun(reqs);
      } else {
        EmptyRun();
      }
    }

    /** The list shows table `v`, except that the record of `e.line` has been overwritten. */
    ghost predicate Overwritten(v: Table, e: Entry)
      requires Wired() && forall i :: i in lines ==> i < INTC_MAX_COUNT
      reads this
    {
      && |v| == |lines|
      && (forall i, j :: 0 <= i < j < |v| ==> v[i].line != v[j].line)
      && (forall i :: 0 <= i < |v| ==> v[i].line == lines[i])
      && (forall i :: 0 <= i < |v| ==> View()[i].pri == if v[i].line == e.line then e.pri else v[i].pri)
      && (HasLine(v, e.line) <==> e.line in lines)
    }

    /** Overwriting the record of a line changes the table at most in that line's priority. */
    lemma WhileRegistering(was: Table, e: Entry)
      requires Shape() && |was| == INTC_MAX_COUNT && e.line < INTC_MAX_COUNT && isrs == was[e.line := e]
      requires forall i :: i in lines ==> was[i].line == i
      ensures Overwritten(ViewOf(was, lines), e)
    {
      var v := ViewOf(was, lines);
      assert forall i :: 0 <= i < |v| ==> lines[i] in lines && v[i].line == lines[i];
      if e.line in lines {
        var p :| 0 <= p < |lines| && lines[p] == e.line;
        assert v[p].line == e.line;
      }
    }

    /** What the walk sees at position `k` of the list. */
    lemma At(k: nat)
      requires Shape() && k < |lines|
      ensures var pos := RingOf(lines)[k + 1];
        && lines[k] < INTC_MAX_COUNT && pos == nodes[lines[k]] && pos.slot == lines[k]
        && pos.next == RingOf(lines)[Succ(k + 1, |lines| + 1)] && View()[k] == isrs[lines[k]]
    {
      assert Follows(RingOf(lines), k + 1);
      assert lines[k] in lines;
    }

    lemma AtHeader()
      requires Shape()
      ensures hdr.next == RingOf(lines)[Succ(0, |lines| + 1)]
      ensures forall j :: 1 <= j <= |lines| ==> RingOf(lines)[j] != hdr
    {
      assert Follows(RingOf(lines), 0);
    }

    /** What `Served` gives for the list as it is. */
    lemma ServedOfView(status: Word)
      requires Valid()
      ensures forall e :: e in Served(View(), status) <==> e in View() && e.line in status
      ensures Ascending(Served(View(), status))
    {
      ServedOnce(View(), status);
    }

    /** `intc_hdl_entry`.  A service routine is taken to do its work without touching this table;
        `calls` are the calls made, in order, and `status` what is left of the masked status word. */
    method HandleEntry(intStatus: Word) returns (calls: Table, status: Word)
      requires Valid()
      ensures calls == Served(View(), intStatus)
      ensures forall e :: e in calls <==> e in View() && e.line in intStatus
      ensures Ascending(calls) && status == {}
    {
      ghost var v := View();
      ServedOfView(intStatus);
      calls := [];
      status := intStatus * isrsMask;
      AtHeader();
      var pos := hdr.next;
      var n := pos.next;
      ghost var k := 0;
      while pos != hdr
        invariant k <= |lines| && pos == RingOf(lines)[Succ(k, |lines| + 1)] && n == pos.next
        invariant calls == Served(v[..k], intStatus)
        invariant forall i :: i in status <==> i in intStatus && i in lines && i !in lines[..k]
        decreases |lines| - k, pos != hdr
      {
        At(k);
        ServedStep(v, k, intStatus);
        var f := isrs[pos.slot];
        var i := f.line;
        if i in status {
          calls := calls + [f];
          status := status - {i};
        }
        assert lines[..k + 1] == lines[..k] + [lines[k]];
        k := k + 1;
        if status == {} {
          assert forall i :: i in intStatus && i in lines ==> i !in status;
          RestPending(k, intStatus);
          return;
        }
        pos := n;
        n := pos.next;
      }
      assert lines[..k] == lines && v[..k] == v;
    }

    lemma RestPending(k: nat, intStatus: Word)
      requires Valid() && k <= |lines|
      requires forall i :: i in intStatus && i in lines ==> i in lines[..k]
      ensures Served(View(), intStatus) == Served(View()[..k], intStatus)
    {
      var v := View();
      forall j | k <= j < |v|
        ensures v[j].line !in intStatus
      {
        At(j);
        assert lines[j] in lines && lines[j] !in lines[..k];
      }
      NothingServed(v[k..], intStatus);
      ServedSplit(v[..k], v[k..], intStatus);
      assert v == v[..k] + v[k..];
    }

    /** `intc_irq` and `intc_fiq`: each clears and dispatches its half of the status word it reads, the lines
        below 16 and those from 16 on. */
    method Irq(icuStatus: Word) returns (calls: Table, cleared: Word)
      requires Valid()
      ensures calls == Served(View(), icuStatus * LOW_HALF) && Ascending(calls)
      ensures forall i :: i in cleared <==> i in icuStatus && i < 16
      ensures forall e :: e in calls <==> e in View() && e.line in icuStatus && e.line < 16
    {
      cleared := icuStatus * LOW_HALF;
      var left;
      calls, left := HandleEntry(cleared);
    }

    method Fiq(icuStatus: Word) returns (calls: Table, cleared: Word)
      requires Valid()
      ensures calls == Served(View(), icuStatus * HIGH_HALF) && Ascending(calls)
      ensures forall i :: i in cleared <==> i in icuStatus && i >= 16
      ensures forall e :: e in calls <==> e in View() && e.line in icuStatus && e.line >= 16
    {
      cleared := icuStatus * HIGH_HALF;
      var left;
      calls, left := HandleEntry(cleared);
    }

    /** The search of `intc_service_change_handler`: it looks for the priority of the line rather than
        for the line. */
    method FindPri(intPri: UInt8) returns (found: bool)
      requires Shape()
      ensures found <==> HasPri(View(), intPri)
    {
      AtHeader();
      var pos := hdr.next;
      ghost var k := 0;
      while pos != hdr
        invariant k <= |lines| && pos == RingOf(lines)[Succ(k, |lines| + 1)]
        invariant forall j :: 0 <= j < k ==> View()[j].pri != intPri
        decreases |lines| - k, pos != hdr
      {
        At(k);
        if intPri == isrs[pos.slot].pri {
          return true;
        }
        pos := pos.next;
        k := k + 1;
      }
      return false;
    }

    /** `intc_service_change_handler`.  It changes the handler of the line, and nothing else, unless
        the line has no service routine. */
    method ChangeHandler(n: nat, isr: Handler)
      requires Valid() && n < INTC_MAX_COUNT
      modifies this`isrs
      ensures Valid()
      ensures isrs == if old(isrs[n].handler) == 0 then old(isrs) else old(isrs)[n := old(isrs[n]).(handler := isr)]
    {
      var bufEle := isrs[n];
      if bufEle.handler == 0 {
        return;
      }
      var p := IsListed(n);
      EmptyMeansAlone(RingOf(lines));
      if !ListEmpty(hdr) {
        var found := FindPri(bufEle.pri);
        if found {
          bufEle := bufEle.(handler := isr);
        }
      }
      assert forall i :: 0 <= i < |lines| ==> lines[i] in lines;
      isrs := isrs[n := bufEle];
      assert forall i :: 0 <= i < |lines| ==> View()[i].pri == old(View()[i].pri);
    }

    /** A line with a service routine is on the list. */
    lemma IsListed(n: nat) returns (p: nat)
      requires Valid() && n < INTC_MAX_COUNT && isrs[n].handler != 0
      ensures p < |lines| && lines[p] == n && View()[p] == isrs[n]
    {
      p :| 0 <= p < |lines| && lines[p] == n;
    }
  }
}

/** One reader and one writer of the gap ring at once (beken378/driver/audio/ring_buffer.c).  The steps
    are those between which the other side can run: snapshot of the other side's position, copy, and
    publication of the own position.  What the other side can see of a copy goes byte by byte: the
    reader's copy, and the second copy of a write that goes around the end. */
module RingInterleaving {
  import opened RingQueue
  import opened RingBuffer

  /** `lag` is a history variable: the number of bytes the other side has published since the snapshot.
      A write that goes around the end publishes before its second copy; `tail` is what it still owes. */
  datatype Writer =
    | WIdle
    | WFits(rpSeen: nat, data: seq<bv8>, lag: nat)
    | WCopied(rpSeen: nat, data: seq<bv8>, lag: nat)
    | WOwes(tail: seq<bv8>)
    | WLast

  /** `early` is a history variable: which of the copied bytes the writer owed when they were copied. */
  datatype Reader =
    | RIdle
    | RSnapped(wpSeen: nat, want: nat, lag: nat)
    | RCopying(wpSeen: nat, lag: nat, n: nat, next: nat, got: seq<bv8>, early: set<nat>)

  /** The ring, both sides, and as a history variable the bytes published and not yet consumed. */
  datatype State = State(cap: nat, wp: nat, rp: nat, cells: seq<bv8>, w: Writer, r: Reader, unread: seq<bv8>)

  predicate WrapsAround(cap: nat, wp: nat, rpSeen: nat, n: nat) {
    wp >= rpSeen && n > cap - wp
  }

  function Put(cells: seq<bv8>, at: nat, d: seq<bv8>): (c: seq<bv8>)
    ensures |c| == |cells|
  {
    seq(|cells|, i requires 0 <= i < |cells| => if at <= i < at + |d| then d[i - at] else cells[i])
  }

  /** The part of the data that is copied before the position is published. */
  function FirstPart(cap: nat, wp: nat, rpSeen: nat, data: seq<bv8>): seq<bv8> {
    if WrapsAround(cap, wp, rpSeen, |data|) && wp <= cap then data[..cap - wp] else data
  }

  /** The part that a write that goes around the end owes when it publishes. */
  function SecondPart(cap: nat, wp: nat, rpSeen: nat, data: seq<bv8>): seq<bv8> {
    if WrapsAround(cap, wp, rpSeen, |data|) && wp <= cap then data[cap - wp..] else []
  }

  ghost predicate Init(s: State) {
    && s.cap > 0 && |s.cells| == s.cap && s.wp == s.rp == 0
    && s.w == WIdle && s.r == RIdle && s.unread == []
  }

  ghost predicate WriterSnaps(s: State, s': State) {
    s.w == WIdle && exists data: seq<bv8> :: WriteFits(s.cap, s.wp, s.rp, |data|) && s' == s.(w := WFits(s.rp, data, 0))
  }

  ghost predicate WriterCopies(s: State, s': State) {
    s.w.WFits? && s' == s.(cells := Put(s.cells, s.wp, FirstPart(s.cap, s.wp, s.w.rpSeen, s.w.data)),
                           w := WCopied(s.w.rpSeen, s.w.data, s.w.lag))
  }

  function AfterPublishing(s: State, rpSeen: nat, data: seq<bv8>): Writer {
    if WrapsAround(s.cap, s.wp, rpSeen, |data|) then WOwes(SecondPart(s.cap, s.wp, rpSeen, data)) else WLast
  }

  ghost predicate WriterPublishes(s: State, s': State) {
    && s.w.WCopied?
    && var n := |s.w.data|;
       var p := WriteMoves(s.cap, s.wp, s.w.rpSeen, n);
       p >= 0 && s' == s.(wp := p, unread := s.unread + s.w.data,
                          w := AfterPublishing(s, s.w.rpSeen, s.w.data),
                          r := Later(s.r, n))
  }

  ghost predicate WriterPays(s: State, s': State) {
    && s.w.WOwes? && 0 < |s.w.tail| <= s.wp
    && s' == s.(cells := Put(s.cells, s.wp - |s.w.tail|, s.w.tail[..1]),
                w := if |s.w.tail| == 1 then WLast else WOwes(s.w.tail[1..]))
  }

  ghost predicate WriterEnds(s: State, s': State) {
    s.w == WLast && s' == s.(wp := Wrapped(s.cap, s.wp, s.rp), w := WIdle)
  }

  function Later(r: Reader, n: nat): Reader {
    if r.RIdle? then r else r.(lag := r.lag + n)
  }

  function LaterW(w: Writer, n: nat): Writer {
    if w.WFits? || w.WCopied? then w.(lag := w.lag + n) else w
  }

  ghost predicate ReaderSnaps(s: State, s': State) {
    s.r == RIdle && exists want: nat :: want > 0 && s' == s.(r := RSnapped(s.wp, want, 0))
  }

  /** The bytes a writer owes are the last ones published. */
  function Owed(s: State): nat {
    if s.w.WOwes? then |s.w.tail| else 0
  }

  ghost predicate ReaderPlans(s: State, s': State) {
    && s.r.RSnapped? && s.r.wpSeen <= s.cap && s.rp <= s.cap
    && var (n, next) := ReadPlan(s.cap, s.r.wpSeen, s.rp, s.r.want);
       s' == s.(r := RCopying(s.r.wpSeen, s.r.lag, n, next, [], {}))
  }

  ghost predicate ReaderCopies(s: State, s': State) {
    && s.r.RCopying? && |s.r.got| < s.r.n <= s.cap == |s.cells| && 0 < s.cap && s.rp <= s.cap
    && var k := |s.r.got|;
       s' == s.(r := s.r.(got := s.r.got + [s.cells[Slot(Norm(s.rp, s.cap), k, s.cap)]],
                          early := if k + Owed(s) < |s.unread| then s.r.early else s.r.early + {k}))
  }

  ghost predicate ReaderPublishes(s: State, s': State) {
    && s.r.RCopying? && |s.r.got| == s.r.n <= |s.unread|
    && s' == s.(rp := s.r.next, unread := s.unread[s.r.n..], r := RIdle, w := LaterW(s.w, s.r.n))
  }

  ghost predicate Next(s: State, s': State) {
    || WriterSnaps(s, s') || WriterCopies(s, s') || WriterPublishes(s, s') || WriterPays(s, s') || WriterEnds(s, s')
    || ReaderSnaps(s, s') || ReaderPlans(s, s') || ReaderCopies(s, s') || ReaderPublishes(s, s')
  }

  // ------------------------------------------------------------------------------------------------
  // What every interleaving keeps.

  /** `p` is a position, in either form, `n` bytes behind the read position. */
  ghost predicate Behind(cap: nat, rp: nat, p: nat, n: int) {
    0 < cap && rp <= cap && p <= cap && 0 <= n < cap && Norm(p, cap) == Slot(Norm(rp, cap), n, cap) && !(p == cap && rp == 0)
  }

  ghost predicate IndexOk(s: State) {
    && 0 < s.cap == |s.cells|
    && |s.unread| <= Most(s.cap)
    && Behind(s.cap, s.rp, s.wp, |s.unread|)
    && (s.wp == s.cap ==> s.w == WLast)
  }

  ghost predicate WriterOk(s: State)
    requires IndexOk(s)
  {
    match s.w
    case WIdle => true
    case WFits(seen, data, lag) => SeenOk(s, seen, data, lag)
    case WCopied(seen, data, lag) => SeenOk(s, seen, data, lag)
    case WOwes(tail) => 0 < |tail| <= s.wp
    case WLast => true
  }

  /** A snapshot of the read position is at most `lag` bytes old, and the write still fits. */
  ghost predicate SeenOk(s: State, seen: nat, data: seq<bv8>, lag: nat)
    requires IndexOk(s)
  {
    && data != [] && seen <= s.cap && |s.unread| + lag + |data| <= Most(s.cap)
    && Behind(s.cap, seen, s.wp, |s.unread| + lag)
    && Norm(s.rp, s.cap) == Slot(Norm(seen, s.cap), lag, s.cap)
  }

  ghost predicate ReaderOk(s: State)
    requires IndexOk(s)
  {
    match s.r
    case RIdle => true
    case RSnapped(seen, want, lag) => want > 0 && SnapOk(s, seen, lag)
    case RCopying(seen, lag, n, next, got, early) =>
      && SnapOk(s, seen, lag) && |got| <= n
      && n + lag <= |s.unread| && next <= s.cap && Norm(next, s.cap) == Slot(Norm(s.rp, s.cap), n, s.cap)
      && (next == 0 ==> s.rp == 0 || (seen == 0 && n + lag == |s.unread|))
  }

  /** A snapshot of the write position is exactly `lag` bytes old. */
  ghost predicate SnapOk(s: State, seen: nat, lag: nat)
    requires IndexOk(s)
  {
    && lag <= |s.unread| && Behind(s.cap, s.rp, seen, |s.unread| - lag)
    && (lag == 0 ==> seen == s.wp || (seen == s.cap && s.wp == 0))
  }

  ghost predicate Inv(s: State) {
    IndexOk(s) && WriterOk(s) && ReaderOk(s)
  }

  /** The fill formula gives the number of bytes between the positions. */
  lemma FillOf(cap: nat, rp: nat, p: nat, n: int)
    requires Behind(cap, rp, p, n)
    ensures Fill(cap, p, rp) == n
  {
  }

  lemma SnapKeeps(s: State, s': State)
    requires Inv(s) && (WriterSnaps(s, s') || ReaderSnaps(s, s'))
    ensures Inv(s')
  {
    FillOf(s.cap, s.rp, s.wp, |s.unread|);
  }

  lemma CopyKeeps(s: State, s': State)
    requires Inv(s) && (WriterCopies(s, s') || WriterPays(s, s'))
    ensures Inv(s')
  {
  }

  /** The index facts of a publication. */
  lemma PublishMoves(s: State, s': State)
    requires Inv(s) && WriterPublishes(s, s')
    ensures IndexOk(s') && WriterOk(s') && |s'.unread| == |s.unread| + |s.w.data| && s.w.data != []
  {
    hide ReaderOk;
    var w, n := s.w, |s.w.data|;
    FillOf(s.cap, w.rpSeen, s.wp, |s.unread| + w.lag);
    PositionMoves(s.cap, s.rp, w.rpSeen, s.wp, s'.wp, |s.unread|, w.lag, n);
  }

  lemma PublishKeeps(s: State, s': State)
    requires Inv(s) && WriterPublishes(s, s')
    ensures Inv(s')
  {
    hide Behind, Slot, Norm, WriterOk, AfterPublishing, WriteMoves;
    PublishMoves(s, s');
  }

  /** The written position stays behind the read position by what is unread, and does not take its
      second form where that would be the read position. */
  lemma PositionMoves(cap: nat, rp: nat, seen: nat, wp: nat, p: nat, unread: nat, lag: nat, n: nat)
    requires wp < cap && Behind(cap, rp, wp, unread) && Behind(cap, seen, wp, unread + lag)
    requires Norm(rp, cap) == Slot(Norm(seen, cap), lag, cap)
    requires n > 0 && unread + lag + n <= Most(cap) && p == WriteMoves(cap, wp, seen, n)
    ensures Behind(cap, rp, p, unread + n)
  {
  }

  lemma EndKeeps(s: State, s': State)
    requires Inv(s) && WriterEnds(s, s')
    ensures Inv(s')
  {
  }

  /** What a read plans from an old write position is there. */
  lemma PlanIsThere(cap: nat, rp: nat, seen: nat, want: nat, m: nat)
    requires Behind(cap, rp, seen, m) && want > 0
    ensures var (n, next) := ReadPlan(cap, seen, rp, want);
            n <= m && next <= cap && Norm(next, cap) == Slot(Norm(rp, cap), n, cap)
            && (next == 0 ==> rp == 0 || (seen == 0 && n == m))
  {
    FillOf(cap, rp, seen, m);
    ReadTakes(cap, seen, rp, want);
  }

  lemma ReadKeeps(s: State, s': State)
    requires Inv(s) && ReaderPlans(s, s')
    ensures Inv(s')
  {
    hide WriterOk, Behind, Slot, Norm, ReadPlan;
    PlanIsThere(s.cap, s.rp, s.r.wpSeen, s.r.want, |s.unread| - s.r.lag);
    SameWriter(s, s');
  }

  lemma ReadByteKeeps(s: State, s': State)
    requires Inv(s) && ReaderCopies(s, s')
    ensures Inv(s')
  {
    hide WriterOk, Behind, Slot, Norm;
    assert s'.w == s.w && WriterOk(s') by { SameWriter(s, s'); }
  }

  lemma SameWriter(s: State, s': State)
    requires Inv(s) && s' == s.(r := s'.r)
    ensures IndexOk(s') && WriterOk(s')
  {
  }

  /** What is left stays behind the new read position. */
  lemma ConsumeMoves(cap: nat, rp: nat, next: nat, wp: nat, m: nat, n: nat)
    requires Behind(cap, rp, wp, m) && n <= m && next <= cap && Norm(next, cap) == Slot(Norm(rp, cap), n, cap)
    requires next == 0 ==> wp != cap
    ensures Behind(cap, next, wp, m - n)
  {
  }

  lemma TwoSlots(cap: nat, o: nat, a: nat, b: nat)
    requires o < cap && a + b <= cap
    ensures Slot(Slot(o, a, cap), b, cap) == Slot(o, a + b, cap)
  {
  }

  /** A read that leaves the position 0 has not seen the write position at the capacity. */
  lemma NotAtBothEnds(s: State)
    requires Inv(s) && s.r.RCopying? && s.r.next == 0
    ensures s.wp != s.cap
  {
    hide WriterOk;
  }

  lemma ConsumeKeeps(s: State, s': State)
    requires Inv(s) && ReaderPublishes(s, s')
    ensures Inv(s')
  {
    hide Behind, Slot, Norm;
    var r, w := s.r, s.w;
    if r.next == 0 {
      NotAtBothEnds(s);
    }
    ConsumeMoves(s.cap, s.rp, r.next, s.wp, |s.unread|, r.n);
    if w.WFits? || w.WCopied? {
      assert SeenOk(s, w.rpSeen, w.data, w.lag);
      TwoSlots(s.cap, Norm(w.rpSeen, s.cap), w.lag, r.n);
    }
    assert IndexOk(s');
  }

  lemma StepKeeps(s: State, s': State)
    requires Inv(s) && Next(s, s')
    ensures Inv(s')
  {
    hide Inv, WriterSnaps, WriterCopies, WriterPublishes, WriterPays, WriterEnds;
    hide ReaderSnaps, ReaderPlans, ReaderCopies, ReaderPublishes;
    if WriterSnaps(s, s') || ReaderSnaps(s, s') {
      SnapKeeps(s, s');
    } else if WriterCopies(s, s') || WriterPays(s, s') {
      CopyKeeps(s, s');
    } else if WriterPublishes(s, s') {
      PublishKeeps(s, s');
    } else if WriterEnds(s, s') {
      EndKeeps(s, s');
    } else if ReaderPlans(s, s') {
      ReadKeeps(s, s');
    } else if ReaderCopies(s, s') {
      ReadByteKeeps(s, s');
    } else {
      ConsumeKeeps(s, s');
    }
  }

  ghost predicate IsRun(run: seq<State>) {
    run != [] && Init(run[0]) && forall i :: 0 <= i < |run| - 1 ==> Next(run[i], run[i + 1])
  }

  /** In every interleaving, at every moment: the number of bytes in the ring is what the fill formula
      says and never exceeds the capacity less the gap, and the reader never advances past the
      published write position. */
  lemma {:induction false} IndexSafety(run: seq<State>, i: nat)
    requires IsRun(run) && i < |run|
    ensures Inv(run[i])
    ensures Fill(run[i].cap, run[i].wp, run[i].rp) == |run[i].unread|
    ensures |run[i].unread| <= if run[i].cap > 4 then run[i].cap - 4 else 0
    ensures run[i].r.RCopying? ==> run[i].r.n <= |run[i].unread|
  {
    if i > 0 {
      IndexSafety(run, i - 1);
      StepKeeps(run[i - 1], run[i]);
    }
    FillOf(run[i].cap, run[i].rp, run[i].wp, |run[i].unread|);
  }

  // ------------------------------------------------------------------------------------------------
  // The bytes.

  function At(s: State, j: nat): bv8
    requires IndexOk(s) && j < s.cap
  {
    s.cells[Slot(Norm(s.rp, s.cap), j, s.cap)]
  }

  /** A copy of the writer, however old its snapshot, never touches a byte that is published, paid and
      not yet consumed. */
  lemma NoOverwrite(s: State, s': State, j: nat)
    requires Inv(s) && (WriterCopies(s, s') || WriterPays(s, s')) && j + Owed(s) < |s.unread|
    ensures Inv(s') && At(s', j) == At(s, j)
  {
    CopyKeeps(s, s');
    if s.w.WFits? {
      FillOf(s.cap, s.w.rpSeen, s.wp, |s.unread| + s.w.lag);
    }
    FillOf(s.cap, s.rp, s.wp, |s.unread|);
  }

  /** The shorter of the two is the end of the other. */
  predicate EndsAlike(u: seq<bv8>, t: seq<bv8>) {
    if |t| <= |u| then u[|u| - |t|..] == t else t[|t| - |u|..] == u
  }

  lemma EndsAlikeAfter(u: seq<bv8>, t: seq<bv8>, n: nat)
    requires EndsAlike(u, t) && n <= |u|
    ensures EndsAlike(u[n..], t)
  {
    if |t| <= |u| - n {
      assert u[n..][|u| - n - |t|..] == u[|u| - |t|..];
    } else if |t| <= |u| {
      assert t[|t| - (|u| - n)..] == u[|u| - |t|..][|t| - (|u| - n)..] == u[n..];
    } else {
      assert t[|t| - |u|..][n..] == t[|t| - (|u| - n)..];
    }
  }

  lemma EndByte(u: seq<bv8>, t: seq<bv8>, j: nat)
    requires EndsAlike(u, t) && j < |u| <= j + |t|
    ensures u[j] == t[|t| - (|u| - j)]
  {
  }

  predicate InPlace(cells: seq<bv8>, at: nat, d: seq<bv8>) {
    forall i :: 0 <= i < |d| && at + i < |cells| ==> cells[at + i] == d[i]
  }

  /** The cells hold the unread bytes, but for those owed; what the writer has copied and not published
      is in place; what it owes ends the queue; what the reader has not copied early is right. */
  ghost predicate DataOk(s: State)
    requires Inv(s)
  {
    && (forall j :: 0 <= j < |s.unread| - Owed(s) ==> At(s, j) == s.unread[j])
    && (s.w.WCopied? ==> InPlace(s.cells, s.wp, FirstPart(s.cap, s.wp, s.w.rpSeen, s.w.data)))
    && (s.w.WOwes? ==> EndsAlike(s.unread, s.w.tail))
    && (s.r.RCopying? ==> Right(s.r.got, s.r.early, s.unread))
  }

  /** All bytes but those in `early` are those of the queue. */
  predicate Right(got: seq<bv8>, early: set<nat>, unread: seq<bv8>) {
    |got| <= |unread| && forall j :: 0 <= j < |got| && j !in early ==> got[j] == unread[j]
  }

  lemma CopyKeepsData(s: State, s': State)
    requires Inv(s) && DataOk(s) && WriterCopies(s, s')
    ensures Inv(s') && DataOk(s')
  {
    CopyKeeps(s, s');
    forall j | 0 <= j < |s.unread|
      ensures At(s', j) == s'.unread[j]
    {
      NoOverwrite(s, s', j);
    }
  }

  lemma PayKeepsData(s: State, s': State)
    requires Inv(s) && DataOk(s) && WriterPays(s, s')
    ensures Inv(s') && DataOk(s')
  {
    hide ReaderOk, At, EndsAlike, Put, Right;
    CopyKeeps(s, s');
    var m, t := |s.unread|, s.w.tail;
    forall j | 0 <= j < m - Owed(s')
      ensures At(s', j) == s.unread[j]
    {
      if j + |t| < m {
        NoOverwrite(s, s', j);
      } else {
        PaidByte(s, s', j);
      }
    }
    EndsAlikeRest(s.unread, t);
  }

  lemma EndsAlikeRest(u: seq<bv8>, t: seq<bv8>)
    requires EndsAlike(u, t) && t != []
    ensures EndsAlike(u, t[1..])
  {
    if |t| <= |u| {
      assert u[|u| - |t| + 1..] == u[|u| - |t|..][1..];
    } else {
      assert t[1..][|t| - 1 - |u|..] == t[|t| - |u|..];
    }
  }

  /** A byte that was owed is in its cell once the writer has paid it. */
  lemma PaidByte(s: State, s': State, j: nat)
    requires Inv(s) && Inv(s') && WriterPays(s, s') && j + |s.w.tail| == |s.unread|
    requires EndsAlike(s.unread, s.w.tail)
    ensures j < |s.unread| && At(s', j) == s.unread[j]
  {
    hide ReaderOk;
    FillOf(s.cap, s.rp, s.wp, |s.unread|);
    EndByte(s.unread, s.w.tail, j);
    assert Slot(Norm(s.rp, s.cap), j, s.cap) == s.wp - |s.w.tail|;
  }

  /** A byte just published, and not owed, is in its cell. */
  lemma PublishedByte(s: State, i: nat)
    requires Inv(s) && DataOk(s) && s.w.WCopied? && i < |FirstPart(s.cap, s.wp, s.w.rpSeen, s.w.data)|
    ensures |s.unread| + i < s.cap && At(s, |s.unread| + i) == s.w.data[i]
  {
    hide ReaderOk;
    FillOf(s.cap, s.w.rpSeen, s.wp, |s.unread| + s.w.lag);
    FillOf(s.cap, s.rp, s.wp, |s.unread|);
    assert s.wp + i < s.cap;
    assert Slot(Norm(s.rp, s.cap), |s.unread| + i, s.cap) == s.wp + i;
    assert s.cells[s.wp + i] == FirstPart(s.cap, s.wp, s.w.rpSeen, s.w.data)[i];
  }

  /** The two parts are the data. */
  lemma TwoParts(s: State)
    requires s.wp < s.cap && s.w.WCopied?
    ensures var d := s.w.data; var f, e := FirstPart(s.cap, s.wp, s.w.rpSeen, d), SecondPart(s.cap, s.wp, s.w.rpSeen, d);
            d == f + e && EndsAlike(s.unread + d, e) && (!WrapsAround(s.cap, s.wp, s.w.rpSeen, |d|) ==> e == [])
  {
    var d := s.w.data;
    var f, e := FirstPart(s.cap, s.wp, s.w.rpSeen, d), SecondPart(s.cap, s.wp, s.w.rpSeen, d);
    assert d == f + e;
    assert s.unread + d == (s.unread + f) + e;
  }

  lemma PublishKeepsData(s: State, s': State)
    requires Inv(s) && DataOk(s) && WriterPublishes(s, s')
    ensures Inv(s') && DataOk(s')
  {
    hide WriterOk, FirstPart, SecondPart, WrapsAround, EndsAlike, Slot, Norm, InPlace, WriteMoves, Right;
    PublishKeeps(s, s');
    TwoParts(s);
    var m, d := |s.unread|, s.w.data;
    assert s'.unread == s.unread + d;
    if s.r.RCopying? {
      RightAfterMore(s.r.got, s.r.early, s.unread, d);
    }
    forall j | 0 <= j < |s'.unread| - Owed(s')
      ensures At(s', j) == s'.unread[j]
    {
      if j >= m {
        PublishedByte(s, j - m);
      } else {
        assert At(s, j) == s.unread[j];
      }
    }
  }

  lemma RightAfterMore(got: seq<bv8>, early: set<nat>, unread: seq<bv8>, d: seq<bv8>)
    requires Right(got, early, unread)
    ensures Right(got, early, unread + d)
  {
  }

  lemma ReadKeepsData(s: State, s': State)
    requires Inv(s) && DataOk(s) && ReaderCopies(s, s')
    ensures Inv(s') && DataOk(s')
  {
    hide WriterOk, Behind, ReadPlan, Slot, Norm, EndsAlike, InPlace;
    ReadByteKeeps(s, s');
    SameCells(s, s');
    assert s'.r.got[|s.r.got|] == At(s, |s.r.got|);
  }

  lemma SameCells(s: State, s': State)
    requires IndexOk(s) && IndexOk(s') && s'.cells == s.cells && s'.rp == s.rp
    ensures forall j :: 0 <= j < s.cap ==> At(s', j) == At(s, j)
  {
  }

  lemma ConsumeKeepsData(s: State, s': State)
    requires Inv(s) && DataOk(s) && ReaderPublishes(s, s')
    ensures Inv(s') && DataOk(s')
  {
    hide WriterOk, At, Behind, Slot, Norm, EndsAlike;
    ConsumeKeeps(s, s');
    var n := s.r.n;
    assert s'.unread == s.unread[n..];
    if s.w.WOwes? {
      EndsAlikeAfter(s.unread, s.w.tail, n);
    }
    forall j | 0 <= j < |s'.unread| - Owed(s')
      ensures At(s', j) == s'.unread[j]
    {
      ConsumedByte(s, s', j);
      assert At(s, n + j) == s.unread[n + j];
    }
  }

  lemma ConsumedByte(s: State, s': State, j: nat)
    requires Inv(s) && Inv(s') && ReaderPublishes(s, s') && s.r.n + j < |s.unread|
    ensures At(s', j) == At(s, s.r.n + j)
  {
    hide WriterOk, Behind;
    assert Slot(Norm(s'.rp, s.cap), j, s.cap) == Slot(Norm(s.rp, s.cap), s.r.n + j, s.cap);
  }

  lemma QuietKeepsData(s: State, s': State)
    requires Inv(s) && DataOk(s)
    requires WriterSnaps(s, s') || ReaderSnaps(s, s') || ReaderPlans(s, s') || WriterEnds(s, s')
    ensures Inv(s') && DataOk(s')
  {
    hide WriterOk, ReaderOk, Behind, At, EndsAlike;
    StepKeeps(s, s');
    SameCells(s, s');
  }

  /** In every interleaving, every byte the reader has copied is the right one, the oldest first, but for
      those it copied while the writer owed them; a read without such a byte delivers exactly the oldest
      bytes of the queue. */
  lemma {:induction false} UntornReadsAreRight(run: seq<State>, i: nat)
    requires IsRun(run) && i < |run|
    ensures Inv(run[i]) && DataOk(run[i])
    ensures run[i].r.RCopying? ==> Right(run[i].r.got, run[i].r.early, run[i].unread)
    ensures run[i].r.RCopying? && run[i].r.early == {} ==> run[i].r.got <= run[i].unread
  {
    hide At, WriterSnaps, WriterCopies, WriterPublishes, WriterPays, WriterEnds;
    hide ReaderSnaps, ReaderPlans, ReaderCopies, ReaderPublishes;
    IndexSafety(run, i);
    if i > 0 {
      UntornReadsAreRight(run, i - 1);
      var s, s' := run[i - 1], run[i];
      if WriterCopies(s, s') {
        CopyKeepsData(s, s');
      } else if WriterPays(s, s') {
        PayKeepsData(s, s');
      } else if WriterPublishes(s, s') {
        PublishKeepsData(s, s');
      } else if ReaderCopies(s, s') {
        ReadKeepsData(s, s');
      } else if ReaderPublishes(s, s') {
        ConsumeKeepsData(s, s');
      } else {
        QuietKeepsData(s, s');
      }
    }
  }

  // ------------------------------------------------------------------------------------------------
  // Reading between the two copies of a write.

  /** The next byte the reader copies is still owed. */
  ghost predicate CopiesEarly(s: State) {
    Inv(s) && s.r.RCopying? && |s.r.got| < s.r.n && |s.r.got| + Owed(s) >= |s.unread|
  }

  /** A byte copied early is what the cell held before; it is right exactly if the writer is to put the
      same byte there. */
  lemma EarlyByteIsOld(s: State, s': State)
    requires CopiesEarly(s) && DataOk(s) && ReaderCopies(s, s')
    ensures var k, t := |s.r.got|, s.w.tail; var back := |s.unread| - k;
            0 < back <= |t| <= s.wp <= |s.cells| && s'.r.got[k] == s.cells[s.wp - back]
            && (s'.r.got[k] == s.unread[k] <==> s.cells[s.wp - back] == t[|t| - back])
  {
    var k := |s.r.got|;
    FillOf(s.cap, s.rp, s.wp, |s.unread|);
    EndByte(s.unread, s.w.tail, k);
    assert Slot(Norm(s.rp, s.cap), k, s.cap) == s.wp - (|s.unread| - k);
  }

  /** The same positions, with other bytes unread and owed. */
  predicate OtherData(s: State, z: State) {
    && s.w.WOwes? && z.w.WOwes? && |z.unread| == |s.unread| && |z.w.tail| == |s.w.tail|
    && z == s.(unread := z.unread, w := z.w)
  }

  /** Wherever a byte can be copied early, some data makes it wrong. */
  lemma SomeDataIsWrong(s: State) returns (z: State, z': State)
    requires CopiesEarly(s) && DataOk(s)
    ensures OtherData(s, z) && Inv(z) && DataOk(z) && ReaderCopies(z, z')
    ensures var k := |s.r.got|; z'.r.got[k] != z.unread[k]
  {
    hide WriterOk, ReaderOk, Behind, Slot, Norm, EndsAlike;
    OwedIsInTail(s);
    var k, u, t := |s.r.got|, s.unread, s.w.tail;
    var x: bv8 := if At(s, k) == 0 then 1 else 0;
    z := s.(unread := u[k := x], w := WOwes(t[|t| - (|u| - k) := x]));
    OtherKeeps(s, z);
    EndsAlikeUpdate(u, t, k, x);
    OtherDataOk(s, z, k);
    assert z.cells == s.cells && z.rp == s.rp;
    z' := z.(r := z.r.(got := z.r.got + [At(z, k)], early := z.r.early + {k}));
  }

  lemma OwedIsInTail(s: State)
    requires CopiesEarly(s)
    ensures s.w.WOwes? && |s.r.got| < |s.unread| <= |s.r.got| + |s.w.tail| && |s.r.got| < s.cap && s.r.n <= s.cap
    ensures s.rp <= s.cap
  {
  }

  lemma OtherKeeps(s: State, z: State)
    requires Inv(s) && OtherData(s, z)
    ensures Inv(z) && forall j :: 0 <= j < s.cap ==> At(z, j) == At(s, j)
  {
  }

  lemma OtherDataOk(s: State, z: State, k: nat)
    requires Inv(s) && DataOk(s) && OtherData(s, z) && Inv(z) && (forall j :: 0 <= j < s.cap ==> At(z, j) == At(s, j))
    requires s.r.RCopying? && |s.r.got| <= k && |s.unread| <= k + |s.w.tail|
    requires forall j :: 0 <= j < |s.unread| && j != k ==> z.unread[j] == s.unread[j]
    requires EndsAlike(z.unread, z.w.tail)
    ensures DataOk(z)
  {
    hide WriterOk, ReaderOk, Behind, Slot, Norm, EndsAlike, At;
    assert forall j :: 0 <= j < |z.unread| - |z.w.tail| ==> At(z, j) == At(s, j);
  }

  lemma EndsAlikeUpdate(u: seq<bv8>, t: seq<bv8>, k: nat, x: bv8)
    requires EndsAlike(u, t) && k < |u| <= k + |t|
    ensures EndsAlike(u[k := x], t[|t| - (|u| - k) := x])
  {
  }

  function Bytes(n: nat, b: bv8): (s: seq<bv8>)
    ensures |s| == n
  {
    seq(n, _ => b)
  }

  function Ring9(wp: nat, rp: nat, cells: seq<bv8>, w: Writer, r: Reader, unread: seq<bv8>): State {
    State(9, wp, rp, cells, w, r, unread)
  }

  /** Five zeros go through a ring of nine bytes; then five ones are written around the end, and read
      before their second copy is done. */
  function TornAt(i: nat): State {
    var z, b := Bytes(9, 0), Bytes(5, 0);
    if i == 0 then Ring9(0, 0, z, WIdle, RIdle, [])
    else if i == 1 then Ring9(0, 0, z, WFits(0, b, 0), RIdle, [])
    else if i == 2 then Ring9(0, 0, z, WCopied(0, b, 0), RIdle, [])
    else if i == 3 then Ring9(5, 0, z, WLast, RIdle, b)
    else if i == 4 then Ring9(5, 0, z, WIdle, RIdle, b)
    else if i == 5 then Ring9(5, 0, z, WIdle, RSnapped(5, 5, 0), b)
    else if i <= 11 then Ring9(5, 0, z, WIdle, RCopying(5, 0, 5, 5, Bytes(i - 6, 0), {}), b)
    else if i == 12 then Ring9(5, 5, z, WIdle, RIdle, [])
    else TornOnes(i)
  }

  function TornOnes(i: nat): State
    requires i > 12
  {
    var o, half := Bytes(5, 1), Bytes(5, 0) + Bytes(4, 1);
    if i == 13 then Ring9(5, 5, Bytes(9, 0), WFits(5, o, 0), RIdle, [])
    else if i == 14 then Ring9(5, 5, half, WCopied(5, o, 0), RIdle, [])
    else if i == 15 then Ring9(1, 5, half, WOwes([1]), RIdle, o)
    else if i == 16 then Ring9(1, 5, half, WOwes([1]), RSnapped(1, 5, 0), o)
    else if i <= 21 then Ring9(1, 5, half, WOwes([1]), RCopying(1, 0, 5, 1, Bytes(i - 17, 1), {}), o)
    else Ring9(1, 5, half, WOwes([1]), RCopying(1, 0, 5, 1, Bytes(4, 1) + [0], {4}), o)
  }

  function TornRun(): (run: seq<State>)
    ensures |run| == 23
  {
    seq(23, i requires 0 <= i < 23 => TornAt(i))
  }

  /** There is a run in which a read that falls between the publication and the second copy of a write
      delivers a byte that was never written there. */
  lemma TornReadsAreWrong()
    ensures IsRun(TornRun())
    ensures var s := TornRun()[22]; s.r.RCopying? && |s.r.got| == s.r.n <= |s.unread| && s.r.got != s.unread[..s.r.n]
  {
    hide TornAt, TornOnes, Next;
    var run := TornRun();
    forall i | 0 <= i < 22
      ensures Next(run[i], run[i + 1])
    {
      if i < 4 {
        ZerosWritten(i);
      } else if i < 12 {
        ZerosRead(i);
      } else if i < 15 {
        OnesWritten(i);
      } else {
        OnesRead(i);
      }
    }
    TornFirstAndLast();
  }

  lemma TornFirstAndLast()
    ensures Init(TornAt(0))
    ensures var s := TornAt(22); s.r.RCopying? && |s.r.got| == s.r.n <= |s.unread| && s.r.got != s.unread[..s.r.n]
  {
    assert TornAt(22).r.got[4] == 0 && TornAt(22).unread[..5][4] == 1;
  }

  lemma ZerosWritten(i: nat)
    requires i < 4
    ensures Next(TornAt(i), TornAt(i + 1))
  {
    var b := Bytes(5, 0);
    if i == 0 {
      assert WriterSnaps(TornAt(0), TornAt(1)) by { assert WriteFits(9, 0, 0, |b|); }
    } else if i == 1 {
      assert WriterCopies(TornAt(1), TornAt(2)) by { assert Put(Bytes(9, 0), 0, b) == Bytes(9, 0); }
    } else if i == 2 {
      assert WriterPublishes(TornAt(2), TornAt(3)) by { assert [] + b == b; }
    } else {
      assert WriterEnds(TornAt(3), TornAt(4));
    }
  }

  lemma ZerosRead(i: nat)
    requires 4 <= i < 12
    ensures Next(TornAt(i), TornAt(i + 1))
  {
    if i == 4 {
      assert ReaderSnaps(TornAt(4), TornAt(5));
    } else if i == 5 {
      assert ReaderPlans(TornAt(5), TornAt(6)) by { assert Bytes(0, 0) == []; }
    } else if i < 11 {
      assert Bytes(i - 6, 0) + [0] == Bytes(i - 5, 0);
      assert ReaderCopies(TornAt(i), TornAt(i + 1));
    } else {
      assert ReaderPublishes(TornAt(11), TornAt(12)) by { assert Bytes(5, 0)[5..] == []; }
    }
  }

  lemma OnesWritten(i: nat)
    requires 12 <= i < 15
    ensures Next(TornAt(i), TornAt(i + 1))
  {
    var o := Bytes(5, 1);
    if i == 12 {
      assert WriterSnaps(TornAt(12), TornAt(13)) by { assert WriteFits(9, 5, 5, |o|); }
    } else if i == 13 {
      assert WriterCopies(TornAt(13), TornAt(14)) by {
        assert Put(Bytes(9, 0), 5, o[..4]) == Bytes(5, 0) + Bytes(4, 1);
      }
    } else {
      assert WriterPublishes(TornAt(14), TornAt(15)) by { assert [] + o == o && o[4..] == [1]; }
    }
  }

  lemma OnesRead(i: nat)
    requires 15 <= i < 22
    ensures Next(TornAt(i), TornAt(i + 1))
  {
    if i == 15 {
      assert ReaderSnaps(TornAt(15), TornAt(16));
    } else if i == 16 {
      assert ReaderPlans(TornAt(16), TornAt(17)) by { assert Bytes(0, 1) == []; }
    } else if i < 21 {
      assert Bytes(i - 17, 1) + [1] == Bytes(i - 16, 1);
      assert ReaderCopies(TornAt(i), TornAt(i + 1));
    } else {
      assert ReaderCopies(TornAt(21), TornAt(22)) by {
        assert TornAt(21).cells[0] == 0 && TornAt(21).r.early + {4} == {4};
      }
    }
  }
}

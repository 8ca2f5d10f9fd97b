/** The ring a DMA channel writes and the processor reads
    (beken378/driver/audio/ring_buffer_dma_write.c).  The channel moves one word at a time and halts at
    its pause address. */
module DmaWriteRing {
  import opened Numbers
  import opened RingQueue
  import opened RingBuffer
  import opened DmaWords

  /** Where the channel must halt when the processor has read up to `rp`. */
  function PauseAt(cap: nat, rp: nat): int {
    if rp >= RWP_SAFE_INTERVAL then rp - RWP_SAFE_INTERVAL else cap + rp - RWP_SAFE_INTERVAL
  }

  /** `had` is a history variable: the number of unread bytes at the snapshot. */
  datatype Reader =
    | Idle
    | Snapped(seen: nat, want: nat, had: nat)
    | Copying(n: nat, next: nat, got: seq<bv8>)
    | Moved(n: nat)

  /** The channel's write address and pause address, the processor's side, and as history variables the
      bytes ever written and ever taken. */
  datatype State = State(cap: nat, hw: nat, pause: nat, rp: nat, cells: seq<bv8>, r: Reader,
                         written: seq<bv8>, taken: seq<bv8>)

  ghost predicate Init(s: State) {
    && s.cap > 0 && Whole(s.cap) && |s.cells| == s.cap
    && s.hw == s.rp == 0 && s.pause == s.cap - RWP_SAFE_INTERVAL
    && s.r == Idle && s.written == s.taken == []
  }

  ghost predicate ChannelWrites(s: State, s': State) {
    && s.hw != s.pause && s.hw + WORD <= |s.cells|
    && exists w: seq<bv8> :: |w| == WORD &&
         s' == s.(cells := Laid(s.cells, s.hw, w), hw := if s.hw + WORD == s.cap then 0 else s.hw + WORD,
                  written := s.written + w)
  }

  ghost predicate ReaderSnaps(s: State, s': State) {
    && s.r == Idle && |s.taken| <= |s.written|
    && exists want: nat :: want > 0 && Whole(want) &&
         s' == s.(r := Snapped(s.hw, want, |s.written| - |s.taken|))
  }

  ghost predicate ReaderPlans(s: State, s': State) {
    && s.r.Snapped? && s.r.seen <= s.cap && s.rp <= s.cap
    && var (n, next) := ReadPlan(s.cap, s.r.seen, s.rp, s.r.want);
       s' == s.(r := Copying(n, next, []))
  }

  /** The copy, byte by byte: the channel may run in between. */
  ghost predicate ReaderCopies(s: State, s': State) {
    && s.r.Copying? && |s.r.got| < s.r.n <= s.cap == |s.cells| && 0 < s.cap && s.rp <= s.cap
    && s' == s.(r := s.r.(got := s.r.got + [s.cells[Slot(Norm(s.rp, s.cap), |s.r.got|, s.cap)]]))
  }

  ghost predicate ReaderMoves(s: State, s': State) {
    && s.r.Copying? && |s.r.got| == s.r.n
    && s' == s.(rp := s.r.next, taken := s.taken + s.r.got, r := Moved(s.r.n))
  }

  ghost predicate ReaderPauses(s: State, s': State) {
    s.r.Moved? && PauseAt(s.cap, s.rp) >= 0 && s' == s.(pause := PauseAt(s.cap, s.rp), r := Idle)
  }

  ghost predicate Next(s: State, s': State) {
    || ChannelWrites(s, s') || ReaderSnaps(s, s') || ReaderPlans(s, s') || ReaderCopies(s, s')
    || ReaderMoves(s, s') || ReaderPauses(s, s')
  }

  // ------------------------------------------------------------------------------------------------
  // What every interleaving keeps.

  function Unread(s: State): int {
    |s.written| - |s.taken|
  }

  /** The bytes consumed that the pause address does not know of yet. */
  function Slack(s: State): nat {
    if s.r.Moved? then s.r.n else 0
  }

  /** The unread bytes, those consumed behind the channel's back and the gap fit; the channel stands
      behind the unread bytes and halts a gap before the consumed ones. */
  ghost predicate IndexOk(s: State) {
    && 0 < s.cap == |s.cells| && s.rp <= s.cap && s.hw < s.cap && s.pause < s.cap
    && Whole(s.cap) && Whole(s.hw) && Whole(s.rp) && Whole(s.pause)
    && 0 <= Unread(s) && Whole(Unread(s)) && Whole(Slack(s)) && Unread(s) + Slack(s) + RWP_SAFE_INTERVAL <= s.cap
    && s.hw == Slot(Norm(s.rp, s.cap), Unread(s), s.cap)
    && Norm(s.rp, s.cap) == Slot(s.pause, Slack(s) + RWP_SAFE_INTERVAL, s.cap)
  }

  ghost predicate ReaderOk(s: State)
    requires IndexOk(s)
  {
    match s.r
    case Idle => true
    case Snapped(seen, want, had) =>
      Whole(want) && had <= Unread(s) && Whole(had) && seen == Slot(Norm(s.rp, s.cap), had, s.cap)
    case Copying(n, next, got) =>
      && |got| <= n <= Unread(s) && Whole(n)
      && next <= s.cap && Whole(next) && Norm(next, s.cap) == Slot(Norm(s.rp, s.cap), n, s.cap)
    case Moved(n) => true
  }

  /** What has been taken, then what is being copied, is the beginning of what was written; what is
      still unread lies in the ring. */
  ghost predicate DataOk(s: State)
    requires IndexOk(s)
  {
    && s.taken == s.written[..|s.taken|]
    && (forall j :: 0 <= j < Unread(s) ==> At(s, j) == s.written[|s.taken| + j])
    && (s.r.Copying? && |s.taken| + |s.r.got| <= |s.written| ==>
          s.r.got == s.written[|s.taken|..|s.taken| + |s.r.got|])
  }

  function At(s: State, j: nat): bv8
    requires IndexOk(s) && j < s.cap
  {
    s.cells[Slot(Norm(s.rp, s.cap), j, s.cap)]
  }

  ghost predicate Inv(s: State) {
    IndexOk(s) && ReaderOk(s) && DataOk(s)
  }

  /** The channel halts exactly when, as far as it knows, the ring is full. */
  lemma HaltsWhenFull(s: State)
    requires IndexOk(s)
    ensures s.hw == s.pause <==> Unread(s) + Slack(s) == s.cap - 4
  {
  }

  /** A word of the channel falls on no unread byte. */
  lemma ChannelSparesUnread(s: State, s': State, j: nat)
    requires IndexOk(s) && ChannelWrites(s, s') && j < Unread(s)
    ensures IndexOk(s') && At(s', j) == At(s, j) && Unread(s') == Unread(s) + WORD
  {
    ChannelKeepsIndex(s, s');
    HaltsWhenFull(s);
    var o, i := Norm(s.rp, s.cap), Slot(Norm(s.rp, s.cap), j, s.cap);
    assert !(s.hw <= i < s.hw + WORD);
  }

  lemma ChannelKeepsIndex(s: State, s': State)
    requires IndexOk(s) && ChannelWrites(s, s')
    ensures IndexOk(s') && Unread(s') == Unread(s) + WORD && Slack(s') == Slack(s)
  {
    hide Laid, Whole;
    HaltsWhenFull(s);
    assert |s'.written| == |s.written| + WORD;
    assert Whole(RWP_SAFE_INTERVAL) && Whole(0) by { WholeWords(); }
    NextWhole(s);
    WholeSum(s.hw, WORD);
    WholeSum(Unread(s), WORD);
  }

  /** The gap to the pause address is whole words. */
  lemma NextWhole(s: State)
    requires IndexOk(s) && Unread(s) + Slack(s) < s.cap - RWP_SAFE_INTERVAL
    ensures Unread(s) + Slack(s) + WORD <= s.cap - RWP_SAFE_INTERVAL
    ensures s.hw + WORD <= s.cap
  {
    hide Slot, Norm, Whole, Unread, Slack;
    WholeWords();
    WholeSum(Unread(s), Slack(s));
    WholeSum(s.cap, WORD);
    WholeSum(Unread(s) + Slack(s), s.cap - RWP_SAFE_INTERVAL);
    WholeSum(s.hw, s.cap);
  }

  lemma CopyKeepsIndex(s: State, s': State)
    requires Inv(s) && (ReaderSnaps(s, s') || ReaderPlans(s, s') || ReaderCopies(s, s'))
    ensures IndexOk(s') && ReaderOk(s')
  {
    hide Whole, DataOk;
    WholeWords();
    if ReaderPlans(s, s') {
      var r := s.r;
      PlanIsWhole(s.cap, r.seen, s.rp, r.want, r.had);
    }
  }

  /** A plan from whole words takes whole words. */
  lemma PlanIsWhole(cap: nat, seen: nat, rp: nat, want: nat, had: nat)
    requires 0 < cap && rp <= cap && had < cap && seen == Slot(Norm(rp, cap), had, cap)
    requires Whole(cap) && Whole(rp) && Whole(want) && Whole(had)
    ensures seen < cap
    ensures var (n, next) := ReadPlan(cap, seen, rp, want);
            n <= had && Whole(n) && next <= cap && Whole(next) && Norm(next, cap) == Slot(Norm(rp, cap), n, cap)
  {
    hide Whole;
    assert Fill(cap, seen, rp) == had;
    ReadTakes(cap, seen, rp, want);
    var (n, next) := ReadPlan(cap, seen, rp, want);
    WholeWords();
    WholeSum(rp, n);
    WholeSum(rp + n, cap);
  }

  lemma MoveKeepsIndex(s: State, s': State)
    requires Inv(s) && ReaderMoves(s, s')
    ensures IndexOk(s') && ReaderOk(s') && Unread(s') == Unread(s) - s.r.n
  {
    hide Whole, DataOk;
    assert |s'.taken| == |s.taken| + s.r.n;
    WholeSum(Unread(s), s.r.n);
  }

  lemma PauseKeepsIndex(s: State, s': State)
    requires Inv(s) && ReaderPauses(s, s')
    ensures IndexOk(s') && ReaderOk(s')
  {
    hide Whole, DataOk;
    WholeWords();
    WholeSum(s.rp, WORD);
    WholeSum(s.cap, s.rp);
    WholeSum(s.cap + s.rp, WORD);
  }

  lemma IndexKept(s: State, s': State)
    requires Inv(s) && Next(s, s')
    ensures IndexOk(s') && ReaderOk(s')
  {
    hide IndexOk, DataOk, ReaderSnaps, ReaderPlans, ReaderCopies, ReaderMoves, ReaderPauses, Slot, Norm, Whole;
    if ChannelWrites(s, s') {
      ChannelKeepsIndex(s, s');
    } else if ReaderMoves(s, s') {
      MoveKeepsIndex(s, s');
    } else if ReaderPauses(s, s') {
      PauseKeepsIndex(s, s');
    } else {
      CopyKeepsIndex(s, s');
    }
  }

  lemma ChannelKeepsData(s: State, s': State)
    requires Inv(s) && ChannelWrites(s, s')
    ensures Inv(s')
  {
    hide ReaderOk, Whole, Slot, Norm, Laid;
    IndexKept(s, s');
    forall j | 0 <= j < Unread(s')
      ensures At(s', j) == s'.written[|s'.taken| + j]
    {
      if j < Unread(s) {
        ChannelSparesUnread(s, s', j);
      } else {
        NewByte(s, s', j);
      }
    }
    var m := |s.taken|;
    assert s'.written[..m] == s.written[..m];
    if s.r.Copying? {
      CopiedIsUnread(s);
      assert s'.written[m..m + |s.r.got|] == s.written[m..m + |s.r.got|];
    }
  }

  lemma CopiedIsUnread(s: State)
    requires Inv(s) && s.r.Copying?
    ensures |s.r.got| <= s.r.n <= Unread(s) && s.r.got == s.written[|s.taken|..|s.taken| + |s.r.got|]
  {
  }

  lemma CopyKeepsData(s: State, s': State)
    requires Inv(s) && ReaderCopies(s, s')
    ensures Inv(s')
  {
    hide Whole, Slot, Norm;
    IndexKept(s, s');
    var m, k := |s.taken|, |s.r.got|;
    assert At(s, k) == s.written[m + k];
    assert s.written[m..m + k + 1] == s.written[m..m + k] + [s.written[m + k]];
    SameCells(s, s');
  }

  lemma SameCells(s: State, s': State)
    requires IndexOk(s) && IndexOk(s') && s'.cells == s.cells && s'.rp == s.rp && s'.cap == s.cap
    ensures forall j :: 0 <= j < s.cap ==> At(s', j) == At(s, j)
  {
  }

  lemma MoveKeepsData(s: State, s': State)
    requires Inv(s) && ReaderMoves(s, s')
    ensures Inv(s')
  {
    hide Whole, Slot, Norm;
    IndexKept(s, s');
    MoveKeepsIndex(s, s');
    CopiedIsUnread(s);
    var m, n := |s.taken|, s.r.n;
    assert s.written[..m] + s.written[m..m + n] == s.written[..m + n];
    forall j | 0 <= j < Unread(s')
      ensures At(s', j) == s'.written[|s'.taken| + j]
    {
      MovedByte(s, s', j);
      assert At(s, n + j) == s.written[m + (n + j)];
    }
  }

  lemma MovedByte(s: State, s': State, j: nat)
    requires IndexOk(s) && ReaderOk(s) && IndexOk(s') && ReaderMoves(s, s') && s.r.n + j < s.cap
    ensures At(s', j) == At(s, s.r.n + j)
  {
    hide Whole;
    assert Slot(Norm(s'.rp, s.cap), j, s.cap) == Slot(Norm(s.rp, s.cap), s.r.n + j, s.cap);
  }

  lemma QuietKeepsData(s: State, s': State)
    requires Inv(s) && (ReaderSnaps(s, s') || ReaderPlans(s, s') || ReaderPauses(s, s'))
    ensures Inv(s')
  {
    hide Whole, Slot, Norm, ReadPlan, ReaderOk;
    IndexKept(s, s');
    SameCells(s, s');
  }

  lemma StepKeeps(s: State, s': State)
    requires Inv(s) && Next(s, s')
    ensures Inv(s')
  {
    hide Inv, ChannelWrites, ReaderSnaps, ReaderPlans, ReaderCopies, ReaderMoves, ReaderPauses;
    if ChannelWrites(s, s') {
      ChannelKeepsData(s, s');
    } else if ReaderCopies(s, s') {
      CopyKeepsData(s, s');
    } else if ReaderMoves(s, s') {
      MoveKeepsData(s, s');
    } else {
      QuietKeepsData(s, s');
    }
  }

  ghost predicate IsRun(run: seq<State>) {
    run != [] && Init(run[0]) && forall i :: 0 <= i < |run| - 1 ==> Next(run[i], run[i + 1])
  }

  /** In every interleaving, at every moment: at most the capacity less the gap is unread, whatever the
      processor has copied is what the channel wrote, in order and without loss, and the channel never
      writes over an unread byte. */
  lemma {:induction false} RunIsQueue(run: seq<State>, i: nat)
    requires IsRun(run) && i < |run|
    ensures Inv(run[i])
    ensures |run[i].taken| <= |run[i].written| <= |run[i].taken| + run[i].cap - 4
    ensures run[i].taken == run[i].written[..|run[i].taken|]
    ensures run[i].r.Copying? ==> run[i].taken + run[i].r.got <= run[i].written
    ensures i > 0 && ChannelWrites(run[i - 1], run[i]) ==> Spared(run[i - 1], run[i])
  {
    hide Next, ChannelWrites, Slot, Norm, Whole, ReaderOk, DataOk, Spared;
    if i > 0 {
      RunIsQueue(run, i - 1);
      StepKeeps(run[i - 1], run[i]);
      if ChannelWrites(run[i - 1], run[i]) {
        ChannelSpares(run[i - 1], run[i]);
      }
    } else {
      Started(run[0]);
    }
    Prefix(run[i]);
  }

  /** Every byte unread before is in its place after. */
  ghost predicate Spared(s: State, s': State) {
    IndexOk(s) && IndexOk(s') && s'.cap == s.cap && forall j :: 0 <= j < Unread(s) ==> At(s', j) == At(s, j)
  }

  lemma ChannelSpares(s: State, s': State)
    requires IndexOk(s) && ChannelWrites(s, s')
    ensures Spared(s, s')
  {
    hide Slot, Norm, Whole, Laid;
    ChannelKeepsIndex(s, s');
    forall j | 0 <= j < Unread(s)
      ensures At(s', j) == At(s, j)
    {
      ChannelSparesUnread(s, s', j);
    }
  }

  lemma Started(s: State)
    requires Init(s)
    ensures Inv(s)
  {
  }

  lemma Prefix(s: State)
    requires Inv(s)
    ensures s.taken == s.written[..|s.taken|]
    ensures s.r.Copying? ==> s.taken + s.r.got <= s.written
  {
    hide Slot, Norm, Whole;
    if s.r.Copying? {
      CopiedIsUnread(s);
      var m, k := |s.taken|, |s.r.got|;
      assert s.written[..m] + s.written[m..m + k] == s.written[..m + k];
    }
  }

  /** Clearing the ring (`rb_clear_dma_write`) forgets the unread bytes and the pause address, but not
      where the channel stands. */
  function Cleared(s: State): State {
    s.(rp := 0, pause := Most(s.cap), r := Idle, taken := s.written)
  }

  /** A clear leaves an empty ring exactly when the channel stands at the start. */
  lemma ClearNeedsStart(s: State)
    requires Inv(s) && s.r == Idle
    ensures Inv(Cleared(s)) <==> s.hw == 0
  {
    var c := Cleared(s);
    WholeWords();
    assert c.taken == c.written[..|c.taken|];
    assert Whole(c.pause) by { WholeSum(s.cap, WORD); }
  }

  /** The two sizes, for the channel's position at the moment of the call. */
  lemma SizesAreRight(s: State)
    requires Inv(s)
    ensures Fill(s.cap, s.hw, s.rp) == Unread(s)
    ensures Free(s.cap, s.hw, s.rp) == s.cap - 4 - Unread(s)
  {
  }

  lemma NewByte(s: State, s': State, j: nat)
    requires IndexOk(s) && ChannelWrites(s, s') && Unread(s) <= j < Unread(s) + WORD
    ensures IndexOk(s') && At(s', j) == s'.written[|s'.taken| + j]
  {
    hide Whole;
    ChannelKeepsIndex(s, s');
    NextWhole(s) by { HaltsWhenFull(s); }
    var i := j - Unread(s);
    assert Slot(Norm(s.rp, s.cap), j, s.cap) == s.hw + i;
  }

  // ------------------------------------------------------------------------------------------------
  // The code.  `dst` is what the channel reports as its write address, less the start of the ring.

  class RbDmaWrite {
    const address: array<bv8>
    const capacity: nat
    var wp: nat
    var rp: nat
    var pause: int

    ghost predicate Valid()
      reads this
    {
      RWP_SAFE_INTERVAL <= capacity == address.Length < WRAP && rp <= capacity && 0 <= pause < capacity
    }

    constructor (addr: array<bv8>)
      requires RWP_SAFE_INTERVAL <= addr.Length < WRAP
      ensures Valid() && wp == rp == 0 && pause == capacity - 4 && address == addr
    {
      address := addr;
      capacity := addr.Length;
      wp, rp := 0, 0;
      pause := addr.Length - RWP_SAFE_INTERVAL;
    }

    method Clear()
      requires Valid()
      modifies this
      ensures Valid() && wp == rp == 0 && pause == capacity - 4
    {
      wp, rp := 0, 0;
      pause := capacity - RWP_SAFE_INTERVAL;
    }

    method CopyOut(dst: array<bv8>, at: nat, from: nat, n: nat)
      requires at + n <= dst.Length && from + n <= address.Length && dst != address
      modifies dst
      ensures dst[..] == Laid(old(dst[..]), at, address[..][from..from + n])
    {
      forall i | 0 <= i < n { dst[at + i] := address[from + i]; }
    }

    /** The copies of `rb_read_dma_write`. */
    method ReadSteps(buffer: array<bv8>, requiredBytes: nat, dst: nat) returns (readBytes: nat)
      requires Valid() && 0 < requiredBytes <= buffer.Length && buffer != address && dst < capacity
      modifies this`rp, buffer
      ensures (readBytes, rp) == ReadPlan(capacity, dst, old(rp), requiredBytes) && rp <= capacity
      ensures readBytes <= capacity && readBytes <= buffer.Length
      ensures buffer[..] == Laid(old(buffer[..]), 0, Queue(address[..], Norm(old(rp), capacity), readBytes))
    {
      hide Queue, U32, Laid, Fill, Most, Norm;
      ghost var b, was, r0 := address[..], buffer[..], rp;
      if dst >= rp {
        var remainBytes := dst - rp;
        if requiredBytes > remainBytes {
          readBytes := remainBytes;
        } else {
          readBytes := requiredBytes;
        }
        CopyOut(buffer, 0, rp, readBytes);
        rp := rp + readBytes;
        Taken(b, was, buffer[..], r0, readBytes);
      } else {
        var remainBytes := capacity - rp;
        if requiredBytes > remainBytes {
          readBytes := remainBytes;
          CopyOut(buffer, 0, rp, readBytes);
          ghost var mid := buffer[..];
          if requiredBytes - readBytes > dst {
            CopyOut(buffer, readBytes, 0, dst);
            rp := dst;
            readBytes := readBytes + dst;
          } else {
            CopyOut(buffer, readBytes, 0, requiredBytes - readBytes);
            rp := requiredBytes - readBytes;
            readBytes := requiredBytes;
          }
          TakenAround(b, was, mid, buffer[..], r0, rp);
        } else {
          readBytes := requiredBytes;
          CopyOut(buffer, 0, rp, readBytes);
          rp := rp + readBytes;
          Taken(b, was, buffer[..], r0, readBytes);
        }
      }
    }

    /** `rb_read_dma_write`: the plan of the protocol above, for the position the channel reports, and
        the pause address that goes with it.  A request for nothing changes nothing. */
    method Read(buffer: array<bv8>, size: nat, count: nat, dst: nat) returns (readBytes: nat)
      requires Valid() && U32(size * count) <= buffer.Length && buffer != address && dst < capacity
      modifies this, buffer
      ensures Valid()
      ensures (readBytes, rp) == ReadPlan(capacity, dst, old(rp), U32(size * count))
      ensures readBytes <= capacity && readBytes <= buffer.Length
      ensures buffer[..] == Laid(old(buffer[..]), 0, Queue(address[..], Norm(old(rp), capacity), readBytes))
      ensures if U32(size * count) == 0 then wp == old(wp) && pause == old(pause)
              else wp == dst && pause == PauseAt(capacity, rp) == if rp >= 4 then rp - 4 else capacity + rp - 4
    {
      hide ReadPlan, Queue, Laid, Norm;
      var requiredBytes := U32(size * count);
      if requiredBytes == 0 {
        LaidNothing(buffer[..], Queue(address[..], Norm(rp, capacity), 0));
        NothingPlanned(capacity, dst, rp);
        return 0;
      }
      wp := dst;
      readBytes := ReadSteps(buffer, requiredBytes, dst);
      if rp >= RWP_SAFE_INTERVAL {
        pause := rp - RWP_SAFE_INTERVAL;
      } else {
        pause := capacity + rp - RWP_SAFE_INTERVAL;
      }
    }

    lemma NothingPlanned(cap: nat, dst: nat, rp: nat)
      requires dst <= cap && rp <= cap
      ensures ReadPlan(cap, dst, rp, 0) == (0, rp)
    {
    }

    /** The machine's state is this ring's, with the channel at `dst`. */
    predicate Shows(s: State, dst: nat)
      reads this
    {
      s.cap == capacity && s.hw == dst && s.rp == rp
    }

    method GetFillSize(dst: nat) returns (n: int)
      requires Valid() && dst < capacity
      modifies this`wp
      ensures wp == dst && n == Fill(capacity, dst, rp)
      ensures Positions(capacity, dst, rp) ==> n + Free(capacity, dst, rp) == Most(capacity)
      ensures forall s: State :: Inv(s) && Shows(s, dst) ==> n == Unread(s)
    {
      hide Inv;
      wp := dst;
      n := if wp >= rp then wp - rp else capacity - rp + wp;
      forall s: State | Inv(s) && Shows(s, dst)
        ensures n == Unread(s)
      {
        SizesAreRight(s);
      }
    }

    method GetFreeSize(dst: nat) returns (n: int)
      requires Valid() && dst < capacity
      modifies this`wp
      ensures wp == dst && n == Free(capacity, dst, rp)
      ensures Positions(capacity, dst, rp) ==> Fill(capacity, dst, rp) + n == Most(capacity)
      ensures forall s: State :: Inv(s) && Shows(s, dst) ==> Unread(s) + n == capacity - 4
    {
      hide Inv;
      forall s: State | Inv(s) && Shows(s, dst)
        ensures Free(capacity, dst, rp) == Most(capacity) - Unread(s)
      {
        SizesAreRight(s);
      }
      wp := dst;
      var freeSize := if wp >= rp then capacity - wp + rp else rp - wp;
      n := if freeSize > RWP_SAFE_INTERVAL then freeSize - RWP_SAFE_INTERVAL else 0;
    }
  }
}

/** The ring the processor writes and a DMA channel reads
    (beken378/driver/audio/ring_buffer_dma_read.c).  The channel moves one word at a time and halts at
    its pause address, which is where the processor has written to. */
module DmaReadRing {
  import opened Numbers
  import opened RingQueue
  import opened RingBuffer
  import opened DmaWords

  /** `lag` is a history variable: the number of bytes the channel has read since the snapshot. */
  datatype Writer =
    | Idle
    | Copying(seen: nat, data: seq<bv8>, done: nat, lag: nat)
    | Moved(data: seq<bv8>)

  /** The channel's read address and pause address, the processor's side, and as history variables the
      bytes ever given to the channel and ever read by it. */
  datatype State = State(cap: nat, hw: nat, pause: nat, wp: int, cells: seq<bv8>, w: Writer,
                         given: seq<bv8>, taken: seq<bv8>)

  ghost predicate Init(s: State) {
    && s.cap > 0 && Whole(s.cap) && |s.cells| == s.cap
    && s.hw == s.wp == s.pause == 0
    && s.w == Idle && s.given == s.taken == []
  }

  function Later(w: Writer): Writer {
    if w.Copying? then w.(lag := w.lag + WORD) else w
  }

  ghost predicate ChannelReads(s: State, s': State) {
    && s.hw != s.pause && s.hw + WORD <= |s.cells|
    && s' == s.(taken := s.taken + s.cells[s.hw..s.hw + WORD],
                hw := if s.hw + WORD == s.cap then 0 else s.hw + WORD, w := Later(s.w))
  }

  /** A write that does not fit changes nothing and is not a step. */
  ghost predicate WriterSnaps(s: State, s': State) {
    && s.w == Idle && s.wp >= 0
    && exists data: seq<bv8> :: WriteFits(s.cap, s.wp, s.hw, |data|) && Whole(|data|) &&
         s' == s.(w := Copying(s.hw, data, 0, 0))
  }

  /** The copies, byte by byte: the channel may run in between. */
  ghost predicate WriterCopies(s: State, s': State) {
    && s.w.Copying? && s.w.done < |s.w.data| <= s.cap == |s.cells| && 0 <= s.wp < s.cap
    && s' == s.(cells := s.cells[Slot(s.wp, s.w.done, s.cap) := s.w.data[s.w.done]], w := s.w.(done := s.w.done + 1))
  }

  /** The write position is moved, and wrapped by the read position of the snapshot. */
  ghost predicate WriterMoves(s: State, s': State) {
    && s.w.Copying? && s.w.done == |s.w.data| && s.wp >= 0
    && var p := WriteMoves(s.cap, s.wp, s.w.seen, |s.w.data|);
       p >= 0 && s' == s.(wp := Wrapped(s.cap, p, s.w.seen), w := Moved(s.w.data))
  }

  ghost predicate WriterPauses(s: State, s': State) {
    s.w.Moved? && s.wp >= 0 && s' == s.(pause := s.wp, given := s.given + s.w.data, w := Idle)
  }

  ghost predicate Next(s: State, s': State) {
    ChannelReads(s, s') || WriterSnaps(s, s') || WriterCopies(s, s') || WriterMoves(s, s') || WriterPauses(s, s')
  }

  // ------------------------------------------------------------------------------------------------
  // What every interleaving keeps.

  function Unread(s: State): int {
    |s.given| - |s.taken|
  }

  /** The bytes being written that the channel does not know of yet. */
  function Coming(s: State): seq<bv8> {
    match s.w
    case Idle => []
    case Copying(_, data, _, _) => data
    case Moved(data) => data
  }

  ghost predicate IndexOk(s: State) {
    && 0 < s.cap == |s.cells| && s.hw < s.cap && s.pause < s.cap && 0 <= s.wp < s.cap
    && Whole(s.cap) && Whole(s.hw) && Whole(s.pause) && Whole(s.wp) && Whole(Unread(s)) && Whole(|Coming(s)|)
    && 0 <= Unread(s) && Unread(s) + |Coming(s)| <= Most(s.cap)
    && s.pause == Slot(s.hw, Unread(s), s.cap)
    && s.wp == (if s.w.Moved? then Slot(s.pause, |s.w.data|, s.cap) else s.pause)
  }

  ghost predicate WriterOk(s: State)
    requires IndexOk(s)
  {
    s.w.Copying? ==>
      && s.w.done <= |s.w.data| && s.w.data != [] && s.w.seen < s.cap
      && Unread(s) + s.w.lag + |s.w.data| <= Most(s.cap) && s.hw == Slot(s.w.seen, s.w.lag, s.cap)
  }

  /** The byte `j` places after the channel's position. */
  function At(s: State, j: nat): bv8
    requires IndexOk(s) && j < s.cap
  {
    s.cells[Slot(s.hw, j, s.cap)]
  }

  /** How many of the coming bytes are in place. */
  function Laying(s: State): nat {
    match s.w
    case Idle => 0
    case Copying(_, _, done, _) => done
    case Moved(data) => |data|
  }

  ghost predicate DataOk(s: State)
    requires IndexOk(s)
  {
    && s.taken == s.given[..|s.taken|]
    && (forall j :: 0 <= j < Unread(s) ==> At(s, j) == s.given[|s.taken| + j])
    && (forall j :: Unread(s) <= j < Unread(s) + Laying(s) && j - Unread(s) < |Coming(s)| ==>
          At(s, j) == Coming(s)[j - Unread(s)])
  }

  ghost predicate Inv(s: State) {
    IndexOk(s) && WriterOk(s) && DataOk(s)
  }

  /** The channel halts exactly when it has read all that it was given. */
  lemma HaltsWhenEmpty(s: State)
    requires IndexOk(s)
    ensures s.hw == s.pause <==> Unread(s) == 0
  {
  }

  lemma ChannelKeepsIndex(s: State, s': State)
    requires IndexOk(s) && WriterOk(s) && ChannelReads(s, s')
    ensures IndexOk(s') && WriterOk(s') && Unread(s') == Unread(s) - WORD && Unread(s) >= WORD
    ensures s'.hw == Slot(s.hw, WORD, s.cap)
  {
    hide Whole;
    HaltsWhenEmpty(s);
    assert |s'.taken| == |s.taken| + WORD;
    WholeWords();
    WholeSum(0, Unread(s));
    WholeSum(s.hw, s.cap);
    WholeSum(s.hw, WORD);
    WholeSum(Unread(s), WORD);
    TwoSlots(s.cap, s.hw, WORD, Unread(s) - WORD);
    if s.w.Copying? {
      TwoSlots(s.cap, s.w.seen, s.w.lag, WORD);
    }
  }

  lemma TwoSlots(cap: nat, o: nat, a: nat, b: nat)
    requires o < cap && a + b <= cap
    ensures Slot(Slot(o, a, cap), b, cap) == Slot(o, a + b, cap)
  {
  }

  lemma SnapKeeps(s: State, s': State)
    requires Inv(s) && WriterSnaps(s, s')
    ensures Inv(s')
  {
    hide Whole;
    assert Fill(s.cap, s.wp, s.hw) == Unread(s);
    assert Coming(s') == s'.w.data;
    assert IndexOk(s');
    SameBytes(s, s');
  }

  lemma CopyKeepsIndex(s: State, s': State)
    requires Inv(s) && WriterCopies(s, s')
    ensures IndexOk(s') && WriterOk(s')
  {
    hide Whole, DataOk, Slot;
  }

  lemma MoveKeepsIndex(s: State, s': State)
    requires Inv(s) && WriterMoves(s, s')
    ensures IndexOk(s') && WriterOk(s')
  {
    hide Whole, DataOk;
    MovedPosition(s.cap, s.hw, s.w.seen, s.wp, Unread(s), s.w.lag, |s.w.data|);
    WholeSum(s.wp, |s.w.data|);
    WholeSum(s.wp + |s.w.data|, s.cap);
  }

  /** The snapshot may be old: the position moves on by the data all the same, and never rests on the
      capacity. */
  lemma MovedPosition(cap: nat, hw: nat, seen: nat, wp: nat, unread: nat, lag: nat, n: nat)
    requires hw < cap && seen < cap && n > 0 && unread + lag + n <= Most(cap)
    requires hw == Slot(seen, lag, cap) && wp == Slot(hw, unread, cap)
    ensures var p := WriteMoves(cap, wp, seen, n); p >= 0 && Wrapped(cap, p, seen) == Slot(wp, n, cap)
  {
  }

  lemma PauseKeeps(s: State, s': State)
    requires Inv(s) && WriterPauses(s, s')
    ensures Inv(s')
  {
    hide Whole;
    var m, d := Unread(s), s.w.data;
    assert |s'.given| == |s.given| + |d|;
    WholeSum(m, |d|);
    TwoSlots(s.cap, s.hw, m, |d|);
    WholeWords();
    assert IndexOk(s');
    SameBytes(s, s');
    assert s'.given[..|s.taken|] == s.given[..|s.taken|];
  }

  lemma SameBytes(s: State, s': State)
    requires IndexOk(s) && IndexOk(s') && s'.cap == s.cap && s'.cells == s.cells && s'.hw == s.hw
    ensures forall j :: 0 <= j < s.cap ==> At(s', j) == At(s, j)
  {
  }

  lemma ChannelKeeps(s: State, s': State)
    requires Inv(s) && ChannelReads(s, s')
    ensures Inv(s')
  {
    hide Whole, WriterOk, Slot;
    ChannelKeepsIndex(s, s');
    var m, u := |s.taken|, Unread(s);
    WordTaken(s, s');
    assert Coming(s') == Coming(s) && Laying(s') == Laying(s);
    forall j | 0 <= j < s.cap - WORD
      ensures At(s', j) == At(s, WORD + j)
    {
      TwoSlots(s.cap, s.hw, WORD, j);
    }
    forall j | 0 <= j < Unread(s')
      ensures At(s', j) == s'.given[|s'.taken| + j]
    {
      assert At(s, WORD + j) == s.given[m + (WORD + j)];
    }
    forall j | Unread(s') <= j < Unread(s') + Laying(s') && j - Unread(s') < |Coming(s')|
      ensures At(s', j) == Coming(s')[j - Unread(s')]
    {
      assert At(s, WORD + j) == Coming(s)[WORD + j - u];
    }
  }

  /** The word the channel reads is the next one it was given. */
  lemma WordTaken(s: State, s': State)
    requires Inv(s) && ChannelReads(s, s') && IndexOk(s') && Unread(s) >= WORD
    ensures s'.taken == s'.given[..|s'.taken|]
  {
    hide Whole, WriterOk;
    var m := |s.taken|;
    var word, next := s.cells[s.hw..s.hw + WORD], s.given[m..m + WORD];
    forall i | 0 <= i < WORD
      ensures word[i] == next[i]
    {
      assert At(s, i) == s.cells[s.hw + i];
    }
    assert word == next;
    assert s.given[..m] + s.given[m..m + WORD] == s.given[..m + WORD];
  }

  lemma CopyKeeps(s: State, s': State)
    requires Inv(s) && WriterCopies(s, s')
    ensures Inv(s')
  {
    hide Whole, WriterOk, Slot;
    CopyKeepsIndex(s, s');
    var u, k := Unread(s), s.w.done;
    TwoSlots(s.cap, s.hw, u, k);
    assert Coming(s') == Coming(s) && Laying(s') == k + 1;
    forall j | 0 <= j <= u + k
      ensures At(s', j) == if j == u + k then s.w.data[k] else At(s, j)
    {
      Apart(s.cap, s.hw, j, u + k);
    }
  }

  lemma Apart(cap: nat, o: nat, i: nat, j: nat)
    requires o < cap && i <= j < cap
    ensures Slot(o, i, cap) == Slot(o, j, cap) <==> i == j
  {
  }

  lemma MoveKeeps(s: State, s': State)
    requires Inv(s) && WriterMoves(s, s')
    ensures Inv(s')
  {
    hide Whole, WriterOk, Slot;
    MoveKeepsIndex(s, s');
    SameBytes(s, s');
    assert Coming(s') == Coming(s) && Laying(s') == Laying(s);
  }

  lemma StepKeeps(s: State, s': State)
    requires Inv(s) && Next(s, s')
    ensures Inv(s')
  {
    hide Inv, ChannelReads, WriterSnaps, WriterCopies, WriterMoves, WriterPauses;
    if ChannelReads(s, s') {
      ChannelKeeps(s, s');
    } else if WriterSnaps(s, s') {
      SnapKeeps(s, s');
    } else if WriterCopies(s, s') {
      CopyKeeps(s, s');
    } else if WriterMoves(s, s') {
      MoveKeeps(s, s');
    } else {
      PauseKeeps(s, s');
    }
  }

  ghost predicate IsRun(run: seq<State>) {
    run != [] && Init(run[0]) && forall i :: 0 <= i < |run| - 1 ==> Next(run[i], run[i + 1])
  }

  /** In every interleaving, at every moment: what the channel has read is what it was given, in order
      and without loss; it stands still exactly when nothing is left; and at most the capacity less the
      gap is on its way. */
  lemma {:induction false} RunIsQueue(run: seq<State>, i: nat)
    requires IsRun(run) && i < |run|
    ensures Inv(run[i])
    ensures run[i].taken <= run[i].given
    ensures run[i].hw == run[i].pause <==> run[i].taken == run[i].given
    ensures |run[i].given| + |Coming(run[i])| <= |run[i].taken| + if run[i].cap > 4 then run[i].cap - 4 else 0
  {
    hide Next, Slot, Whole, WriterOk;
    if i > 0 {
      RunIsQueue(run, i - 1);
      StepKeeps(run[i - 1], run[i]);
    } else {
      Started(run[0]);
    }
    HaltsWhenEmpty(run[i]);
  }

  lemma Started(s: State)
    requires Init(s)
    ensures Inv(s)
  {
  }

  /** The two sizes, for the channel's position at the moment of the call. */
  lemma SizesAreRight(s: State)
    requires Inv(s) && s.w == Idle
    ensures Fill(s.cap, s.wp, s.hw) == Unread(s)
    ensures Free(s.cap, s.wp, s.hw) == (if s.cap > 4 then s.cap - 4 else 0) - Unread(s)
  {
  }

  /** Clearing the ring (`rb_clear_dma_read`) forgets the unread bytes, but not where the channel
      stands. */
  function Cleared(s: State): State {
    s.(wp := 0, pause := 0, w := Idle, given := s.taken)
  }

  /** A clear leaves an empty ring exactly when the channel stands at the start. */
  lemma ClearNeedsStart(s: State)
    requires Inv(s) && s.w == Idle
    ensures Inv(Cleared(s)) <==> s.hw == 0
  {
    WholeWords();
  }

  // ------------------------------------------------------------------------------------------------
  // The code.  `src` is what the channel reports as its read address, less the start of the ring.

  class RbDmaRead {
    const address: array<bv8>
    const capacity: nat
    var wp: nat
    var rp: nat
    var pause: nat

    ghost predicate Valid()
      reads this
    {
      0 < capacity == address.Length < WRAP && wp < capacity
    }

    constructor (addr: array<bv8>)
      requires 0 < addr.Length < WRAP
      ensures Valid() && wp == rp == pause == 0 && address == addr
    {
      address := addr;
      capacity := addr.Length;
      wp, rp, pause := 0, 0, 0;
    }

    method Clear()
      requires Valid()
      modifies this
      ensures Valid() && wp == rp == pause == 0
    {
      wp, rp := 0, 0;
      pause := wp;
    }

    method CopyIn(at: nat, d: seq<bv8>)
      requires at + |d| <= address.Length
      modifies address
      ensures address[..] == Laid(old(address[..]), at, d)
    {
      forall i | 0 <= i < |d| { address[at + i] := d[i]; }
    }

    /** `rb_write_dma_read`: the write of the protocol above for the position the channel reports.  Only
        a write that is done moves the pause address, and then to the write position. */
    method Write(buffer: seq<bv8>, size: nat, count: nat, src: nat) returns (writeBytes: nat)
      requires Valid() && U32(size * count) == |buffer| < WRAP - RWP_SAFE_INTERVAL && src < capacity
      modifies this, address
      ensures Valid() && (if buffer == [] then rp == old(rp) else rp == src)
      ensures if WriteFits(capacity, old(wp), src, |buffer|)
              then writeBytes == |buffer| && pause == wp
                   && wp == Wrapped(capacity, WriteMoves(capacity, old(wp), src, |buffer|), src)
                   && Written(old(address[..]), address[..], old(wp), buffer)
              else writeBytes == 0 && pause == old(pause) && wp == old(wp) && address[..] == old(address[..])
      ensures forall s: State :: Inv(s) && s.w == Idle && old(Shows(s, src)) ==>
                writeBytes == if |s.given| - |s.taken| + |buffer| + 4 <= capacity then |buffer| else 0
    {
      hide U32, Laid, Written;
      WrapFree(|buffer|);
      ghost var b, off := address[..], wp;
      writeBytes := U32(size * count);
      if writeBytes == 0 {
        return 0;
      }
      rp := src;
      var remainBytes;
      if wp >= src {
        remainBytes := capacity - wp + src;
        if remainBytes >= U32(writeBytes + RWP_SAFE_INTERVAL) {
          remainBytes := capacity - wp;
          if remainBytes >= writeBytes {
            LaidIsWritten(b, off, buffer);
            CopyIn(wp, buffer);
            wp := wp + writeBytes;
          } else {
            LaidAround(b, off, buffer);
            CopyIn(wp, buffer[..remainBytes]);
            wp := writeBytes - remainBytes;
            CopyIn(0, buffer[remainBytes..]);
          }
        } else {
          return 0;
        }
      } else {
        remainBytes := src - wp;
        if remainBytes >= U32(writeBytes + RWP_SAFE_INTERVAL) {
          LaidIsWritten(b, off, buffer);
          CopyIn(wp, buffer);
          wp := wp + writeBytes;
        } else {
          return 0;
        }
      }
      if wp >= capacity && rp != 0 {
        wp := 0;
      }
      pause := wp;
    }

    /** The machine's state is this ring's, with the channel at `src`. */
    predicate Shows(s: State, src: nat)
      reads this
    {
      s.cap == capacity && s.hw == src && s.wp == wp
    }

    method GetFillSize(src: nat) returns (n: int)
      requires Valid() && src < capacity
      modifies this`rp
      ensures rp == src && n == Fill(capacity, wp, src)
      ensures Positions(capacity, wp, src) ==> n + Free(capacity, wp, src) == Most(capacity)
      ensures forall s: State :: Inv(s) && s.w == Idle && Shows(s, src) ==> n == Unread(s)
    {
      hide Inv;
      forall s: State | Inv(s) && s.w == Idle && Shows(s, src)
        ensures Fill(capacity, wp, src) == Unread(s)
      {
        SizesAreRight(s);
      }
      rp := src;
      n := if wp >= rp then wp - rp else capacity - rp + wp;
    }

    method GetFreeSize(src: nat) returns (n: int)
      requires Valid() && src < capacity
      modifies this`rp
      ensures rp == src && n == Free(capacity, wp, src)
      ensures Positions(capacity, wp, src) ==> Fill(capacity, wp, src) + n == Most(capacity)
      ensures forall s: State :: Inv(s) && s.w == Idle && Shows(s, src) ==>
                Unread(s) + n == if capacity > 4 then capacity - 4 else 0
    {
      hide Inv;
      forall s: State | Inv(s) && s.w == Idle && Shows(s, src)
        ensures Free(capacity, wp, src) == Most(capacity) - Unread(s)
      {
        SizesAreRight(s);
      }
      rp := src;
      var freeSize := if wp >= rp then capacity - wp + rp else rp - wp;
      n := if freeSize > RWP_SAFE_INTERVAL then freeSize - RWP_SAFE_INTERVAL else 0;
    }
  }
}

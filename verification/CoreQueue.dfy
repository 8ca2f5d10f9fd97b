/** The message queue of the WiFi core thread (beken378/app/app.c): any number of senders, one thread that
    takes the messages out.  The counter of receive messages throttles one kind of sender; a transmit
    message owns a reference of its packet buffer, a raw one owns its payload. */
module CoreQueue {

  const CORE_QITEM_COUNT := 64
  const RX_LIMIT := 2

  /** Packet buffers and raw payloads are named by numbers. */
  datatype Msg = Rx | Tx(p: nat) | TxRaw(b: nat) | Other

  /** The core thread between two messages, with a message, or with a transmitted buffer to release. */
  datatype Core = Waiting | Has(m: Msg) | Releasing(q: nat)

  /** `refs` counts the references of every packet buffer, `live` the raw payloads not yet freed.  The
      history variables say who holds them: the senders' callers (`caller`, `raws`) and the senders that
      have not pushed yet (`rxFlying`, `txFlying`, `rawFlying`).  `leaked` counts receive messages that
      were counted and then not pushed. */
  datatype State = State(queue: seq<Msg>, count: int, refs: multiset<nat>, live: multiset<nat>, core: Core,
                         rxFlying: nat, leaked: nat, txFlying: multiset<nat>, caller: multiset<nat>,
                         rawFlying: multiset<nat>, raws: multiset<nat>)

  ghost predicate Init(s: State) {
    && s.queue == [] && s.count == 0 && s.core == Waiting && s.rxFlying == s.leaked == 0
    && s.refs == s.caller && s.live == s.raws && s.txFlying == s.rawFlying == multiset{}
  }

  predicate Full(s: State) {
    |s.queue| >= CORE_QITEM_COUNT
  }

  // ------------------------------------------------------------------------------------------------
  // The atomic steps.  Within each the interrupts are off, or it is one operation of the kernel.  A push
  // that waits is a push that comes later; it fails when it finds the queue full at the end of its wait.

  /** A receive sender passes the counter, unless two messages are counted. */
  ghost predicate RxEnters(s: State, s': State) {
    s' == if s.count >= RX_LIMIT then s else s.(count := s.count + 1, rxFlying := s.rxFlying + 1)
  }

  ghost predicate RxPushes(s: State, s': State) {
    s.rxFlying > 0 &&
    s' == if Full(s) then s.(rxFlying := s.rxFlying - 1, leaked := s.leaked + 1)
          else s.(rxFlying := s.rxFlying - 1, queue := s.queue + [Rx])
  }

  ghost predicate TxEnters(s: State, s': State, p: nat) {
    p in s.caller && s' == s.(refs := s.refs + multiset{p}, txFlying := s.txFlying + multiset{p})
  }

  ghost predicate TxPushes(s: State, s': State, p: nat) {
    p in s.txFlying &&
    s' == if Full(s) then s.(txFlying := s.txFlying - multiset{p}, refs := s.refs - multiset{p})
          else s.(txFlying := s.txFlying - multiset{p}, queue := s.queue + [Tx(p)])
  }

  ghost predicate RawEnters(s: State, s': State, b: nat) {
    b in s.raws && s' == s.(raws := s.raws - multiset{b}, rawFlying := s.rawFlying + multiset{b})
  }

  ghost predicate RawPushes(s: State, s': State, b: nat) {
    b in s.rawFlying &&
    s' == if Full(s) then s.(rawFlying := s.rawFlying - multiset{b}, live := s.live - multiset{b})
          else s.(rawFlying := s.rawFlying - multiset{b}, queue := s.queue + [TxRaw(b)])
  }

  ghost predicate OtherPushes(s: State, s': State) {
    s' == if Full(s) then s else s.(queue := s.queue + [Other])
  }

  /** What the callers do on their own: new buffers and payloads, and references given up. */
  ghost predicate CallerMakes(s: State, s': State, p: nat) {
    p !in s.refs && s' == s.(refs := s.refs + multiset{p}, caller := s.caller + multiset{p})
  }

  ghost predicate CallerDrops(s: State, s': State, p: nat) {
    p in s.caller && s' == s.(refs := s.refs - multiset{p}, caller := s.caller - multiset{p})
  }

  ghost predicate RawMakes(s: State, s': State, b: nat) {
    b !in s.live && s' == s.(live := s.live + multiset{b}, raws := s.raws + multiset{b})
  }

  ghost predicate CorePops(s: State, s': State) {
    s.core == Waiting && s.queue != [] && s' == s.(core := Has(s.queue[0]), queue := s.queue[1..])
  }

  ghost predicate CoreHandlesRx(s: State, s': State) {
    s.core == Has(Rx) && s' == s.(count := if s.count > 0 then s.count - 1 else s.count, core := Waiting)
  }

  /** A chain is made one buffer `q` if memory allows, which takes the place of the message's reference;
      otherwise, and without a chain, the message's own buffer is released. */
  ghost predicate CoreCoalesces(s: State, s': State, q: nat) {
    && s.core.Has? && s.core.m.Tx?
    && var p := s.core.m.p;
       || (q == p && s' == s.(core := Releasing(p)))
       || (q !in s.refs && s' == s.(refs := s.refs + multiset{q} - multiset{p}, core := Releasing(q)))
  }

  ghost predicate CoreReleases(s: State, s': State) {
    s.core.Releasing? && s' == s.(refs := s.refs - multiset{s.core.q}, core := Waiting)
  }

  /** A raw payload is freed whether or not a node and a descriptor were found for it. */
  ghost predicate CoreHandlesRaw(s: State, s': State) {
    s.core.Has? && s.core.m.TxRaw? && s' == s.(live := s.live - multiset{s.core.m.b}, core := Waiting)
  }

  ghost predicate CoreHandlesOther(s: State, s': State) {
    s.core == Has(Other) && s' == s.(core := Waiting)
  }

  ghost predicate Next(s: State, s': State) {
    || RxEnters(s, s') || RxPushes(s, s') || OtherPushes(s, s') || CorePops(s, s') || CoreHandlesRx(s, s')
    || CoreReleases(s, s') || CoreHandlesRaw(s, s') || CoreHandlesOther(s, s') || Named(s, s')
  }

  /** The steps about one buffer or payload. */
  ghost predicate Named(s: State, s': State) {
    exists x: nat :: About(s, s', x)
  }

  ghost predicate About(s: State, s': State, x: nat) {
    || TxEnters(s, s', x) || TxPushes(s, s', x) || RawEnters(s, s', x) || RawPushes(s, s', x)
    || CallerMakes(s, s', x) || CallerDrops(s, s', x) || RawMakes(s, s', x) || CoreCoalesces(s, s', x)
  }

  // ------------------------------------------------------------------------------------------------
  // What every interleaving keeps.

  function Ones(b: bool): nat {
    if b then 1 else 0
  }

  /** The messages of one kind that are queued or in the core thread's hands. */
  function Held(s: State, m: Msg): nat {
    multiset(s.queue)[m] + Ones(s.core == Has(m))
  }

  /** Every counted message is queued, being handled, about to be pushed, or was lost at the push. */
  ghost predicate Counted(s: State) {
    s.count == Held(s, Rx) + s.rxFlying + s.leaked && s.count <= RX_LIMIT && |s.queue| <= CORE_QITEM_COUNT
  }

  /** Every reference is held by a caller, a sender, a message, or the core thread. */
  ghost predicate Owned(s: State) {
    forall p: nat :: OwnedOnce(s, p)
  }

  ghost predicate OwnedOnce(s: State, p: nat) {
    s.refs[p] == s.caller[p] + s.txFlying[p] + Held(s, Tx(p)) + Ones(s.core == Releasing(p))
  }

  ghost predicate Kept(s: State) {
    forall b: nat :: KeptOnce(s, b)
  }

  /** Every live payload is with its caller, a sender, a message, or the core thread. */
  ghost predicate KeptOnce(s: State, b: nat) {
    s.live[b] == s.raws[b] + s.rawFlying[b] + Held(s, TxRaw(b))
  }

  ghost predicate Inv(s: State) {
    Counted(s) && Owned(s) && Kept(s)
  }

  lemma Pushed(s: State, s': State, m: Msg)
    requires s'.queue == s.queue + [m] && s'.core == s.core
    ensures forall x: Msg :: Held(s', x) == Held(s, x) + Ones(x == m)
  {
  }

  lemma Popped(s: State, s': State)
    requires CorePops(s, s')
    ensures forall x: Msg :: Held(s', x) == Held(s, x)
  {
    assert s.queue == [s.queue[0]] + s.queue[1..];
  }

  lemma Handled(s: State, s': State)
    requires s.core.Has? && !s'.core.Has? && s'.queue == s.queue
    ensures forall x: Msg :: Held(s', x) == Held(s, x) - Ones(x == s.core.m)
  {
  }

  lemma SamePlaces(s: State, s': State)
    requires s'.queue == s.queue && (s'.core == s.core || (!s.core.Has? && !s'.core.Has?))
    ensures forall x: Msg :: Held(s', x) == Held(s, x)
  {
  }

  /** A step that leaves the references, the payloads and their holders alone. */
  lemma OwnersStay(s: State, s': State)
    requires Owned(s) && Kept(s) && (forall x: Msg :: x != Rx && x != Other ==> Held(s', x) == Held(s, x))
    requires s'.refs == s.refs && s'.caller == s.caller && s'.txFlying == s.txFlying
    requires s'.live == s.live && s'.raws == s.raws && s'.rawFlying == s.rawFlying
    requires forall p: nat :: s'.core == Releasing(p) <==> s.core == Releasing(p)
    ensures Owned(s') && Kept(s')
  {
    hide Held;
    forall x: nat
      ensures OwnedOnce(s', x) && KeptOnce(s', x)
    {
      assert OwnedOnce(s, x) && KeptOnce(s, x);
    }
  }

  lemma SenderKeeps(s: State, s': State)
    requires Inv(s) && (RxEnters(s, s') || RxPushes(s, s') || OtherPushes(s, s'))
    ensures Inv(s')
  {
    hide Held, Owned, Kept;
    if s'.queue == s.queue {
      SamePlaces(s, s');
    } else {
      Pushed(s, s', if RxPushes(s, s') then Rx else Other);
    }
    OwnersStay(s, s');
  }

  lemma NamedKeeps(s: State, s': State)
    requires Inv(s) && Named(s, s')
    ensures Inv(s')
  {
    hide Held, Inv, TxEnters, TxPushes, RawEnters, RawPushes, CallerMakes, CallerDrops, RawMakes, CoreCoalesces;
    var x: nat :| About(s, s', x);
    if TxEnters(s, s', x) || CallerMakes(s, s', x) || CallerDrops(s, s', x) {
      HolderKeeps(s, s', x);
    } else if RawEnters(s, s', x) || RawMakes(s, s', x) {
      RawHolderKeeps(s, s', x);
    } else if TxPushes(s, s', x) {
      TxPushKeeps(s, s', x);
    } else if RawPushes(s, s', x) {
      RawPushKeeps(s, s', x);
    } else {
      CoalesceKeeps(s, s', x);
    }
  }

  lemma HolderKeeps(s: State, s': State, p: nat)
    requires Inv(s) && (TxEnters(s, s', p) || CallerMakes(s, s', p) || CallerDrops(s, s', p))
    ensures Inv(s')
  {
    hide Held, Owned, Kept;
    SamePlaces(s, s');
    PayloadsStay(s, s');
    forall x: nat
      ensures OwnedOnce(s', x)
    {
      assert OwnedOnce(s, x) by { OwnedAt(s, x); }
    }
    assert Owned(s') by { OwnedIf(s'); }
  }

  lemma OwnedAt(s: State, p: nat)
    requires Owned(s)
    ensures OwnedOnce(s, p)
  {
  }

  lemma KeptAt(s: State, b: nat)
    requires Kept(s)
    ensures KeptOnce(s, b)
  {
  }

  lemma OwnedIf(s: State)
    requires forall p: nat :: OwnedOnce(s, p)
    ensures Owned(s)
  {
  }

  lemma KeptIf(s: State)
    requires forall b: nat :: KeptOnce(s, b)
    ensures Kept(s)
  {
  }

  lemma PayloadsStay(s: State, s': State)
    requires Kept(s) && s'.live == s.live && s'.raws == s.raws && s'.rawFlying == s.rawFlying
    requires forall b: nat :: Held(s', TxRaw(b)) == Held(s, TxRaw(b))
    ensures Kept(s')
  {
    hide Held;
    forall b: nat
      ensures KeptOnce(s', b)
    {
      assert KeptOnce(s, b);
    }
  }

  lemma ReferencesStay(s: State, s': State)
    requires Owned(s) && s'.refs == s.refs && s'.caller == s.caller && s'.txFlying == s.txFlying
    requires forall p: nat :: Held(s', Tx(p)) == Held(s, Tx(p))
    requires forall p: nat :: s'.core == Releasing(p) <==> s.core == Releasing(p)
    ensures Owned(s')
  {
    hide Held;
    forall p: nat
      ensures OwnedOnce(s', p)
    {
      assert OwnedOnce(s, p);
    }
  }

  lemma RawHolderKeeps(s: State, s': State, b: nat)
    requires Inv(s) && (RawEnters(s, s', b) || RawMakes(s, s', b))
    ensures Inv(s')
  {
    hide Held, Owned, Kept;
    SamePlaces(s, s');
    ReferencesStay(s, s');
    forall x: nat
      ensures KeptOnce(s', x)
    {
      KeptAt(s, x);
    }
    KeptIf(s');
  }

  lemma TxPushKeeps(s: State, s': State, p: nat)
    requires Inv(s) && TxPushes(s, s', p)
    ensures Inv(s')
  {
    hide Held, Owned, Kept;
    if Full(s) {
      SamePlaces(s, s');
    } else {
      Pushed(s, s', Tx(p));
    }
    PayloadsStay(s, s');
    forall x: nat
      ensures OwnedOnce(s', x)
    {
      OwnedAt(s, x);
    }
    OwnedIf(s');
  }

  lemma RawPushKeeps(s: State, s': State, b: nat)
    requires Inv(s) && RawPushes(s, s', b)
    ensures Inv(s')
  {
    hide Held, Owned, Kept;
    if Full(s) {
      SamePlaces(s, s');
    } else {
      Pushed(s, s', TxRaw(b));
    }
    ReferencesStay(s, s');
    forall x: nat
      ensures KeptOnce(s', x)
    {
      KeptAt(s, x);
    }
    KeptIf(s');
  }

  lemma CoalesceKeeps(s: State, s': State, q: nat)
    requires Inv(s) && CoreCoalesces(s, s', q)
    ensures Inv(s')
  {
    hide Held, Owned, Kept;
    Handled(s, s');
    PayloadsStay(s, s');
    forall x: nat
      ensures OwnedOnce(s', x)
    {
      OwnedAt(s, x);
    }
    OwnedIf(s');
  }

  lemma ReleaseKeeps(s: State, s': State)
    requires Inv(s) && CoreReleases(s, s')
    ensures Inv(s')
  {
    hide Held, Owned, Kept;
    SamePlaces(s, s');
    PayloadsStay(s, s');
    forall x: nat
      ensures OwnedOnce(s', x)
    {
      OwnedAt(s, x);
    }
    OwnedIf(s');
  }

  lemma RawKeeps(s: State, s': State)
    requires Inv(s) && CoreHandlesRaw(s, s')
    ensures Inv(s')
  {
    hide Held, Owned, Kept;
    Handled(s, s');
    ReferencesStay(s, s');
    forall x: nat
      ensures KeptOnce(s', x)
    {
      KeptAt(s, x);
    }
    KeptIf(s');
  }

  lemma CoreKeeps(s: State, s': State)
    requires Inv(s) && (CorePops(s, s') || CoreHandlesRx(s, s') || CoreHandlesOther(s, s'))
    ensures Inv(s')
  {
    hide Held, Owned, Kept;
    if CorePops(s, s') {
      Popped(s, s');
    } else {
      Handled(s, s');
      assert CoreHandlesRx(s, s') ==> Held(s, Rx) > 0 by { InHand(s); }
    }
    OwnersStay(s, s');
  }

  lemma InHand(s: State)
    requires s.core.Has?
    ensures Held(s, s.core.m) > 0
  {
  }

  lemma StepKeeps(s: State, s': State)
    requires Inv(s) && Next(s, s')
    ensures Inv(s') && s'.leaked >= s.leaked
  {
    hide Inv, Named;
    if Named(s, s') {
      NamedKeeps(s, s');
      NamedLeaksNothing(s, s');
    } else if RxEnters(s, s') || RxPushes(s, s') || OtherPushes(s, s') {
      SenderKeeps(s, s');
    } else if CoreReleases(s, s') {
      ReleaseKeeps(s, s');
    } else if CoreHandlesRaw(s, s') {
      RawKeeps(s, s');
    } else {
      CoreKeeps(s, s');
    }
  }

  lemma NamedLeaksNothing(s: State, s': State)
    requires Named(s, s')
    ensures s'.leaked == s.leaked
  {
  }

  ghost predicate Steps(run: seq<State>) {
    run != [] && forall i :: 0 <= i < |run| - 1 ==> Next(run[i], run[i + 1])
  }

  ghost predicate IsRun(run: seq<State>) {
    Steps(run) && Init(run[0])
  }

  /** In every interleaving of senders, callers and the core thread: queued, handled and unpushed receive
      messages are at most as many as are counted, and at most two; every queued buffer has a reference
      of its own and every queued payload is live. */
  lemma {:induction false} RunIsSafe(run: seq<State>, i: nat)
    requires IsRun(run) && i < |run|
    ensures Inv(run[i])
    ensures Held(run[i], Rx) + run[i].rxFlying <= run[i].count <= 2 && |run[i].queue| <= 64
    ensures run[i].leaked == 0 ==> Held(run[i], Rx) + run[i].rxFlying == run[i].count
    ensures forall p: nat :: multiset(run[i].queue)[Tx(p)] <= run[i].refs[p]
    ensures forall b: nat :: multiset(run[i].queue)[TxRaw(b)] <= run[i].live[b]
  {
    hide Next;
    if i > 0 {
      RunIsSafe(run, i - 1);
      StepKeeps(run[i - 1], run[i]);
    } else {
      Begun(run[0]);
    }
    forall x: nat
      ensures multiset(run[i].queue)[Tx(x)] <= run[i].refs[x] && multiset(run[i].queue)[TxRaw(x)] <= run[i].live[x]
    {
      OwnedAt(run[i], x);
      KeptAt(run[i], x);
    }
  }

  lemma Begun(s: State)
    requires Init(s)
    ensures Inv(s)
  {
  }

  /** Whatever is released is there to be released: nothing is freed twice. */
  lemma ReleasesAreReal(s: State)
    requires Inv(s)
    ensures s.core.Releasing? ==> s.core.q in s.refs
    ensures s.core.Has? && s.core.m.Tx? ==> s.core.m.p in s.refs
    ensures s.core.Has? && s.core.m.TxRaw? ==> s.core.m.b in s.live
    ensures forall x: nat :: x in s.txFlying ==> x in s.refs
    ensures forall x: nat :: x in s.rawFlying ==> x in s.live
    ensures s.core == Has(Rx) ==> s.count > 0
  {
    hide Owned, Kept;
    if s.core.Releasing? {
      OwnedAt(s, s.core.q);
    }
    if s.core.Has? && s.core.m.Tx? {
      OwnedAt(s, s.core.m.p);
    }
    if s.core.Has? && s.core.m.TxRaw? {
      KeptAt(s, s.core.m.b);
    }
    forall x: nat
      ensures (x in s.txFlying ==> x in s.refs) && (x in s.rawFlying ==> x in s.live)
    {
      OwnedAt(s, x);
      KeptAt(s, x);
    }
  }

  /** Once everything pushed has been handled, every reference the messages took has been given back and
      every payload freed: only what the callers hold is left. */
  lemma NothingLeft(s: State)
    requires Inv(s) && s.queue == [] && s.core == Waiting && s.txFlying == s.rawFlying == multiset{}
    ensures s.refs == s.caller && s.live == s.raws
    ensures s.rxFlying == 0 ==> s.count == s.leaked
  {
    hide Owned, Kept;
    forall x: nat
      ensures s.refs[x] == s.caller[x] && s.live[x] == s.raws[x]
    {
      OwnedAt(s, x);
      KeptAt(s, x);
    }
  }

  // ------------------------------------------------------------------------------------------------
  // The counter is not taken back when a push fails.

  lemma FullQueueLeaks(s: State, s': State, s'': State)
    requires Inv(s) && Full(s) && s.count < RX_LIMIT && RxEnters(s, s') && RxPushes(s', s'')
    ensures s''.leaked == s.leaked + 1 && s''.count == s.count + 1 && s''.queue == s.queue
  {
  }

  /** After two failed pushes no receive message is ever queued or handled again: the sender returns
      without a trace from then on. */
  lemma {:induction false} Starved(run: seq<State>, i: nat, j: nat)
    requires IsRun(run) && i <= j < |run| && run[i].leaked >= 2
    ensures run[j].leaked == 2 == run[j].count && Held(run[j], Rx) == 0 && run[j].rxFlying == 0
    ensures forall s': State :: RxEnters(run[j], s') ==> s' == run[j]
  {
    hide Next, Owned, Kept;
    RunIsSafe(run, j);
    if j > 0 {
      RunIsSafe(run, j - 1);
    }
    if i < j {
      Starved(run, i, j - 1);
      StepKeeps(run[j - 1], run[j]);
    }
  }

  /** The counter comes back to 0 with the queue empty exactly as long as no push has failed. */
  lemma CounterComesBack(s: State)
    requires Inv(s) && Held(s, Rx) == 0 && s.rxFlying == 0
    ensures s.count == 0 <==> s.leaked == 0
  {
  }

  function Filling(i: nat): State {
    State(seq(i, _ => Other), 0, multiset{}, multiset{}, Waiting, 0, 0, multiset{}, multiset{}, multiset{}, multiset{})
  }

  function Leaking(): (run: seq<State>)
    ensures |run| == 4
  {
    var f := Filling(CORE_QITEM_COUNT);
    [f.(count := 1, rxFlying := 1), f.(count := 1, leaked := 1), f.(count := 2, leaked := 1, rxFlying := 1),
     f.(count := 2, leaked := 2)]
  }

  /** A queue full of other messages and two receive messages are enough. */
  lemma StarvationIsReachable()
    ensures exists run: seq<State>, i: nat :: IsRun(run) && i < |run| && run[i].leaked == 2
  {
    var fill := seq(CORE_QITEM_COUNT + 1, i requires 0 <= i => Filling(i));
    var run := fill + Leaking();
    forall i | 0 <= i < |run| - 1
      ensures Next(run[i], run[i + 1])
    {
      if i < CORE_QITEM_COUNT {
        assert Filling(i).queue + [Other] == Filling(i + 1).queue;
        assert OtherPushes(run[i], run[i + 1]);
      } else if i == CORE_QITEM_COUNT || i == CORE_QITEM_COUNT + 2 {
        assert RxEnters(run[i], run[i + 1]);
      } else {
        assert RxPushes(run[i], run[i + 1]);
      }
    }
    assert IsRun(run) && run[CORE_QITEM_COUNT + 4].leaked == RX_LIMIT;
  }

  /** Coalescing and releasing together give back exactly the message's reference, on every path. */
  lemma OneReferenceEach(s: State, s': State, s'': State, q: nat)
    requires Inv(s) && CoreCoalesces(s, s', q) && CoreReleases(s', s'')
    ensures s''.refs == s.refs - multiset{s.core.m.p} && s''.core == Waiting
  {
    ReleasesAreReal(s);
  }

  // ------------------------------------------------------------------------------------------------
  // The code, call by call.

  class WifiCore {
    var ioQueue: seq<Msg>
    var bmsgRxCount: int
    var refs: multiset<nat>
    var live: multiset<nat>
    var nodes: nat
    var txList: nat

    constructor ()
      ensures ioQueue == [] && bmsgRxCount == 0 && refs == live == multiset{} && nodes == txList == 0
    {
      ioQueue, bmsgRxCount := [], 0;
      refs, live := multiset{}, multiset{};
      nodes, txList := 0, 0;
    }

    /** `rtos_push_to_queue`. */
    method PushToQueue(msg: Msg) returns (ok: bool)
      modifies this`ioQueue
      ensures ok == (|old(ioQueue)| < 64)
      ensures ioQueue == if ok then old(ioQueue) + [msg] else old(ioQueue)
    {
      ok := |ioQueue| < CORE_QITEM_COUNT;
      if ok {
        ioQueue := ioQueue + [msg];
      }
    }

    /** What the code holds of the machine's state. */
    predicate Shows(s: State)
      reads this
    {
      ioQueue == s.queue && bmsgRxCount == s.count && refs == s.refs && live == s.live
    }

    /** `bmsg_rx_sender`, left alone: the two steps of a receive sender.  The count goes up even where the
        push fails. */
    method RxSender(ghost s: State) returns (ghost mid: State, ghost end: State)
      requires Shows(s)
      modifies this`ioQueue, this`bmsgRxCount
      ensures RxEnters(s, mid) && Shows(end) && (if mid == s then end == s else RxPushes(mid, end))
      ensures old(bmsgRxCount) >= 2 ==> bmsgRxCount == old(bmsgRxCount) && ioQueue == old(ioQueue)
      ensures old(bmsgRxCount) < 2 ==>
                && bmsgRxCount == old(bmsgRxCount) + 1
                && ioQueue == if |old(ioQueue)| < 64 then old(ioQueue) + [Rx] else old(ioQueue)
    {
      mid, end := s, s;
      if bmsgRxCount >= RX_LIMIT {
        return;
      }
      bmsgRxCount := bmsgRxCount + 1;
      mid := s.(count := s.count + 1, rxFlying := s.rxFlying + 1);
      var ok := PushToQueue(Rx);
      end := mid.(rxFlying := s.rxFlying, leaked := if ok then s.leaked else s.leaked + 1, queue := ioQueue);
    }

    /** `bmsg_tx_sender`, left alone: the two steps of a transmit sender, whose caller holds the buffer.
        The reference taken is in the queue, or given back. */
    method TxSender(p: nat, ghost s: State) returns (ok: bool, ghost mid: State, ghost end: State)
      requires Shows(s) && p in s.caller
      modifies this`ioQueue, this`refs
      ensures TxEnters(s, mid, p) && TxPushes(mid, end, p) && Shows(end)
      ensures ok == (|old(ioQueue)| < 64)
      ensures ioQueue == old(ioQueue) + (if ok then [Tx(p)] else [])
      ensures refs == old(refs) + (if ok then multiset{p} else multiset{})
    {
      refs := refs + multiset{p};
      mid := s.(refs := refs, txFlying := s.txFlying + multiset{p});
      ok := PushToQueue(Tx(p));
      if !ok {
        refs := refs - multiset{p};
      }
      end := mid.(refs := refs, queue := ioQueue, txFlying := mid.txFlying - multiset{p});
    }

    /** `bmsg_tx_raw_sender`, left alone: the two steps of a raw sender, to whom the payload is given.  It
        is in the queue, or freed. */
    method TxRawSender(b: nat, ghost s: State) returns (ok: bool, ghost mid: State, ghost end: State)
      requires Shows(s) && b in s.raws
      modifies this`ioQueue, this`live
      ensures RawEnters(s, mid, b) && RawPushes(mid, end, b) && Shows(end)
      ensures ok == (|old(ioQueue)| < 64)
      ensures ioQueue == old(ioQueue) + (if ok then [TxRaw(b)] else [])
      ensures live == old(live) - (if ok then multiset{} else multiset{b})
    {
      mid := s.(raws := s.raws - multiset{b}, rawFlying := s.rawFlying + multiset{b});
      ok := PushToQueue(TxRaw(b));
      if !ok {
        live := live - multiset{b};
      }
      end := mid.(live := live, queue := ioQueue, rawFlying := mid.rawFlying - multiset{b});
    }

    method RxHandler(ghost s: State) returns (ghost end: State)
      requires Shows(s) && s.core == Has(Rx)
      modifies this`bmsgRxCount
      ensures CoreHandlesRx(s, end) && Shows(end) && end.core == Waiting
      ensures bmsgRxCount == if old(bmsgRxCount) > 0 then old(bmsgRxCount) - 1 else old(bmsgRxCount)
    {
      if bmsgRxCount > 0 {
        bmsgRxCount := bmsgRxCount - 1;
      }
      end := s.(count := bmsgRxCount, core := Waiting);
    }

    /** `pbuf_coalesce`: one buffer in place of the chain, if there is memory. */
    method Coalesce(p: nat, memory: bool, spare: nat) returns (q: nat)
      requires p in refs && spare !in refs
      modifies this`refs
      ensures q == if memory then spare else p
      ensures refs == if memory then old(refs) + multiset{q} - multiset{p} else old(refs)
    {
      q := p;
      if memory {
        q := spare;
        refs := refs + multiset{q} - multiset{p};
      }
    }

    /** `bmsg_tx_handler`: the two steps of the core thread for a transmit message.  Exactly one reference
        of the message's buffer is given back on every path, and a coalesced buffer does not outlive the
        call. */
    method TxHandler(p: nat, chained: bool, memory: bool, spare: nat, ghost s: State)
      returns (sent: bool, ghost mid: State, ghost end: State)
      requires Shows(s) && s.core == Has(Tx(p)) && p in refs && spare !in refs
      modifies this`refs
      ensures CoreCoalesces(s, mid, if chained && memory then spare else p) && CoreReleases(mid, end) && Shows(end)
      ensures end.core == Waiting && mid.core != Waiting
      ensures refs == old(refs) - multiset{p} && sent == (!chained || memory)
    {
      PutAndTake(refs, p, spare);
      var q := p;
      sent := true;
      if chained {
        q := Coalesce(p, memory, spare);
        if q == p {
          sent := false;
        }
      }
      mid := s.(refs := if chained && memory then refs else s.refs, core := Releasing(q));
      refs := refs - multiset{q};
      end := mid.(refs := refs, core := Waiting);
    }

    /** `bmsg_tx_raw_handler`: the payload is freed on every path; a node is handed on or freed. */
    method TxRawHandler(b: nat, memory: bool, descriptor: bool, ghost s: State) returns (sent: bool, ghost end: State)
      requires Shows(s) && s.core == Has(TxRaw(b)) && b in live
      modifies this`live, this`nodes, this`txList
      ensures CoreHandlesRaw(s, end) && Shows(end) && end.core == Waiting
      ensures live == old(live) - multiset{b} && nodes == old(nodes)
      ensures sent == (memory && descriptor) && txList == old(txList) + (if sent then 1 else 0)
    {
      sent := false;
      if memory {
        nodes := nodes + 1;
        if !descriptor {
          nodes := nodes - 1;
        } else {
          nodes, txList := nodes - 1, txList + 1;
          sent := true;
        }
      }
      live := live - multiset{b};
      end := s.(live := live, core := Waiting);
    }

    /** One round of `core_thread_main`, left alone: a run of the machine that takes one message and ends
        waiting, with what the message owned released.  `chained`, `memory`, `descriptor` and `spare` are
        what the handlers find. */
    method Round(chained: bool, memory: bool, descriptor: bool, spare: nat, ghost s: State) returns (ghost run: seq<State>)
      requires Inv(s) && Shows(s) && s.core == Waiting && ioQueue != [] && spare !in refs
      modifies this
      ensures Steps(run) && run[0] == s
      ensures var end := run[|run| - 1]; Inv(end) && Shows(end) && end.core == Waiting && end.queue == s.queue[1..]
      ensures ioQueue == old(ioQueue)[1..]
      ensures bmsgRxCount == old(bmsgRxCount) - (if old(ioQueue)[0] == Rx then 1 else 0)
      ensures match old(ioQueue)[0]
              case Tx(p) => refs == old(refs) - multiset{p} && live == old(live)
              case TxRaw(b) => refs == old(refs) && live == old(live) - multiset{b}
              case _ => refs == old(refs) && live == old(live)
    {
      hide Inv, Named, Steps, CoreHandlesRx, CoreCoalesces, CoreReleases, CoreHandlesRaw;
      var msg := ioQueue[0];
      ioQueue := ioQueue[1..];
      ghost var has := s.(core := Has(msg), queue := ioQueue);
      assert CorePops(s, has);
      StepKeeps(s, has);
      ReleasesAreReal(has);
      ghost var end;
      match msg
      case Rx =>
        end := RxHandler(has);
        StepKeeps(has, end);
        TwoSteps(s, has, end);
        run := [s, has, end];
      case Tx(p) =>
        var sent;
        ghost var mid;
        sent, mid, end := TxHandler(p, chained, memory, spare, has);
        Coalesced(has, mid, if chained && memory then spare else p);
        StepKeeps(has, mid);
        StepKeeps(mid, end);
        ThreeSteps(s, has, mid, end);
        run := [s, has, mid, end];
      case TxRaw(b) =>
        var sent;
        sent, end := TxRawHandler(b, memory, descriptor, has);
        StepKeeps(has, end);
        TwoSteps(s, has, end);
        run := [s, has, end];
      case Other =>
        end := has.(core := Waiting);
        StepKeeps(has, end);
        TwoSteps(s, has, end);
        run := [s, has, end];
    }
  }

  lemma PutAndTake(m: multiset<nat>, p: nat, q: nat)
    requires p in m && q !in m
    ensures m + multiset{p} - multiset{p} == m && m + multiset{q} - multiset{p} - multiset{q} == m - multiset{p}
  {
  }

  lemma TwoSteps(a: State, b: State, c: State)
    requires Next(a, b) && Next(b, c)
    ensures Steps([a, b, c])
  {
  }

  lemma ThreeSteps(a: State, b: State, c: State, d: State)
    requires Next(a, b) && Next(b, c) && Next(c, d)
    ensures Steps([a, b, c, d])
  {
  }

  lemma Coalesced(s: State, s': State, q: nat)
    requires CoreCoalesces(s, s', q)
    ensures Named(s, s')
  {
    assert About(s, s', q);
  }
}

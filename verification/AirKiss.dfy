/** The AirKiss channel scheduler (beken378/app/airkiss/airkiss_main.c).  One array is the list of the
    channels to scan and, in its scanned part, the list of the channels selected so far. */
module AirKiss {

  const MAX_CHANNELS := 14
  const SWITCH_TIMER := 50
  const MIN_SEL_CHAN_TIMER := 1000
  const MAX_SEL_CHAN_TIMER := 5000
  const MIN_VALID_DATACNT := 4
  const MIN_VALID_BCNCNT := 1

  type UInt8 = x: int | 0 <= x < 256

  datatype Chan = Chan(bcnCnt: UInt8, dataCnt: UInt8, channel: UInt8)

  datatype Mode = SCAN_ALL_CHAN | SCAN_SELECTED_CHAN

  // ------------------------------------------------------------------------------------------------
  // What a sweep selects.

  /** A selected channel and its packet count. */
  datatype Pick = Pick(channel: UInt8, dataCnt: UInt8)

  function PickOf(c: Chan): Pick {
    Pick(c.channel, c.dataCnt)
  }

  function Picks(s: seq<Chan>): (v: seq<Pick>)
    ensures |v| == |s| && forall i :: 0 <= i < |s| ==> v[i] == PickOf(s[i])
  {
    seq(|s|, i requires 0 <= i < |s| => PickOf(s[i]))
  }

  predicate Eligible(c: Chan) {
    c.dataCnt >= MIN_VALID_DATACNT && c.bcnCnt >= MIN_VALID_BCNCNT
  }

  /** The position of the first count below `n`. */
  function Place(v: seq<Pick>, n: UInt8): (k: nat)
    ensures k <= |v|
    ensures forall i :: 0 <= i < k ==> v[i].dataCnt >= n
    ensures k < |v| ==> v[k].dataCnt < n
  {
    if v == [] || v[0].dataCnt < n then 0 else 1 + Place(v[1..], n)
  }

  /** Adding a channel: it goes in front of the first smaller count, or takes the place of itself. */
  function Added(v: seq<Pick>, p: Pick): seq<Pick> {
    var k := Place(v, p.dataCnt);
    if k < |v| && v[k].channel == p.channel then v[k := p] else v[..k] + [p] + v[k..]
  }

  function Selected(s: seq<Chan>): seq<Pick> {
    if s == [] then []
    else
      var v := Selected(s[..|s| - 1]);
      if Eligible(s[|s| - 1]) then Added(v, PickOf(s[|s| - 1])) else v
  }

  /** The eligible channels in scan order. */
  function Eligibles(s: seq<Chan>): seq<Pick> {
    if s == [] then []
    else Eligibles(s[..|s| - 1]) + if Eligible(s[|s| - 1]) then [PickOf(s[|s| - 1])] else []
  }

  lemma PlaceIs(v: seq<Pick>, n: UInt8, k: nat)
    requires k <= |v| && (forall i :: 0 <= i < k ==> v[i].dataCnt >= n) && (k < |v| ==> v[k].dataCnt < n)
    ensures Place(v, n) == k
  {
  }

  lemma PicksInsert(s: seq<Chan>, t: seq<Chan>, k: nat, p: Pick)
    requires |t| == |s| + 1 && k <= |s| && PickOf(t[k]) == p
    requires forall j :: 0 <= j < |t| && j != k ==> t[j] == s[if j < k then j else j - 1]
    ensures Picks(t) == Picks(s)[..k] + [p] + Picks(s)[k..]
  {
  }

  /** Scan order: the channel numbers ascend. */
  predicate InScanOrder(s: seq<Chan>) {
    forall i, j :: 0 <= i < j < |s| ==> s[i].channel < s[j].channel
  }

  /** Descending by count, and by scan order among equal counts: what a stable sort gives. */
  ghost predicate StablyDescending(v: seq<Pick>) {
    forall i, j :: 0 <= i < j < |v| ==> Before(v[i], v[j])
  }

  predicate Before(p: Pick, q: Pick) {
    p.dataCnt > q.dataCnt || (p.dataCnt == q.dataCnt && p.channel < q.channel)
  }

  lemma AddedDescends(v: seq<Pick>, p: Pick)
    requires StablyDescending(v) && forall i :: 0 <= i < |v| ==> v[i].channel < p.channel
    ensures StablyDescending(Added(v, p))
    ensures multiset(Added(v, p)) == multiset(v) + multiset{p}
    ensures |Added(v, p)| == |v| + 1
  {
    var k := Place(v, p.dataCnt);
    assert k < |v| ==> v[k].channel < p.channel;
    AddedMembers(v, k, p);
    forall i | k <= i < |v|
      ensures Before(p, v[i])
    {
      assert i > k ==> Before(v[k], v[i]);
    }
    InsertDescends(v, k, p);
  }

  lemma AddedMembers(v: seq<Pick>, k: nat, p: Pick)
    requires k <= |v|
    ensures multiset(v[..k] + [p] + v[k..]) == multiset(v) + multiset{p}
  {
    assert v == v[..k] + v[k..];
  }

  lemma InsertDescends(v: seq<Pick>, k: nat, p: Pick)
    requires StablyDescending(v) && k <= |v|
    requires (forall i :: 0 <= i < k ==> Before(v[i], p)) && (forall i :: k <= i < |v| ==> Before(p, v[i]))
    ensures StablyDescending(v[..k] + [p] + v[k..])
  {
    hide Before;
    var w := v[..k] + [p] + v[k..];
    assert forall i :: 0 <= i < |w| ==> w[i] == if i < k then v[i] else if i == k then p else v[i - 1];
  }

  /** After any sweep the selection is the stable descending sort of the eligible channels: ordered so,
      and a permutation of them. */
  lemma {:induction false} SelectedIsSort(s: seq<Chan>)
    requires InScanOrder(s)
    ensures StablyDescending(Selected(s))
    ensures multiset(Selected(s)) == multiset(Eligibles(s)) && |Selected(s)| == |Eligibles(s)| <= |s|
    ensures forall p :: p in Eligibles(s) ==> exists i :: 0 <= i < |s| && s[i].channel == p.channel
  {
    hide StablyDescending, Added, Eligible;
    if s != [] {
      var n := |s| - 1;
      var v, c := Selected(s[..n]), s[n];
      SelectedIsSort(s[..n]);
      if Eligible(c) {
        EarlierChannels(s, n, v);
        AddedDescends(v, PickOf(c));
      }
    } else {
      assert StablyDescending([]) by { NothingDescends(); }
    }
  }

  lemma NothingDescends()
    ensures StablyDescending([])
  {
  }

  /** What was picked among earlier channels has a lower channel number. */
  lemma EarlierChannels(s: seq<Chan>, n: nat, v: seq<Pick>)
    requires InScanOrder(s) && n < |s| && multiset(v) == multiset(Eligibles(s[..n]))
    requires forall p :: p in Eligibles(s[..n]) ==> exists i :: 0 <= i < n && s[..n][i].channel == p.channel
    ensures forall i :: 0 <= i < |v| ==> v[i].channel < s[n].channel
  {
    hide Eligibles;
    forall i | 0 <= i < |v|
      ensures v[i].channel < s[n].channel
    {
      assert v[i] in multiset(Eligibles(s[..n]));
      assert v[i] in Eligibles(s[..n]);
      var j :| 0 <= j < n && s[..n][j].channel == v[i].channel;
      assert s[j].channel == v[i].channel;
    }
  }

  /** There is only one such order. */
  lemma {:induction false} SortIsUnique(v: seq<Pick>, w: seq<Pick>)
    requires StablyDescending(v) && StablyDescending(w) && multiset(v) == multiset(w)
    ensures v == w
  {
    if v == [] {
      assert |w| == |multiset(w)| == |multiset(v)|;
    } else {
      assert v[0] in multiset(w);
      FirstIsSame(v, w);
      assert v == [v[0]] + v[1..] && w == [w[0]] + w[1..];
      assert multiset(v[1..]) == multiset(v) - multiset{v[0]};
      assert multiset(w[1..]) == multiset(w) - multiset{w[0]};
      SortIsUnique(v[1..], w[1..]);
    }
  }

  lemma FirstIsSame(v: seq<Pick>, w: seq<Pick>)
    requires StablyDescending(v) && StablyDescending(w) && v != [] && w != []
    requires v[0] in multiset(w) && w[0] in multiset(v)
    ensures v[0] == w[0]
  {
    var j :| 0 <= j < |w| && w[j] == v[0];
    var i :| 0 <= i < |v| && v[i] == w[0];
    assert i > 0 ==> Before(v[0], v[i]);
    assert j > 0 ==> Before(w[0], w[j]);
  }

  /** The channel was heard often enough: four data packets and one beacon. */
  predicate Heard(c: Chan) {
    c.dataCnt >= 4 && c.bcnCnt >= 1
  }

  /** What is eligible are exactly the channels that were heard often enough, with their counts. */
  lemma {:induction false} EligiblesAre(s: seq<Chan>, p: Pick)
    ensures p in Eligibles(s) <==> exists i :: 0 <= i < |s| && Heard(s[i]) && p == Pick(s[i].channel, s[i].dataCnt)
  {
    if s != [] {
      var n := |s| - 1;
      EligiblesAre(s[..n], p);
      if i :| 0 <= i < |s| && Heard(s[i]) && p == Pick(s[i].channel, s[i].dataCnt) {
        assert i < n ==> s[..n][i] == s[i];
      }
    }
  }

  /** The channels from 1 on, one after the other. */
  predicate FromOne(s: seq<Chan>) {
    forall i :: 0 <= i < |s| ==> s[i].channel == i + 1
  }

  /** The entry `k` of the selection is the channel of its number, which was heard often enough. */
  lemma SelectedEntry(s: seq<Chan>, k: nat)
    requires FromOne(s) && k < |Selected(s)|
    ensures var p := Selected(s)[k];
            1 <= p.channel <= |s| && Heard(s[p.channel - 1]) && p.dataCnt == s[p.channel - 1].dataCnt
  {
    hide Selected, Eligibles;
    SelectedIsSort(s);
    var p := Selected(s)[k];
    assert p in multiset(Selected(s));
    assert p in Eligibles(s);
    EligiblesAre(s, p);
  }

  /** Every channel that was heard often enough is in the selection, and none comes before a better one. */
  lemma SelectedComplete(s: seq<Chan>, i: nat)
    requires FromOne(s) && i < |s| && Heard(s[i])
    ensures Selected(s) != []
    ensures exists k :: 0 <= k < |Selected(s)| && Selected(s)[k] == Pick(i + 1, s[i].dataCnt)
    ensures var p := Selected(s)[0];
            p.dataCnt > s[i].dataCnt || (p.dataCnt == s[i].dataCnt && p.channel <= i + 1)
  {
    hide Selected, Eligibles;
    SelectedIsSort(s);
    var p := Pick(s[i].channel, s[i].dataCnt);
    EligiblesAre(s, p);
    assert p in multiset(Eligibles(s));
    assert p in Selected(s);
    var k :| 0 <= k < |Selected(s)| && Selected(s)[k] == p;
    assert k > 0 ==> Before(Selected(s)[0], Selected(s)[k]);
  }

  predicate NoneHeard(s: seq<Chan>) {
    forall i :: 0 <= i < |s| ==> !Heard(s[i])
  }

  /** Of the channels that were heard often enough `tuned` has the most data packets, and is the first of
      those that have as many. */
  predicate IsBest(s: seq<Chan>, tuned: int) {
    1 <= tuned <= |s| && forall i :: 0 <= i < |s| && Heard(s[i]) ==>
      s[i].dataCnt < s[tuned - 1].dataCnt || (s[i].dataCnt == s[tuned - 1].dataCnt && tuned <= i + 1)
  }

  /** The selection begins with the best channel, and is empty only if there is none. */
  lemma {:induction false} BestFirst(s: seq<Chan>)
    requires FromOne(s)
    ensures if Selected(s) == [] then NoneHeard(s) else IsBest(s, Selected(s)[0].channel)
  {
    hide Selected, Heard;
    forall i | 0 <= i < |s| && Heard(s[i])
      ensures Selected(s) != []
      ensures s[i].dataCnt < Selected(s)[0].dataCnt ||
              (s[i].dataCnt == Selected(s)[0].dataCnt && Selected(s)[0].channel <= i + 1)
    {
      SelectedComplete(s, i);
    }
    if Selected(s) != [] {
      SelectedEntry(s, 0);
    }
  }

  /** A second for every four packets, at least one and at most five. */
  predicate DwellIs(count: int, t: int) {
    && (count < 8 ==> t == 1000) && (8 <= count < 12 ==> t == 2000) && (12 <= count < 16 ==> t == 3000)
    && (16 <= count < 20 ==> t == 4000) && (20 <= count ==> t == 5000)
  }

  /** `airkiss_calc_time_for_selected_channel`. */
  function DwellTime(validCnt: UInt8): (t: nat)
    ensures DwellIs(validCnt, t)
  {
    var t := validCnt / MIN_VALID_DATACNT * MIN_SEL_CHAN_TIMER;
    if t < MIN_SEL_CHAN_TIMER then MIN_SEL_CHAN_TIMER
    else if t > MAX_SEL_CHAN_TIMER then MAX_SEL_CHAN_TIMER
    else t
  }

  // ------------------------------------------------------------------------------------------------
  // The code.

  class Scanner {
    const chan: array<Chan>
    var curChanIdx: nat
    var allChanNums: nat
    var selectedChanNums: nat
    var mode: Mode
    ghost var sweep: seq<Chan>    // the entries as they were when their scan time ended
    ghost var order: seq<Pick>    // the outcome of the sweep
    ghost var visited: seq<UInt8> // the selected channels tuned to since then

    /** The part common to both modes. */
    ghost predicate Sized()
      reads this
    {
      chan.Length == MAX_CHANNELS && allChanNums == MAX_CHANNELS - 1
    }

    /** While all channels are scanned: the selected list is the selection of the swept entries and ends
        before the current entry; the entries not scanned yet are as they were set up. */
    ghost predicate Sweeping()
      requires Sized()
      reads this, chan
    {
      && selectedChanNums <= curChanIdx < allChanNums
      && |sweep| == curChanIdx && FromOne(sweep)
      && Picks(chan[..selectedChanNums]) == Selected(sweep)
      && chan[curChanIdx].channel == curChanIdx + 1
      && (forall i :: curChanIdx < i < allChanNums ==> chan[i] == Chan(0, 0, i + 1))
    }

    /** While the selected channels are revisited: the list holds them in order, with the counts of the
        sweep where the scan has not been yet. */
    ghost predicate Revisiting()
      requires Sized()
      reads this, chan
    {
      && curChanIdx < selectedChanNums == |order| <= allChanNums
      && |sweep| == allChanNums && FromOne(sweep)
      && order == Selected(sweep)
      && (forall i :: 0 <= i < |order| ==> chan[i].channel == order[i].channel)
      && (forall i :: curChanIdx < i < |order| ==> chan[i].dataCnt == order[i].dataCnt)
      && |visited| == curChanIdx + 1
      && (forall i :: 0 <= i < |visited| ==> visited[i] == order[i].channel)
    }

    ghost predicate Valid()
      reads this, chan
    {
      Sized() && match mode case SCAN_ALL_CHAN => Sweeping() case SCAN_SELECTED_CHAN => Revisiting()
    }

    /** A full scan is about to begin. */
    ghost predicate Fresh()
      reads this, chan
    {
      Valid() && mode == SCAN_ALL_CHAN && curChanIdx == 0 && chan[0] == Chan(0, 0, 1)
    }

    /** A bound on the number of callbacks until the next full scan begins. */
    ghost function Remaining(): nat
      requires Valid()
      reads this, chan
    {
      match mode
      case SCAN_ALL_CHAN => allChanNums - curChanIdx + allChanNums
      case SCAN_SELECTED_CHAN => selectedChanNums - curChanIdx
    }

    constructor ()
      ensures Fresh() && fresh(chan)
    {
      chan := new Chan[MAX_CHANNELS](i => Chan(0, 0, 0));
      curChanIdx, allChanNums, selectedChanNums, mode := 0, 0, 0, SCAN_ALL_CHAN;
      new;
      SetScanAllChannel();
    }

    /** `airkiss_set_scan_all_channel`. */
    method SetScanAllChannel()
      requires chan.Length == MAX_CHANNELS
      modifies this, chan
      ensures Fresh()
    {
      forall i | 0 <= i < MAX_CHANNELS { chan[i] := Chan(0, 0, 0); }
      curChanIdx, selectedChanNums := 0, 0;
      allChanNums := MAX_CHANNELS - 1;
      for i := 0 to allChanNums
        modifies chan
        invariant forall j :: 0 <= j < chan.Length ==> chan[j] == Chan(0, 0, if j < i then j + 1 else 0)
      {
        chan[i] := chan[i].(channel := i + 1);
      }
      mode := SCAN_ALL_CHAN;
      sweep, order, visited := [], [], [];
      assert Picks(chan[..0]) == [];
    }

    /** A received beacon or data frame counts for the current channel; the counters wrap. */
    method CountPacket(beacon: bool)
      requires Valid()
      modifies chan
      ensures Valid()
      ensures forall i :: 0 <= i < chan.Length && i != curChanIdx ==> chan[i] == old(chan[i])
      ensures chan[curChanIdx] == var c := old(chan[curChanIdx]);
                if beacon then c.(bcnCnt := (c.bcnCnt + 1) % 256) else c.(dataCnt := (c.dataCnt + 1) % 256)
    {
      var c := chan[curChanIdx];
      ghost var before := chan[..selectedChanNums];
      if beacon {
        chan[curChanIdx] := c.(bcnCnt := (c.bcnCnt + 1) % 256);
      } else {
        chan[curChanIdx] := c.(dataCnt := (c.dataCnt + 1) % 256);
      }
      assert mode == SCAN_ALL_CHAN ==> chan[..selectedChanNums] == before;
    }

    /** `airkiss_add_channel`: the list grows by at most one entry and nothing beyond it changes. */
    method AddChannel(channel: UInt8, bcnCnt: UInt8, dataCnt: UInt8)
      requires chan.Length == MAX_CHANNELS && selectedChanNums < MAX_CHANNELS
      modifies this`selectedChanNums, chan
      ensures old(selectedChanNums) <= selectedChanNums <= old(selectedChanNums) + 1
      ensures Picks(chan[..selectedChanNums]) ==
                if Eligible(Chan(bcnCnt, dataCnt, channel))
                then Added(Picks(old(chan[..selectedChanNums])), Pick(channel, dataCnt))
                else Picks(old(chan[..selectedChanNums]))
      ensures forall j :: selectedChanNums <= j < chan.Length ==> chan[j] == old(chan[j])
    {
      hide Place;
      ghost var s := chan[..selectedChanNums];
      ghost var v := Picks(s);
      if dataCnt < MIN_VALID_DATACNT {
        return;
      }
      if bcnCnt < MIN_VALID_BCNCNT {
        return;
      }
      var i := 0;
      while i < selectedChanNums
        invariant 0 <= i <= selectedChanNums
        invariant forall j :: 0 <= j < i ==> v[j].dataCnt >= dataCnt
      {
        var curCnt, curChan := chan[i].dataCnt, chan[i].channel;
        if curCnt < dataCnt {
          PlaceIs(v, dataCnt, i);
          if curChan != channel {
            forall j | i < j <= selectedChanNums { chan[j] := chan[j - 1]; }
            selectedChanNums := selectedChanNums + 1;
          }
          chan[i] := chan[i].(channel := channel, dataCnt := dataCnt);
          if curChan != channel {
            PicksInsert(s, chan[..selectedChanNums], i, Pick(channel, dataCnt));
          }
          return;
        }
        i := i + 1;
      }
      PlaceIs(v, dataCnt, i);
      selectedChanNums := selectedChanNums + 1;
      chan[i] := chan[i].(channel := channel, dataCnt := dataCnt);
      PicksInsert(s, chan[..selectedChanNums], i, Pick(channel, dataCnt));
    }

    /** `airkiss_switch_channel_callback`: the timer has run out.  `tuned` is the channel tuned to next
        and `period` the time until the next callback: 50 ms in a sweep, and afterwards what the packets
        counted on the channel tuned to call for.  The first channel is the best of all that were heard
        often enough; if there is none another sweep begins. */
    method SwitchChannelCallback() returns (tuned: UInt8, period: nat)
      requires Valid()
      modifies this, chan
      ensures Valid()
      ensures mode == SCAN_ALL_CHAN ==> period == 50 && 1 <= tuned <= 13
      ensures mode == SCAN_SELECTED_CHAN ==>
                && |sweep| == 13 && 1 <= tuned <= 13
                && sweep[tuned - 1].channel == tuned && Heard(sweep[tuned - 1]) && DwellIs(sweep[tuned - 1].dataCnt, period)
      ensures old(mode) == SCAN_ALL_CHAN && |old(sweep)| == 12 ==>
                var swept := old(sweep) + [old(chan[curChanIdx])];
                if mode == SCAN_ALL_CHAN then NoneHeard(swept) else sweep == swept && IsBest(swept, tuned)
      ensures Fresh() || Remaining() < old(Remaining())
      ensures old(mode) == SCAN_ALL_CHAN ==>
                var swept := old(sweep) + [old(chan[curChanIdx])];
                if |swept| < allChanNums then
                  mode == SCAN_ALL_CHAN && sweep == swept && tuned == |swept| + 1 && period == SWITCH_TIMER
                else if Selected(swept) == [] then
                  Fresh() && tuned == 1 && period == SWITCH_TIMER
                else
                  mode == SCAN_SELECTED_CHAN && order == Selected(swept) && visited == [tuned] &&
                  period == DwellTime(order[0].dataCnt)
      ensures old(mode) == SCAN_SELECTED_CHAN ==>
                if old(curChanIdx) + 1 < |old(order)| then
                  mode == SCAN_SELECTED_CHAN && order == old(order) && visited == old(visited) + [tuned] &&
                  period == DwellTime(order[|visited| - 1].dataCnt)
                else
                  Fresh() && |old(visited)| == |old(order)| && tuned == 1 && period == SWITCH_TIMER
    {
      hide Selected, DwellTime, Added, Heard, DwellIs, Place, Eligible, Eligibles, InScanOrder, StablyDescending, Before,
        NoneHeard, IsBest, FromOne, Picks;
      var cur := chan[curChanIdx];
      ghost var swept := sweep + [cur];
      match mode {
        case SCAN_ALL_CHAN =>
          Sweep(cur);
          curChanIdx := curChanIdx + 1;
          period := SWITCH_TIMER;
          if curChanIdx >= allChanNums {
            period := EndSweep();
          }
        case SCAN_SELECTED_CHAN =>
          curChanIdx := curChanIdx + 1;
          period := DwellTime(chan[curChanIdx].dataCnt);
          if curChanIdx >= selectedChanNums {
            curChanIdx := 0;
            SetScanAllChannel();
            mode := SCAN_ALL_CHAN;
            period := SWITCH_TIMER;
          } else {
            visited := visited + [order[curChanIdx].channel];
          }
      }
      tuned := chan[curChanIdx].channel;
      if mode == SCAN_SELECTED_CHAN {
        TunedTo(tuned, period);
      }
      if |swept| == 13 {
        BestFirst(swept);
      }
    }

    /** All channels are swept: the selected ones are next, if there are any. */
    method EndSweep() returns (period: nat)
      requires Sized() && mode == SCAN_ALL_CHAN && |sweep| == allChanNums && FromOne(sweep)
      requires selectedChanNums <= allChanNums && Picks(chan[..selectedChanNums]) == Selected(sweep)
      modifies this, chan
      ensures Valid()
      ensures if Selected(old(sweep)) == [] then Fresh() && period == SWITCH_TIMER
              else
                && mode == SCAN_SELECTED_CHAN && curChanIdx == 0 && selectedChanNums <= allChanNums
                && sweep == old(sweep) && order == Selected(sweep) && visited == [order[0].channel]
                && period == DwellTime(order[0].dataCnt)
    {
      hide Selected, DwellTime, FromOne;
      curChanIdx, period := 0, SWITCH_TIMER;
      if selectedChanNums != 0 {
        mode := SCAN_SELECTED_CHAN;
        period := DwellTime(chan[curChanIdx].dataCnt);
        order := Selected(sweep);
        visited := [order[0].channel];
      } else {
        SetScanAllChannel();
      }
    }

    /** What is known of the selected channel tuned to. */
    lemma TunedTo(tuned: UInt8, period: nat)
      requires Valid() && mode == SCAN_SELECTED_CHAN
      requires tuned == order[curChanIdx].channel && period == DwellTime(order[curChanIdx].dataCnt)
      ensures |sweep| == 13 && 1 <= tuned <= 13
      ensures sweep[tuned - 1].channel == tuned && Heard(sweep[tuned - 1]) && DwellIs(sweep[tuned - 1].dataCnt, period)
    {
      hide Selected, Heard;
      SelectedEntry(sweep, curChanIdx);
    }

    /** The scanned entry goes through the selection; the entries after it keep their value although
        the selection is built in the same array. */
    method Sweep(cur: Chan)
      requires Sized() && mode == SCAN_ALL_CHAN && Sweeping() && cur == chan[curChanIdx]
      modifies this`selectedChanNums, this`sweep, chan
      ensures FromOne(sweep)
      ensures selectedChanNums <= curChanIdx + 1 && |Selected(sweep)| == selectedChanNums
      ensures sweep == old(sweep) + [cur] && Picks(chan[..selectedChanNums]) == Selected(sweep)
      ensures forall i :: curChanIdx < i < allChanNums ==> chan[i] == Chan(0, 0, i + 1)
    {
      AddChannel(cur.channel, cur.bcnCnt, cur.dataCnt);
      sweep := sweep + [cur];
      assert sweep[..curChanIdx] == old(sweep);
    }

    /** `airkiss_doing_timeout_callback`. */
    method DoingTimeoutCallback() returns (tuned: UInt8, period: nat)
      requires Valid()
      modifies this, chan
      ensures Fresh() && tuned == 1 && period == SWITCH_TIMER
    {
      SetScanAllChannel();
      tuned, period := chan[curChanIdx].channel, SWITCH_TIMER;
    }
  }
}

/** The TFTP receiver (beken378/app/tftp/tftpclient.c) against a conforming server (section 2 of
    RFC 1350, with the option acknowledgement of RFC 2347) over channels that may lose and duplicate
    packets but keep their order. */
module Tftp {

  const SEQUENCE_SIZE := 0x1_0000
  const TIMEOUT_COUNT := 10
  const DEFAULT_BLK := 512

  type Bytes = seq<bv8>

  datatype Packet =
    | Rrq
    | Oack(blksize: Option<nat>)       // the value of the `blksize` option, if the server took it
    | Data(num: nat, payload: Bytes)   // `num` is the 16-bit number on the wire
    | Ack(num: nat)
    | Error

  datatype Option<T> = None | Some(value: T)

  datatype ClientState = STATE_RRQ | STATE_OACK | STATE_DATA

  /** A call of `store_block`: the block index handed on and the payload. */
  datatype Stored = Stored(index: nat, payload: Bytes)

  /** The statics of the client. */
  datatype Client = Client(state: ClientState, serverPort: nat, block: nat, lastBlock: nat, blkSize: nat,
                           timeoutCount: nat, stored: seq<Stored>, done: bool)

  /** The packet `TftpSend` chooses. */
  function ToSend(c: Client): Packet {
    match c.state
    case STATE_RRQ => Rrq
    case STATE_OACK => Ack(c.block)
    case STATE_DATA => Ack(c.block)
  }

  /** `TftpBlock - 1` as the unsigned argument of `store_block`. */
  function BlockIndex(num: nat): nat {
    if num == 0 then 0xFFFF_FFFF else num - 1
  }

  /** `TftpHandler`: the new state and the packets sent. */
  function Handled(c: Client, p: Packet, port: nat): (Client, seq<Packet>) {
    if c.state != STATE_RRQ && port != c.serverPort then (c, [])
    else
      match p
      case Oack(size) =>
        var c' := c.(state := STATE_OACK, serverPort := port, blkSize := if size.Some? then size.value else c.blkSize);
        (c', [ToSend(c')])
      case Data(num, payload) =>
        var first := c.state != STATE_DATA;
        var c1 := if first then c.(block := num, state := STATE_DATA, serverPort := port, lastBlock := 0) else c.(block := num);
        if first && num != 1 then (c1, [])
        else if num == c1.lastBlock then (c1, [ToSend(c1)])
        else
          var c2 := c1.(lastBlock := num, stored := c1.stored + [Stored(BlockIndex(num), payload)],
                        done := |payload| < c1.blkSize);
          (c2, [ToSend(c2)])
      case _ => (c, [])
  }

  /** `TftpTimeout`. */
  function TimedOut(c: Client): (Client, seq<Packet>) {
    var c' := c.(timeoutCount := c.timeoutCount + 1);
    (c', if c'.timeoutCount > TIMEOUT_COUNT then [] else [ToSend(c')])
  }

  // ------------------------------------------------------------------------------------------------
  // The code.

  class TftpClient {
    var state: ClientState
    var serverPort: nat
    var block: nat
    var lastBlock: nat
    var blkSize: nat
    var timeoutCount: nat
    var stored: seq<Stored>
    var done: bool

    ghost function Model(): Client
      reads this
    {
      Client(state, serverPort, block, lastBlock, blkSize, timeoutCount, stored, done)
    }

    /** `TftpStart`; `lastBlock` keeps whatever an earlier transfer left in it. */
    constructor (leftOver: nat)
      ensures Model() == Started(leftOver)
      ensures state == STATE_RRQ && serverPort == 69 && blkSize == 512 && timeoutCount == 0 && stored == [] && !done
    {
      state, serverPort, block, lastBlock := STATE_RRQ, 69, 0, leftOver;
      blkSize, timeoutCount, stored, done := DEFAULT_BLK, 0, [], false;
    }

    method Send() returns (sent: seq<Packet>)
      ensures sent == [ToSend(Model())]
    {
      match state {
        case STATE_RRQ => sent := [Rrq];
        case STATE_OACK => sent := [Ack(block)];
        case STATE_DATA => sent := [Ack(block)];
      }
    }

    /** `TftpHandler`.  Once an answer has come, packets of other ports are dropped; requests,
        acknowledgements and errors never do anything.  A first block must be block 1; a block is stored
        and acknowledged, or only acknowledged when it has the number of the one before. */
    method Handler(p: Packet, port: nat) returns (sent: seq<Packet>)
      modifies this
      ensures (Model(), sent) == Handled(old(Model()), p, port)
      ensures old(state) != STATE_RRQ && port != old(serverPort) ==> Model() == old(Model()) && sent == []
      ensures p.Rrq? || p.Ack? || p.Error? ==> Model() == old(Model()) && sent == []
      ensures p.Oack? && (old(state) == STATE_RRQ || port == old(serverPort)) ==>
                && state == STATE_OACK && serverPort == port && sent == [Ack(old(block))]
                && blkSize == (if p.blksize.Some? then p.blksize.value else old(blkSize))
                && stored == old(stored) && done == old(done)
      ensures p.Data? && (old(state) == STATE_RRQ || (old(state) == STATE_OACK && port == old(serverPort))) ==>
                && state == STATE_DATA && serverPort == port && blkSize == old(blkSize)
                && (p.num == 1 ==> sent == [Ack(1)] && stored == old(stored) + [Stored(0, p.payload)]
                                   && lastBlock == 1 && done == (|p.payload| < blkSize))
                && (p.num != 1 ==> sent == [] && stored == old(stored) && lastBlock == 0 && done == old(done))
      ensures p.Data? && old(state) == STATE_DATA && port == old(serverPort) ==>
                && state == STATE_DATA && serverPort == port && blkSize == old(blkSize) && sent == [Ack(p.num)]
                && lastBlock == p.num
                && (p.num == old(lastBlock) ==> stored == old(stored) && done == old(done))
                && (p.num != old(lastBlock) ==>
                      && done == (|p.payload| < blkSize)
                      && stored == old(stored) + [Stored(if p.num > 0 then p.num - 1 else 0xFFFF_FFFF, p.payload)])
    {
      sent := [];
      if state != STATE_RRQ && port != serverPort {
        return;
      }
      match p {
        case Oack(size) =>
          state := STATE_OACK;
          serverPort := port;
          if size.Some? {
            blkSize := size.value;
          }
          sent := Send();
        case Data(num, payload) =>
          block := num;
          if state == STATE_RRQ || state == STATE_OACK {
            state := STATE_DATA;
            serverPort := port;
            lastBlock := 0;
            if block != 1 {
              return;
            }
          }
          if block == lastBlock {
            sent := Send();
            return;
          }
          lastBlock := block;
          stored := stored + [Stored(BlockIndex(block), payload)];
          sent := Send();
          done := |payload| < blkSize;
        case Rrq =>
        case Ack(_) =>
        case Error =>
      }
    }

    method Timeout() returns (sent: seq<Packet>)
      modifies this`timeoutCount
      ensures (Model(), sent) == TimedOut(old(Model()))
      ensures timeoutCount == old(timeoutCount) + 1
      ensures sent == if old(timeoutCount) >= 10 then [] else if state == STATE_RRQ then [Rrq] else [Ack(block)]
    {
      sent := [];
      timeoutCount := timeoutCount + 1;
      if timeoutCount <= TIMEOUT_COUNT {
        sent := Send();
      }
    }
  }

  function Started(leftOver: nat): Client {
    Client(STATE_RRQ, 69, 0, leftOver, DEFAULT_BLK, 0, [], false)
  }

  // ------------------------------------------------------------------------------------------------
  // The server and the channels.

  /** What is being transferred: the file, the block size the server uses, and whether it answers the
      request with an option acknowledgement. */
  datatype Transfer = Transfer(file: Bytes, blk: nat, options: bool, port: nat) {
    predicate Conforming() {
      0 < blk < SEQUENCE_SIZE && (!options ==> blk == DEFAULT_BLK)
    }

    /** Blocks are numbered from 1; the last one is the first that is shorter than the others. */
    function Count(): (n: nat)
      requires blk > 0
      ensures n > 0
    {
      |file| / blk + 1
    }

    function Block(n: nat): Bytes
      requires blk > 0
    {
      var lo, hi := (n - 1) * blk, n * blk;
      if 0 <= lo <= hi <= |file| then file[lo..hi] else if 0 <= lo <= |file| then file[lo..] else []
    }

    /** The server's packet number `n`: 0 is the option acknowledgement. */
    function PacketNo(n: nat): Packet
      requires blk > 0
    {
      if n == 0 then Oack(if blk == DEFAULT_BLK then None else Some(blk)) else Data(n % SEQUENCE_SIZE, Block(n))
    }
  }

  datatype Server = Idle | Sending(n: nat) | Finished

  /** A packet in flight.  `rank` is a history variable: the number of the server packet it is, or that
      it acknowledges.  No step looks at it. */
  datatype Flight = Flight(pkt: Packet, rank: nat)

  datatype System = System(client: Client, server: Server, down: seq<Flight>, up: seq<Flight>)

  /** The number of the server packet the client has seen last. */
  function Seen(c: Client): nat {
    |c.stored|
  }

  function Tagged(c: Client, sent: seq<Packet>): seq<Flight> {
    seq(|sent|, i requires 0 <= i < |sent| => Flight(sent[i], Seen(c)))
  }

  ghost predicate Init(t: Transfer, s: System) {
    s.server == Idle && s.down == [] && s.up == [] && exists l :: s.client == Started(l)
  }

  ghost predicate ClientReceives(t: Transfer, s: System, s': System) {
    && !s.client.done && s.down != []
    && var (c, sent) := Handled(s.client, s.down[0].pkt, t.port);
       s' == s.(client := c, down := s.down[1..], up := s.up + Tagged(c, sent))
  }

  ghost predicate ClientTimesOut(t: Transfer, s: System, s': System) {
    && !s.client.done
    && var (c, sent) := TimedOut(s.client);
       s' == s.(client := c, up := s.up + Tagged(c, sent))
  }

  /** The server's reaction to a packet: to the first request it starts, to the acknowledgement of what
      it is sending it goes on, everything else it ignores. */
  function Advanced(t: Transfer, v: Server, p: Packet): Server
    requires t.blk > 0
  {
    if v == Idle && p == Rrq then Sending(if t.options then 0 else 1)
    else if v.Sending? && p == Ack(v.n % SEQUENCE_SIZE) then
      if v.n == t.Count() then Finished else Sending(v.n + 1)
    else v
  }

  function Flights(t: Transfer, v: Server): seq<Flight>
    requires t.blk > 0
  {
    if v.Sending? then [Flight(t.PacketNo(v.n), v.n)] else []
  }

  ghost predicate ServerReceives(t: Transfer, s: System, s': System)
    requires t.blk > 0
  {
    && s.up != []
    && var v := Advanced(t, s.server, s.up[0].pkt);
       s' == s.(server := v, up := s.up[1..], down := s.down + if v != s.server then Flights(t, v) else [])
  }

  ghost predicate ServerResends(t: Transfer, s: System, s': System)
    requires t.blk > 0
  {
    s' == s.(down := s.down + Flights(t, s.server))
  }

  /** One packet of the channel is lost, or delivered twice. */
  ghost predicate Disturbed(c: seq<Flight>, d: seq<Flight>) {
    exists i :: 0 <= i < |c| && (d == c[..i] + c[i + 1..] || d == c[..i] + [c[i]] + c[i..])
  }

  /** Once an answer of the server has come, anybody may send the client anything from another port. */
  ghost predicate StrangerSends(t: Transfer, s: System, s': System) {
    && !s.client.done && s.client.state != STATE_RRQ
    && exists p, port | port != t.port :: StrangersPacket(s, s', p, port)
  }

  predicate StrangersPacket(s: System, s': System, p: Packet, port: nat) {
    var (c, sent) := Handled(s.client, p, port);
    s' == s.(client := c, up := s.up + Tagged(c, sent))
  }

  ghost predicate Next(t: Transfer, s: System, s': System)
    requires t.blk > 0
  {
    || ClientReceives(t, s, s')
    || StrangerSends(t, s, s')
    || ClientTimesOut(t, s, s')
    || ServerReceives(t, s, s')
    || ServerResends(t, s, s')
    || (Disturbed(s.down, s'.down) && s' == s.(down := s'.down))
    || (Disturbed(s.up, s'.up) && s' == s.(up := s'.up))
  }

  // ------------------------------------------------------------------------------------------------
  // Lock-step safety.

  ghost predicate Sorted(c: seq<Flight>) {
    forall i, j :: 0 <= i <= j < |c| ==> c[i].rank <= c[j].rank
  }

  /** The number of the server's latest packet, -1 before the first. */
  function Latest(t: Transfer, v: Server): int
    requires t.blk > 0
  {
    match v case Idle => -1 case Sending(n) => n case Finished => t.Count()
  }

  function FirstNo(t: Transfer): nat {
    if t.options then 0 else 1
  }

  ghost predicate DownOk(t: Transfer, s: System)
    requires t.blk > 0
  {
    && Sorted(s.down)
    && forall i :: 0 <= i < |s.down| ==> var f := s.down[i];
         f.pkt == t.PacketNo(f.rank) && FirstNo(t) <= f.rank && Seen(s.client) <= f.rank <= Latest(t, s.server)
  }

  ghost predicate UpOk(t: Transfer, s: System) {
    && Sorted(s.up)
    && forall i :: 0 <= i < |s.up| ==> var f := s.up[i];
         && (s.server.Sending? ==> s.server.n - 1 <= f.rank)
         && f.rank <= Seen(s.client)
         && (if f.pkt == Rrq then f.rank == 0
             else f.pkt == Ack(f.rank % SEQUENCE_SIZE) && FirstNo(t) <= f.rank && s.client.state != STATE_RRQ)
  }

  ghost predicate ClientOk(t: Transfer, c: Client)
    requires t.blk > 0
  {
    var k := Seen(c);
    && k <= t.Count()
    && (forall i :: 0 <= i < k ==> c.stored[i] == Stored(BlockIndex((i + 1) % SEQUENCE_SIZE), t.Block(i + 1)))
    && (c.done <==> k == t.Count())
    && (if k == 0 then c.state != STATE_DATA && c.block == 0
        else c.state == STATE_DATA && c.block == c.lastBlock == k % SEQUENCE_SIZE)
    && (c.state != STATE_RRQ ==> c.serverPort == t.port)
    && c.blkSize == (if t.options && c.state != STATE_RRQ then t.blk else DEFAULT_BLK)
    && (c.state == STATE_OACK ==> t.options)
  }

  ghost predicate ServerOk(t: Transfer, s: System)
    requires t.blk > 0
  {
    match s.server
    case Idle => s.down == [] && s.client.state == STATE_RRQ
    case Sending(n) =>
      FirstNo(t) <= n <= t.Count() && Seen(s.client) <= n <= Seen(s.client) + 1 && (FirstNo(t) < n ==> s.client.state != STATE_RRQ)
    case Finished => Seen(s.client) == t.Count()
  }

  ghost predicate Inv(t: Transfer, s: System)
    requires t.blk > 0
  {
    ClientOk(t, s.client) && ServerOk(t, s) && DownOk(t, s) && UpOk(t, s)
  }

  /** Only the last block is shorter than the block size. */
  lemma ShortBlock(t: Transfer, n: nat)
    requires t.blk > 0 && 1 <= n <= t.Count()
    ensures |t.Block(n)| < t.blk <==> n == t.Count()
    ensures (n - 1) * t.blk <= |t.file|
    ensures n < t.Count() ==> n * t.blk <= |t.file| && |t.Block(n)| == t.blk
    ensures n == t.Count() ==> n * t.blk > |t.file|
  {
    var q := |t.file| / t.blk;
    Quotient(|t.file|, t.blk);
    Scale(n - 1, q, t.blk);
    if n < t.Count() {
      Scale(n, q, t.blk);
    }
    assert n * t.blk == (n - 1) * t.blk + t.blk;
  }

  lemma Quotient(n: nat, d: nat)
    requires d > 0
    ensures n / d * d <= n < n / d * d + d
  {
    assert n == n / d * d + n % d;
  }

  lemma Scale(a: nat, b: nat, c: nat)
    requires a <= b
    ensures a * c <= b * c
  {
  }

  lemma NextNumberDiffers(n: nat)
    ensures n % SEQUENCE_SIZE != (n + 1) % SEQUENCE_SIZE
  {
  }

  lemma ReceiveKeeps(t: Transfer, s: System, s': System)
    requires t.Conforming() && Inv(t, s) && ClientReceives(t, s, s')
    ensures Inv(t, s')
  {
    hide Transfer.Count, Transfer.Block;
    var f := s.down[0];
    var k := Seen(s.client);
    NextNumberDiffers(k);
    ShortBlock(t, k + 1);
    var (c, sent) := Handled(s.client, f.pkt, t.port);
    assert forall i :: 0 <= i < |s'.down| ==> s'.down[i] == s.down[i + 1];
    if f.rank == 0 {
      assert Seen(c) == k == 0;
    } else if f.rank == k {
      assert Seen(c) == k;
    } else {
      assert f.rank == k + 1 && Seen(c) == k + 1;
    }
    assert ClientOk(t, c);
    assert s'.up == s.up + [Flight(sent[0], Seen(c))];
    assert UpOk(t, s');
  }

  lemma TimeoutKeeps(t: Transfer, s: System, s': System)
    requires t.Conforming() && Inv(t, s) && ClientTimesOut(t, s, s')
    ensures Inv(t, s')
  {
    hide Transfer.Count, Transfer.Block;
    var (c, sent) := TimedOut(s.client);
    if sent == [] {
      assert Tagged(c, sent) == [] && s'.up == s.up;
    } else {
      assert sent[0] == ToSend(s.client) && Seen(c) == Seen(s.client);
      assert Tagged(c, sent) == [Flight(sent[0], Seen(c))];
    }
  }

  /** The server moves on only for the acknowledgement of what it is sending. */
  lemma ServerMoves(t: Transfer, s: System, s': System)
    requires t.Conforming() && Inv(t, s) && ServerReceives(t, s, s')
    ensures ServerOk(t, s') && Latest(t, s.server) <= Latest(t, s'.server)
    ensures s'.server.Sending? ==> s'.server.n - 1 <= s.up[0].rank && FirstNo(t) <= s'.server.n && Seen(s.client) <= s'.server.n
  {
    hide Transfer.Count, Transfer.Block, Sorted, DownOk, Transfer.PacketNo;
    var f := s.up[0];
    if s.server.Sending? && s.server.n > 0 {
      NextNumberDiffers(s.server.n - 1);
    }
  }

  lemma DownGrows(t: Transfer, s: System, s': System)
    requires t.Conforming() && Inv(t, s) && s'.client == s.client && Latest(t, s.server) <= Latest(t, s'.server)
    requires s'.server.Sending? ==> FirstNo(t) <= s'.server.n && Seen(s.client) <= s'.server.n
    requires s'.down == s.down || s'.down == s.down + Flights(t, s'.server)
    ensures DownOk(t, s')
  {
    hide Transfer.Count, Transfer.Block, Transfer.PacketNo, UpOk, ClientOk, ServerOk;
  }

  lemma UpShrinks(t: Transfer, s: System, s': System)
    requires t.blk > 0 && Inv(t, s) && s.up != [] && s'.client == s.client && s'.up == s.up[1..]
    requires s'.server.Sending? ==> s'.server.n - 1 <= s.up[0].rank
    ensures UpOk(t, s')
  {
    hide DownOk, ClientOk, ServerOk;
    assert forall i :: 0 <= i < |s'.up| ==> s'.up[i] == s.up[i + 1];
  }

  lemma ServerKeeps(t: Transfer, s: System, s': System)
    requires t.Conforming() && Inv(t, s) && ServerReceives(t, s, s')
    ensures Inv(t, s')
  {
    hide DownOk, UpOk, ServerOk, ClientOk, Latest, Advanced, Flights;
    ServerMoves(t, s, s');
    DownGrows(t, s, s');
    UpShrinks(t, s, s');
  }

  lemma ResendKeeps(t: Transfer, s: System, s': System)
    requires t.Conforming() && Inv(t, s) && ServerResends(t, s, s')
    ensures Inv(t, s')
  {
    hide Transfer.Count, Transfer.Block;
  }

  lemma DisturbedKeeps(c: seq<Flight>, d: seq<Flight>)
    requires Sorted(c) && Disturbed(c, d)
    ensures Sorted(d) && forall i :: 0 <= i < |d| ==> d[i] in c
  {
    hide Sorted;
    var i :| 0 <= i < |c| && (d == c[..i] + c[i + 1..] || d == c[..i] + [c[i]] + c[i..]);
    if d == c[..i] + c[i + 1..] {
      Picked(c, d, seq(|d|, j => if j < i then j else j + 1));
    } else {
      Picked(c, d, seq(|d|, j => if j <= i then j else j - 1));
    }
  }

  /** A channel whose packets are picked from `c` without going back. */
  lemma Picked(c: seq<Flight>, d: seq<Flight>, from: seq<int>)
    requires Sorted(c) && |from| == |d|
    requires forall j :: 0 <= j < |d| ==> 0 <= from[j] < |c| && d[j] == c[from[j]]
    requires forall j, l :: 0 <= j <= l < |d| ==> from[j] <= from[l]
    ensures Sorted(d) && forall i :: 0 <= i < |d| ==> d[i] in c
  {
  }

  lemma DisturbanceKeeps(t: Transfer, s: System, s': System)
    requires t.Conforming() && Inv(t, s)
    requires (Disturbed(s.down, s'.down) && s' == s.(down := s'.down)) || (Disturbed(s.up, s'.up) && s' == s.(up := s'.up))
    ensures Inv(t, s')
  {
    hide Transfer.Count, Transfer.Block, Disturbed, Sorted;
    if Disturbed(s.down, s'.down) && s' == s.(down := s'.down) {
      DisturbedKeeps(s.down, s'.down);
      assert s.down == [] ==> s'.down == [] by { DisturbedEmpty(s.down, s'.down); }
    } else {
      DisturbedKeeps(s.up, s'.up);
    }
  }

  lemma DisturbedEmpty(c: seq<Flight>, d: seq<Flight>)
    requires Disturbed(c, d)
    ensures c != []
  {
  }

  /** Strangers change nothing at all. */
  lemma StrangerKeeps(t: Transfer, s: System, s': System)
    requires t.blk > 0 && Inv(t, s) && StrangerSends(t, s, s')
    ensures s' == s
  {
    hide ServerOk, DownOk, UpOk;
    var p, port :| port != t.port && StrangersPacket(s, s', p, port);
    assert Tagged(s.client, []) == [];
  }

  lemma StepKeeps(t: Transfer, s: System, s': System)
    requires t.Conforming() && Inv(t, s) && Next(t, s, s')
    ensures Inv(t, s')
  {
    hide Inv, ClientReceives, StrangerSends, ClientTimesOut, ServerReceives, ServerResends, Disturbed;
    if ClientReceives(t, s, s') {
      ReceiveKeeps(t, s, s');
    } else if StrangerSends(t, s, s') {
      StrangerKeeps(t, s, s');
    } else if ClientTimesOut(t, s, s') {
      TimeoutKeeps(t, s, s');
    } else if ServerReceives(t, s, s') {
      ServerKeeps(t, s, s');
    } else if ServerResends(t, s, s') {
      ResendKeeps(t, s, s');
    } else {
      DisturbanceKeeps(t, s, s');
    }
  }

  /** A run of the whole system. */
  ghost predicate IsRun(t: Transfer, run: seq<System>)
    requires t.blk > 0
  {
    run != [] && Init(t, run[0]) && forall i :: 0 <= i < |run| - 1 ==> Next(t, run[i], run[i + 1])
  }

  lemma {:induction false} RunKeeps(t: Transfer, run: seq<System>, i: nat)
    requires t.Conforming() && IsRun(t, run) && i < |run|
    ensures Inv(t, run[i])
  {
    if i > 0 {
      RunKeeps(t, run, i - 1);
      StepKeeps(t, run[i - 1], run[i]);
    } else {
      ShortBlock(t, 1);
    }
  }

  function Content(stored: seq<Stored>): Bytes {
    if stored == [] then [] else Content(stored[..|stored| - 1]) + stored[|stored| - 1].payload
  }

  lemma {:induction false} ContentOf(t: Transfer, c: Client)
    requires t.blk > 0 && ClientOk(t, c)
    ensures Content(c.stored) == if c.done then t.file else t.file[..Least(Seen(c) * t.blk, |t.file|)]
  {
    ContentUpTo(t, c, Seen(c));
    assert c.stored[..Seen(c)] == c.stored;
    if c.done {
      ShortBlock(t, Seen(c));
    }
  }

  function Least(a: nat, b: nat): (m: nat)
    ensures m <= a && m <= b && (m == a || m == b)
  {
    if a < b then a else b
  }

  lemma {:induction false} ContentUpTo(t: Transfer, c: Client, k: nat)
    requires t.blk > 0 && ClientOk(t, c) && k <= Seen(c)
    ensures Content(c.stored[..k]) == t.file[..Least(k * t.blk, |t.file|)]
  {
    if k > 0 {
      ContentUpTo(t, c, k - 1);
      assert c.stored[..k][..k - 1] == c.stored[..k - 1];
      assert c.stored[k - 1].payload == t.Block(k);
      NextBlock(t, k);
    }
  }

  lemma NextBlock(t: Transfer, k: nat)
    requires t.blk > 0 && 1 <= k <= t.Count()
    ensures t.file[..Least((k - 1) * t.blk, |t.file|)] + t.Block(k) == t.file[..Least(k * t.blk, |t.file|)]
  {
    hide Transfer.Count;
    ShortBlock(t, k);
    assert (k - 1) * t.blk + t.blk == k * t.blk;
  }

  /** Safety over every run: what has been stored is the first blocks of the file, each once and in
      order; whatever acknowledgement is under way is for a block that has been stored; the client ends
      exactly when it has the whole file. */
  lemma LockStep(t: Transfer, run: seq<System>, i: nat)
    requires t.Conforming() && IsRun(t, run) && i < |run|
    ensures var c := run[i].client;
      && (forall j :: 0 <= j < |c.stored| ==> c.stored[j].payload == t.Block(j + 1))
      && |c.stored| <= t.Count()
      && (c.done <==> |c.stored| == t.Count())
      && (c.done ==> Content(c.stored) == t.file)
    ensures forall f :: f in run[i].up && f.pkt.Ack? ==>
              exists n :: 0 <= n <= |run[i].client.stored| && f.pkt.num == n % 65536
  {
    RunKeeps(t, run, i);
    ContentOf(t, run[i].client);
    forall f | f in run[i].up && f.pkt.Ack?
      ensures exists n :: 0 <= n <= |run[i].client.stored| && f.pkt.num == n % 65536
    {
      assert f.pkt.num == f.rank % SEQUENCE_SIZE;
    }
  }

  /** The block index handed to `store_block` is the position of the block exactly for the first 65535
      blocks (and, by coincidence, for the last 32-bit position); block 65537 is handed on as index 0
      again, which makes the store start over. */
  lemma IndexIsPosition(t: Transfer, run: seq<System>, i: nat, j: nat)
    requires t.Conforming() && IsRun(t, run) && i < |run| && j < |run[i].client.stored|
    ensures run[i].client.stored[j].index == j <==> j < 65535 || j == 0xFFFF_FFFF
    ensures j == 65536 ==> run[i].client.stored[j].index == 0
  {
    RunKeeps(t, run, i);
  }

  // ------------------------------------------------------------------------------------------------
  // Timeouts, and when a transfer can still be finished.

  /** A client that times out again and again. */
  function TimedOutTimes(c: Client, n: nat): (Client, seq<Packet>) {
    if n == 0 then (c, [])
    else
      var (d, before) := TimedOutTimes(c, n - 1);
      var (e, sent) := TimedOut(d);
      (e, before + sent)
  }

  /** A client that nobody answers sends its request ten times, then never again. */
  lemma {:induction false} TenRequests(leftOver: nat, n: nat)
    ensures var (c, sent) := TimedOutTimes(Started(leftOver), n);
            && |sent| == (if n < 10 then n else 10) && (forall i :: 0 <= i < |sent| ==> sent[i] == Rrq)
            && c == Started(leftOver).(timeoutCount := n)
  {
    if n > 0 {
      TenRequests(leftOver, n - 1);
    }
  }

  ghost predicate IsPath(t: Transfer, path: seq<System>)
    requires t.blk > 0
  {
    path != [] && forall i :: 0 <= i < |path| - 1 ==> Next(t, path[i], path[i + 1])
  }

  /** Some steps lead from `s` to a client that is done. */
  ghost predicate CanFinish(t: Transfer, s: System)
    requires t.blk > 0
  {
    exists path :: FinishedBy(t, s, path)
  }

  ghost predicate FinishedBy(t: Transfer, s: System, path: seq<System>)
    requires t.blk > 0
  {
    IsPath(t, path) && path[0] == s && path[|path| - 1].client.done
  }

  /** One step ahead. */
  lemma StepFinishes(t: Transfer, s: System, s': System)
    requires t.blk > 0 && Next(t, s, s') && CanFinish(t, s')
    ensures CanFinish(t, s)
  {
    hide Next;
    var path :| FinishedBy(t, s', path);
    var longer := [s] + path;
    assert forall i :: 0 < i < |longer| ==> longer[i] == path[i - 1];
    assert FinishedBy(t, s, longer);
  }

  lemma DoneFinishes(t: Transfer, s: System)
    requires t.blk > 0 && s.client.done
    ensures CanFinish(t, s)
  {
    assert FinishedBy(t, s, [s]);
  }

  /** The client answers packet `n` with its acknowledgement, and then has the blocks up to `n`. */
  lemma Answered(t: Transfer, s: System, n: nat) returns (s': System)
    requires t.Conforming() && Inv(t, s) && !s.client.done
    requires s.server == Sending(n) && s.down == [Flight(t.PacketNo(n), n)] && s.up == []
    ensures ClientReceives(t, s, s') && Seen(s'.client) == n
    ensures s'.server == s.server && s'.down == [] && s'.up == [Flight(Ack(n % 65536), n)]
  {
    hide Transfer.Count, Transfer.Block;
    var k := Seen(s.client);
    NextNumberDiffers(k);
    ShortBlock(t, k + 1);
    var (c, sent) := Handled(s.client, s.down[0].pkt, t.port);
    TaggedOne(c, Ack(n % 65536));
    s' := s.(client := c, down := s.down[1..], up := s.up + Tagged(c, sent));
  }

  /** From a packet of the server on, without loss, the transfer runs to its end. */
  lemma {:induction false} Delivering(t: Transfer, s: System, n: nat)
    requires t.Conforming() && Inv(t, s) && !s.client.done
    requires s.server == Sending(n) && s.down == [Flight(t.PacketNo(n), n)] && s.up == []
    ensures CanFinish(t, s)
    decreases t.Count() - n
  {
    hide Transfer.Count, Transfer.Block, Transfer.PacketNo, CanFinish, ClientReceives, Handled, DownOk, UpOk;
    var a := Answered(t, s, n);
    StepKeeps(t, s, a);
    if a.client.done {
      DoneFinishes(t, a);
    } else {
      var b := a.(server := Sending(n + 1), up := [], down := [Flight(t.PacketNo(n + 1), n + 1)]);
      assert n < t.Count();
      assert ServerReceives(t, a, b);
      StepKeeps(t, a, b);
      Delivering(t, b, n + 1);
      StepFinishes(t, a, b);
    }
    StepFinishes(t, s, a);
  }

  /** Whatever is under way may be lost, and then the server begins again with its latest packet. */
  lemma {:induction false} Resumes(t: Transfer, s: System)
    requires t.Conforming() && Inv(t, s) && s.server != Idle
    ensures CanFinish(t, s)
    decreases |s.down| + |s.up|
  {
    hide Transfer.Count, Transfer.Block, Transfer.PacketNo, CanFinish, Handled, DownOk, UpOk;
    if s.client.done {
      DoneFinishes(t, s);
    } else if s.down != [] {
      var a := s.(down := s.down[1..]);
      FirstLost(s.down);
      StepKeeps(t, s, a);
      Resumes(t, a);
      StepFinishes(t, s, a);
    } else if s.up != [] {
      var a := s.(up := s.up[1..]);
      FirstLost(s.up);
      StepKeeps(t, s, a);
      Resumes(t, a);
      StepFinishes(t, s, a);
    } else {
      var n := s.server.n;
      var a := s.(down := [Flight(t.PacketNo(n), n)]);
      assert ServerResends(t, s, a);
      StepKeeps(t, s, a);
      Delivering(t, a, n);
      StepFinishes(t, s, a);
    }
  }

  lemma FirstLost(c: seq<Flight>)
    requires c != []
    ensures Disturbed(c, c[1..])
  {
    assert c[1..] == c[..0] + c[0 + 1..];
  }

  /** The server is idle, no request is under way, and none will be sent. */
  predicate Stranded(s: System) {
    s.server == Idle && s.up == [] && s.client.timeoutCount >= 10
  }

  /** In every reachable state the transfer can still be finished, unless the request has been lost for
      good: after ten timeouts without an answer none is left to send. */
  lemma FinishableExactlyIf(t: Transfer, run: seq<System>, i: nat)
    requires t.Conforming() && IsRun(t, run) && i < |run|
    ensures CanFinish(t, run[i]) <==> !Stranded(run[i])
  {
    hide Transfer.Count, Transfer.Block, Transfer.PacketNo, CanFinish, Handled, DownOk, IsRun;
    var s := run[i];
    RunKeeps(t, run, i);
    if s.server != Idle {
      Resumes(t, s);
    } else if s.up != [] {
      Requested(t, s);
    } else if s.client.timeoutCount < 10 {
      var a := s.(client := s.client.(timeoutCount := s.client.timeoutCount + 1), up := [Flight(Rrq, 0)]);
      TaggedOne(a.client, Rrq);
      assert ClientTimesOut(t, s, a);
      StepKeeps(t, s, a);
      Requested(t, a);
      StepFinishes(t, s, a);
    } else if CanFinish(t, s) {
      NeverFinishes(t, s);
    }
  }

  lemma Requested(t: Transfer, s: System)
    requires t.Conforming() && Inv(t, s) && s.server == Idle && s.up != []
    ensures CanFinish(t, s)
  {
    hide Transfer.Count, Transfer.Block, Transfer.PacketNo, CanFinish, Handled, DownOk;
    var n := FirstNo(t);
    var a := s.(server := Sending(n), up := s.up[1..], down := [Flight(t.PacketNo(n), n)]);
    assert s.up[0].pkt == Rrq;
    assert ServerReceives(t, s, a);
    StepKeeps(t, s, a);
    Resumes(t, a);
    StepFinishes(t, s, a);
  }

  lemma StrandedStays(t: Transfer, s: System, s': System)
    requires t.Conforming() && Inv(t, s) && Stranded(s) && Next(t, s, s')
    ensures Stranded(s') && !s'.client.done
  {
    hide Transfer.Count, Transfer.Block, Transfer.PacketNo, Handled, DownOk, UpOk, Sorted;
  }

  lemma NeverFinishes(t: Transfer, s: System)
    requires t.Conforming() && Inv(t, s) && Stranded(s)
    ensures !CanFinish(t, s)
  {
    hide Next, Inv;
    forall path | FinishedBy(t, s, path)
      ensures false
    {
      StaysStranded(t, path, |path| - 1);
    }
  }

  lemma {:induction false} StaysStranded(t: Transfer, path: seq<System>, i: nat)
    requires t.Conforming() && IsPath(t, path) && Inv(t, path[0]) && Stranded(path[0]) && i < |path|
    ensures Inv(t, path[i]) && Stranded(path[i]) && !path[i].client.done
  {
    hide Next;
    if i > 0 {
      StaysStranded(t, path, i - 1);
      StepKeeps(t, path[i - 1], path[i]);
      StrandedStays(t, path[i - 1], path[i]);
    }
  }

  // ------------------------------------------------------------------------------------------------
  // Without the order of the channel.

  /** Packets delivered one after the other, whatever they are. */
  function Delivered(c: Client, pkts: seq<Packet>): Client {
    if pkts == [] then c else Handled(Delivered(c, pkts[..|pkts| - 1]), pkts[|pkts| - 1], c.serverPort).0
  }

  ghost predicate AllData(pkts: seq<Packet>) {
    forall i :: 0 <= i < |pkts| ==> pkts[i].Data? && pkts[i].num < SEQUENCE_SIZE
  }

  /** The number delivered before packet `i`. */
  function Before(last: nat, pkts: seq<Packet>, i: nat): nat
    requires i < |pkts| && pkts[if i > 0 then i - 1 else 0].Data?
  {
    if i == 0 then last else pkts[i - 1].num
  }

  /** Every delivered number is the one before it or the next one. */
  ghost predicate Steady(last: nat, pkts: seq<Packet>)
    requires AllData(pkts)
  {
    forall i :: 0 <= i < |pkts| ==> SteadyAt(last, pkts, i)
  }

  predicate SteadyAt(last: nat, pkts: seq<Packet>, i: nat)
    requires i < |pkts| && pkts[i].Data? && pkts[if i > 0 then i - 1 else 0].Data?
  {
    pkts[i].num == Before(last, pkts, i) || pkts[i].num == (Before(last, pkts, i) + 1) % SEQUENCE_SIZE
  }

  /** The blocks 1, 2, 3 and so on have been stored, each once, in order. */
  ghost predicate Counted(stored: seq<Stored>) {
    forall j :: 0 <= j < |stored| ==> stored[j].index == BlockIndex((j + 1) % SEQUENCE_SIZE)
  }

  /** The packets that repeat the number before them are not stored, all others are. */
  function Fresh(last: nat, pkts: seq<Packet>): seq<Stored>
    requires AllData(pkts)
  {
    if pkts == [] then []
    else
      var n := |pkts| - 1;
      Fresh(last, pkts[..n]) +
        if pkts[n].num == Before(last, pkts, n) then [] else [Stored(BlockIndex(pkts[n].num), pkts[n].payload)]
  }

  /** What a client that is receiving data stores of any packets. */
  lemma {:induction false} DeliveredIs(c: Client, pkts: seq<Packet>)
    requires AllData(pkts) && c.state == STATE_DATA
    ensures var d := Delivered(c, pkts);
            d.state == STATE_DATA && d.serverPort == c.serverPort && d.stored == c.stored + Fresh(c.lastBlock, pkts)
            && d.lastBlock == if pkts == [] then c.lastBlock else pkts[|pkts| - 1].num
  {
    if pkts != [] {
      DeliveredIs(c, pkts[..|pkts| - 1]);
    }
  }

  lemma NumberOfIndex(a: nat, b: nat)
    requires a < SEQUENCE_SIZE && b < SEQUENCE_SIZE
    ensures BlockIndex(a) == BlockIndex(b) <==> a == b
  {
  }

  /** One packet more. */
  lemma CountedNext(stored: seq<Stored>, num: nat, payload: Bytes)
    requires Counted(stored) && num < SEQUENCE_SIZE
    ensures Counted(stored + [Stored(BlockIndex(num), payload)]) <==> num == (|stored| + 1) % SEQUENCE_SIZE
  {
    var s := stored + [Stored(BlockIndex(num), payload)];
    NumberOfIndex(num, (|stored| + 1) % SEQUENCE_SIZE);
    assert s[|stored|].index == BlockIndex(num);
  }

  lemma CountedPrefix(stored: seq<Stored>, more: seq<Stored>)
    requires Counted(stored + more)
    ensures Counted(stored)
  {
    assert forall j :: 0 <= j < |stored| ==> (stored + more)[j] == stored[j];
  }

  lemma SteadyNext(last: nat, pkts: seq<Packet>)
    requires AllData(pkts) && pkts != []
    ensures var n := |pkts| - 1; AllData(pkts[..n]) && (Steady(last, pkts) <==> Steady(last, pkts[..n]) && SteadyAt(last, pkts, n))
  {
    var n := |pkts| - 1;
    forall i | 0 <= i < n
      ensures SteadyAt(last, pkts[..n], i) == SteadyAt(last, pkts, i)
    {
      assert pkts[..n][i] == pkts[i] && (i > 0 ==> pkts[..n][i - 1] == pkts[i - 1]);
    }
  }

  /** A receiving client keeps storing the blocks in order, each once, if and only if every packet that
      reaches it repeats the one before or is the next one. */
  lemma {:induction false} InOrderExactlyIfSteady(c: Client, pkts: seq<Packet>)
    requires AllData(pkts) && c.state == STATE_DATA
    requires c.stored != [] && Counted(c.stored) && c.lastBlock == |c.stored| % SEQUENCE_SIZE
    ensures Counted(Delivered(c, pkts).stored) <==> Steady(c.lastBlock, pkts)
    ensures Steady(c.lastBlock, pkts) ==> Delivered(c, pkts).lastBlock == |Delivered(c, pkts).stored| % SEQUENCE_SIZE
  {
    hide Steady, SteadyAt, Counted, BlockIndex, Handled;
    DeliveredIs(c, pkts);
    if pkts == [] {
      NothingIsSteady(c.lastBlock);
    } else {
      var n := |pkts| - 1;
      var d, p := Delivered(c, pkts[..n]), pkts[n];
      InOrderExactlyIfSteady(c, pkts[..n]);
      DeliveredIs(c, pkts[..n]);
      SteadyNext(c.lastBlock, pkts);
      OnePacket(c, pkts);
    }
  }

  lemma NothingIsSteady(last: nat)
    ensures Steady(last, [])
  {
  }

  lemma OnePacket(c: Client, pkts: seq<Packet>)
    requires AllData(pkts) && c.state == STATE_DATA && pkts != []
    requires var d := Delivered(c, pkts[..|pkts| - 1]);
      && d.stored == c.stored + Fresh(c.lastBlock, pkts[..|pkts| - 1])
      && (Counted(d.stored) ==> d.lastBlock == |d.stored| % SEQUENCE_SIZE)
      && d.lastBlock == Before(c.lastBlock, pkts, |pkts| - 1)
    ensures var d, e := Delivered(c, pkts[..|pkts| - 1]), Delivered(c, pkts);
            Counted(e.stored) <==> Counted(d.stored) && SteadyAt(c.lastBlock, pkts, |pkts| - 1)
    ensures var e := Delivered(c, pkts); Counted(e.stored) ==> e.lastBlock == |e.stored| % SEQUENCE_SIZE
  {
    hide Counted, BlockIndex;
    var n := |pkts| - 1;
    var d, p := Delivered(c, pkts[..n]), pkts[n];
    DeliveredIs(c, pkts[..n]);
    if p.num != d.lastBlock {
      var e := d.stored + [Stored(BlockIndex(p.num), p.payload)];
      assert Delivered(c, pkts).stored == e;
      if Counted(e) {
        CountedPrefix(d.stored, [Stored(BlockIndex(p.num), p.payload)]);
      }
      if Counted(d.stored) {
        CountedNext(d.stored, p.num, p.payload);
        NextModulo(|d.stored|);
      }
    }
  }

  lemma NextModulo(n: nat)
    ensures (n % SEQUENCE_SIZE + 1) % SEQUENCE_SIZE == (n + 1) % SEQUENCE_SIZE
  {
  }

  // A channel that may also exchange two packets.

  ghost predicate Exchanged(c: seq<Flight>, d: seq<Flight>) {
    exists i :: 0 <= i < |c| - 1 && d == c[..i] + [c[i + 1], c[i]] + c[i + 2..]
  }

  ghost predicate LooseNext(t: Transfer, s: System, s': System)
    requires t.blk > 0
  {
    Next(t, s, s') || (Exchanged(s.down, s'.down) && s' == s.(down := s'.down))
  }

  ghost predicate IsLooseRun(t: Transfer, run: seq<System>)
    requires t.blk > 0
  {
    run != [] && Init(t, run[0]) && forall i :: 0 <= i < |run| - 1 ==> LooseNext(t, run[i], run[i + 1])
  }

  /** The client of the run below after it has stored the given blocks. */
  function Receiving(t: Transfer, block: nat, last: nat, stored: seq<Stored>): Client {
    Client(STATE_DATA, t.port, block, last, DEFAULT_BLK, 0, stored, false)
  }

  /** Block 1 is delivered twice, the second time after block 2. */
  function StaleRun(t: Transfer): (run: seq<System>)
    requires t.blk > 0
    ensures |run| == 9
  {
    var b1, b2 := Flight(t.PacketNo(1), 1), Flight(t.PacketNo(2), 2);
    var s1, s2 := Stored(0, t.Block(1)), Stored(1, t.Block(2));
    var c0 := Started(0);
    [ System(c0, Idle, [], []),
      System(c0.(timeoutCount := 1), Idle, [], [Flight(Rrq, 0)]),
      System(c0.(timeoutCount := 1), Sending(1), [b1], []),
      System(c0.(timeoutCount := 1), Sending(1), [b1, b1], []),
      System(Receiving(t, 1, 1, [s1]).(timeoutCount := 1), Sending(1), [b1], [Flight(Ack(1), 1)]),
      System(Receiving(t, 1, 1, [s1]).(timeoutCount := 1), Sending(2), [b1, b2], []),
      System(Receiving(t, 1, 1, [s1]).(timeoutCount := 1), Sending(2), [b2, b1], []),
      System(Receiving(t, 2, 2, [s1, s2]).(timeoutCount := 1), Sending(2), [b1], [Flight(Ack(2), 2)]),
      System(Receiving(t, 1, 1, [s1, s2, s1]).(timeoutCount := 1), Sending(2), [], [Flight(Ack(2), 2), Flight(Ack(1), 3)]) ]
  }

  /** Order matters: for every file of at least three blocks a channel that exchanges two packets once
      can make the client store block 1 a second time, behind block 2. */
  lemma StaleBlockIsStored(t: Transfer)
    requires t.Conforming() && !t.options && t.Count() > 2
    ensures IsLooseRun(t, StaleRun(t))
    ensures var stored := StaleRun(t)[8].client.stored;
            stored == [Stored(0, t.Block(1)), Stored(1, t.Block(2)), Stored(0, t.Block(1))] && !Counted(stored)
  {
    hide Transfer.Block, Transfer.Count, Transfer.PacketNo, LooseNext, Counted;
    StaleBegins(t);
    StaleGoesOn(t);
    StaleEnds(t);
    var run := StaleRun(t);
    forall i | 0 <= i < 8
      ensures LooseNext(t, run[i], run[i + 1])
    {
      assert i == 0 || i == 1 || i == 2 || i == 3 || i == 4 || i == 5 || i == 6 || i == 7;
    }
    assert !Counted(run[8].client.stored) by { ThirdIsNotThird(run[8].client.stored); }
  }

  lemma TaggedOne(c: Client, p: Packet)
    ensures Tagged(c, [p]) == [Flight(p, Seen(c))]
  {
  }

  lemma ThirdIsNotThird(stored: seq<Stored>)
    requires |stored| > 2 && stored[2].index == 0
    ensures !Counted(stored)
  {
  }

  lemma StaleBegins(t: Transfer)
    requires t.Conforming() && !t.options && t.Count() > 2
    ensures var run := StaleRun(t); LooseNext(t, run[0], run[1]) && LooseNext(t, run[1], run[2]) && LooseNext(t, run[2], run[3])
  {
    hide Transfer.Block, Transfer.Count, Transfer.PacketNo;
    var run := StaleRun(t);
    assert ClientTimesOut(t, run[0], run[1]) by { TaggedOne(run[1].client, Rrq); }
    assert ServerReceives(t, run[1], run[2]);
    assert Disturbed(run[2].down, run[3].down) by {
      var c := run[2].down;
      assert run[3].down == c[..0] + [c[0]] + c[0..];
    }
  }

  lemma StaleGoesOn(t: Transfer)
    requires t.Conforming() && !t.options && t.Count() > 2
    ensures var run := StaleRun(t); LooseNext(t, run[3], run[4]) && LooseNext(t, run[4], run[5]) && LooseNext(t, run[5], run[6])
  {
    hide Transfer.Block, Transfer.Count;
    var run := StaleRun(t);
    ShortBlock(t, 1);
    var (c, sent) := Handled(run[3].client, run[3].down[0].pkt, t.port);
    assert c.stored == run[4].client.stored && sent == [Ack(1)];
    assert ClientReceives(t, run[3], run[4]) by { TaggedOne(c, Ack(1)); }
    assert ServerReceives(t, run[4], run[5]);
    assert Exchanged(run[5].down, run[6].down) by {
      var c := run[5].down;
      assert run[6].down == c[..0] + [c[1], c[0]] + c[2..];
    }
  }

  lemma StaleEnds(t: Transfer)
    requires t.Conforming() && !t.options && t.Count() > 2
    ensures var run := StaleRun(t); LooseNext(t, run[6], run[7]) && LooseNext(t, run[7], run[8])
  {
    hide Transfer.Block, Transfer.Count;
    var run := StaleRun(t);
    ShortBlock(t, 1);
    ShortBlock(t, 2);
    var (c, sent) := Handled(run[6].client, run[6].down[0].pkt, t.port);
    assert c.stored == run[7].client.stored && sent == [Ack(2)];
    assert ClientReceives(t, run[6], run[7]) by { TaggedOne(c, Ack(2)); }
    var (d, more) := Handled(run[7].client, run[7].down[0].pkt, t.port);
    assert d.stored == run[8].client.stored && more == [Ack(1)];
    assert ClientReceives(t, run[7], run[8]) by { TaggedOne(d, Ack(1)); }
  }
}

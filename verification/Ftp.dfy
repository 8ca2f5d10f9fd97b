/** The data connection of the FTP server (beken378/app/ftp/ftpd.c): files and listings go through a byte
    queue to a TCP connection that may refuse any piece.  The connection's answers, the room in its send
    buffer and the number of bytes a read of the file gives are inputs. */
module Ftp {
  import opened Numbers
  import opened RingQueue
  import opened RingBuffer
  import opened Sfifo
  import opened Pieces

  function U16(x: int): nat {
    x % 0x1_0000
  }

  lemma NotCut(n: nat)
    requires n < 0x1_0000
    ensures U16(n) == n
  {
  }

  /** A TCP connection: what it has accepted. */
  class Pcb {
    var accepted: seq<bv8>

    constructor ()
      ensures accepted == []
    {
      accepted := [];
    }

    /** `tcp_write`. */
    method Write(d: seq<bv8>, ok: bool) returns (err: bool)
      modifies this
      ensures err == !ok && accepted == old(accepted) + (if ok then d else [])
    {
      if ok {
        accepted := accepted + d;
      }
      err := !ok;
    }
  }

  /** The connection's side of one callback: room in its send buffer, and whether it accepts the first
      and the second piece. */
  datatype Window = Window(sndbuf: nat, first: bool, second: bool)

  predicate Open(w: Window) {
    w.first && w.second
  }

  /** Moving the read position on by `n` takes the first `n` bytes of the queue, which lie side by side
      from it on. */
  lemma Advanced(b: seq<bv8>, k: nat, r: nat, w: nat, n: nat, to: nat)
    requires k <= 31 && |b| == Pow2(k) && r <= |b| && w <= |b| && to <= |b|
    requires n <= Used(|b|, r, w) && (to == r + n || (to == 0 && r + n == |b|))
    ensures Used(|b|, to, w) == Used(|b|, r, w) - n && Used(|b|, r, w) < |b|
    ensures Queue(b, Norm(to, |b|), Used(|b|, r, w) - n) == Queue(b, Norm(r, |b|), Used(|b|, r, w))[n..]
    ensures b[r..r + n] == Queue(b, Norm(r, |b|), Used(|b|, r, w))[..n]
  {
    hide Used, Pow2;
    UsedIsDistance(k, r, w);
    UsedIsDistance(k, to, w);
    var o, used := Norm(r, |b|), Used(|b|, r, w);
    assert Norm(to, |b|) == Slot(o, n, |b|);
    AdvanceDrops(b, o, used, n);
    SlotsAreOne(|b|, o, n, used - n, used);
    Rest(|b|, o, n, used, Used(|b|, to, w));
  }

  lemma Rest(size: nat, o: nat, n: nat, used: nat, left: nat)
    requires o < size && n <= used < size && left < size && Slot(Slot(o, n, size), left, size) == Slot(o, used, size)
    ensures left == used - n
  {
  }

  /** The first `n` bytes of the queue `c` have gone behind the accepted bytes `a`. */
  predicate Passed(a: seq<bv8>, c: seq<bv8>, a': seq<bv8>, c': seq<bv8>, n: nat) {
    n <= |c| && a' == a + c[..n] && c' == c[n..]
  }

  lemma PassedNothing(a: seq<bv8>, c: seq<bv8>)
    ensures Passed(a, c, a, c, 0)
  {
  }

  lemma PassedTwice(a: seq<bv8>, c: seq<bv8>, a': seq<bv8>, c': seq<bv8>, a'': seq<bv8>, c'': seq<bv8>, m: nat, n: nat)
    requires Passed(a, c, a', c', m) && Passed(a', c', a'', c'', n)
    ensures |c'| == |c| - m && Passed(a, c, a'', c'', m + n)
  {
    assert c[..m] + c[m..][..n] == c[..m + n];
  }

  lemma Bounds(fifo: Fifo)
    requires fifo.Valid()
    ensures fifo.readpos <= fifo.size && fifo.writepos <= fifo.size
    ensures fifo.Contents() != [] ==> fifo.buffer != null
  {
  }

  /** One `tcp_write` of the `len` bytes at the read position; if they are accepted the position moves
      to `to`. */
  method Offer(fifo: Fifo, pcb: Pcb, len: nat, to: nat, ok: bool) returns (err: bool)
    requires fifo.Valid() && fifo.buffer != null && len <= |fifo.Contents()|
    requires to <= fifo.size && (to == fifo.readpos + len || (to == 0 && fifo.readpos + len == fifo.size))
    modifies fifo`readpos, pcb
    ensures fifo.Valid() && err == !ok && fifo.readpos == (if ok then to else old(fifo.readpos))
    ensures Passed(old(pcb.accepted), old(fifo.Contents()), pcb.accepted, fifo.Contents(), if ok then len else 0)
  {
    hide Used, Pow2, Queue, Slot, Norm;
    var i := fifo.readpos;
    ghost var k: nat :| k <= 30 && fifo.size == Pow2(k);
    Advanced(fifo.buffer[..], k, i, fifo.writepos, len, to);
    err := pcb.Write(fifo.buffer[..][i..i + len], ok);
    if !err {
      fifo.readpos := to;
    }
  }

  /** `send_data` and `send_msgdata`: the head of the queue moves to the connection.  Whatever is
      refused stays.  `w.second` is the answer to a second piece, if there is one. */
  method SendData(fifo: Fifo, pcb: Pcb, w: Window) returns (ghost sent: nat)
    requires fifo.Valid() && w.sndbuf < 0x1_0000
    modifies fifo`readpos, pcb
    ensures fifo.Valid() && Passed(old(pcb.accepted), old(fifo.Contents()), pcb.accepted, fifo.Contents(), sent)
    ensures Open(w) ==> sent == Min(w.sndbuf, |old(fifo.Contents())|)
    ensures !w.first ==> sent == 0
  {
    hide Fifo.Valid, Fifo.Contents, Passed, U16, Used;
    ghost var a, c := pcb.accepted, fifo.Contents();
    PassedNothing(a, c);
    Bounds(fifo);
    sent := 0;
    var used := fifo.GetUsed();
    if used > 0 {
      var len: nat;
      if w.sndbuf < used {
        len := w.sndbuf;
      } else {
        NotCut(used);
        len := U16(used);
      }
      var i, ok := fifo.readpos, w.first;
      if i + len > fifo.size {
        NotCut(fifo.size - i);
        var err := Offer(fifo, pcb, U16(fifo.size - i), 0, w.first);
        if err {
          return;
        }
        sent := fifo.size - i;
        len := len - (fifo.size - i);
        i, ok := 0, w.second;
      }
      ghost var a', c' := pcb.accepted, fifo.Contents();
      assert |c'| == |c| - sent by { PassedTwice(a, c, a', c', a', c', sent, 0) by { PassedNothing(a', c'); } }
      var err := Offer(fifo, pcb, len, i + len, ok);
      if err {
        PassedTwice(a, c, a', c', pcb.accepted, fifo.Contents(), sent, 0);
        return;
      }
      PassedTwice(a, c, a', c', pcb.accepted, fifo.Contents(), sent, len);
      sent := sent + len;
    }
  }

  const CRLF: seq<bv8> := [13, 10]

  /** `send_msg` on the control connection, the reply being formatted already: a reply goes behind the
      earlier ones as a whole, or, where it does not fit, is dropped without a trace. */
  method SendMsg(fifo: Fifo, pcb: Pcb, reply: seq<bv8>, w: Window) returns (queued: bool, ghost sent: nat)
    requires fifo.Valid() && |reply| < 1022 && w.sndbuf < 0x1_0000
    modifies fifo`readpos, fifo`writepos, fifo.buffer, pcb
    ensures fifo.Valid() && queued == (fifo.buffer != null && |reply| + 2 < fifo.size - |old(fifo.Contents())|)
    ensures queued ==> Passed(old(pcb.accepted), old(fifo.Contents()) + (reply + [13, 10]), pcb.accepted, fifo.Contents(), sent)
    ensures !queued ==> pcb.accepted == old(pcb.accepted) && fifo.Contents() == old(fifo.Contents())
  {
    hide Fifo.Valid, Fifo.Contents, Used;
    Bounds(fifo);
    var line := reply + CRLF;
    var space := fifo.Space();
    queued, sent := false, 0;
    if space < |line| {
      return;
    }
    var total := fifo.Write(line);
    WholeIsPrefix(line);
    Bounds(fifo);
    sent := SendData(fifo, pcb, w);
    queued := fifo.buffer != null;
  }

  // ------------------------------------------------------------------------------------------------
  // Sending a file (RETR).

  const CHUNK := 2048

  /** `held` is whether the queue has a buffer; `content` is the file; `done` is whether 226 has been
      sent. */
  datatype File = File(size: nat, held: bool, accepted: seq<bv8>, queued: seq<bv8>, content: seq<bv8>,
                       offset: nat, open: bool, done: bool)

  function Started(size: nat, held: bool, content: seq<bv8>): File {
    File(size, held, [], [], content, 0, true, false)
  }

  function Space(size: nat, queued: seq<bv8>): nat {
    if size > |queued| then size - 1 - |queued| else 0
  }

  /** How much a callback asks of the file. */
  function Asked(f: File): nat {
    Min(Space(f.size, f.queued), CHUNK)
  }

  /** Never more than fits the queue or 2048 bytes. */
  lemma AskedIs(f: File)
    requires |f.queued| < f.size
    ensures Asked(f) == if f.size - 1 - |f.queued| < 2048 then f.size - 1 - |f.queued| else 2048
  {
  }

  function Left(f: File): nat {
    if f.offset <= |f.content| then |f.content| - f.offset else 0
  }

  /** The queue once `k` bytes have been read. */
  function AfterRead(f: File, k: nat): File
    requires k <= Left(f)
  {
    f.(offset := f.offset + k,
       queued := if k > 0 && f.held then f.queued + f.content[f.offset..f.offset + k] else f.queued)
  }

  function Sent(f: File, n: nat): File {
    if n <= |f.queued| then f.(accepted := f.accepted + f.queued[..n], queued := f.queued[n..]) else f
  }

  /** One callback, in which the file gives `k` bytes and the connection accepts `n`. */
  function FileStep(f: File, k: nat, n: nat): File
    requires k <= Left(f)
  {
    if f.open then
      if Space(f.size, f.queued) == 0 then Sent(f, n)
      else if k == 0 then f.(open := Left(f) > 0)
      else Sent(AfterRead(f, k), n)
    else if f.queued != [] then Sent(f, n)
    else f.(done := true)
  }

  /** What is queued when the connection is asked. */
  function Offered(f: File, k: nat): seq<bv8>
    requires k <= Left(f)
  {
    if f.open && Space(f.size, f.queued) > 0 then AfterRead(f, k).queued else f.queued
  }

  /** Whether the connection is asked at all. */
  predicate Asking(f: File, k: nat) {
    if f.open then Space(f.size, f.queued) == 0 || k > 0 else f.queued != []
  }

  ghost predicate FileNext(f: File, f': File) {
    !f.done && exists k: nat, n: nat :: k <= Min(Asked(f), Left(f)) && n <= |Offered(f, k)| && f' == FileStep(f, k, n)
  }

  ghost predicate FileRun(run: seq<File>) {
    && run != [] && (exists size: nat, held: bool, content: seq<bv8> :: size > 1 && run[0] == Started(size, held, content))
    && forall i :: 0 <= i < |run| - 1 ==> FileNext(run[i], run[i + 1])
  }

  /** Accepted and queued bytes are the file as far as it was read; 226 comes after the last one is
      accepted. */
  predicate FileInv(f: File) {
    && |f.queued| < f.size && f.offset <= |f.content|
    && (if f.held then f.accepted + f.queued == f.content[..f.offset] else f.accepted == f.queued == [])
    && (!f.open ==> f.offset == |f.content|)
    && (f.done ==> !f.open && f.queued == [])
  }

  lemma TakenKeeps(f: File, k: nat)
    requires FileInv(f) && k <= Left(f) && k <= Space(f.size, f.queued) && f.open
    ensures FileInv(AfterRead(f, k))
  {
    var m := f.offset;
    assert f.content[..m] + f.content[m..m + k] == f.content[..m + k];
    assert (f.accepted + f.queued) + f.content[m..m + k] == f.accepted + (f.queued + f.content[m..m + k]);
  }

  lemma SentKeeps(f: File, n: nat)
    requires FileInv(f) && !f.done
    ensures FileInv(Sent(f, n))
  {
    if n <= |f.queued| {
      assert f.accepted + f.queued == (f.accepted + f.queued[..n]) + f.queued[n..];
    }
  }

  lemma FileStepKeeps(f: File, k: nat, n: nat)
    requires FileInv(f) && !f.done && k <= Left(f) && k <= Asked(f)
    ensures FileInv(FileStep(f, k, n))
    ensures var g := FileStep(f, k, n); g.content == f.content && g.held == f.held && g.size == f.size
  {
    hide Sent, Min;
    SentKeeps(f, n);
    SentSame(f, n);
    if f.open {
      TakenKeeps(f, k);
      SentKeeps(AfterRead(f, k), n);
      SentSame(AfterRead(f, k), n);
    }
  }

  lemma SentSame(f: File, n: nat)
    ensures var g := Sent(f, n); g.content == f.content && g.held == f.held && g.size == f.size
  {
  }

  /** Over every run, whatever the connection refuses and however little the file gives: no byte is
      lost, doubled or moved, and 226 is sent only when the whole file has been accepted, provided the
      queue has a buffer.  Without one, nothing is ever accepted. */
  lemma {:induction false} FileConserved(run: seq<File>, i: nat)
    requires FileRun(run) && i < |run|
    ensures FileInv(run[i]) && run[i].content == run[0].content && run[i].held == run[0].held && run[i].size == run[0].size
    ensures run[i].held ==> run[i].accepted + run[i].queued == run[i].content[..run[i].offset]
    ensures run[i].done ==> (run[i].accepted == run[i].content <==> run[i].held || run[i].content == [])
  {
    hide FileStep, Min, Space, Left, Offered;
    if i > 0 {
      FileConserved(run, i - 1);
      var f := run[i - 1];
      assert FileNext(run[i - 1], run[i]);
      var k: nat, n: nat :| k <= Min(Asked(f), Left(f)) && n <= |Offered(f, k)| && run[i] == FileStep(f, k, n);
      FileStepKeeps(f, k, n);
    }
    if run[i].done {
      assert run[i].content[..|run[i].content|] == run[i].content;
      assert run[i].accepted + [] == run[i].accepted;
    }
  }

  /** A callback in which the file gives what it can and the connection accepts something of what it
      is offered. */
  predicate Good(f: File, k: nat, n: nat) {
    && k <= Min(Asked(f), Left(f)) && n <= |Offered(f, k)|
    && (f.open && Asked(f) > 0 && Left(f) > 0 ==> k > 0)
    && (Offered(f, k) != [] ==> n > 0)
  }

  function Distance(f: File): int {
    |f.content| - |f.accepted| + Left(f) + (if f.open then 1 else 0) + (if f.done then 0 else 1)
  }

  /** Every good callback brings the end of the transfer nearer: at most twice the file's length and two
      of them are needed. */
  lemma FileProgress(f: File, k: nat, n: nat)
    requires FileInv(f) && f.held && f.size > 1 && !f.done && Good(f, k, n)
    ensures 0 <= Distance(FileStep(f, k, n)) < Distance(f)
    ensures Distance(Started(f.size, true, f.content)) == 2 * |f.content| + 2
  {
    hide Sent;
    FileStepKeeps(f, k, n);
    assert |f.accepted| + |f.queued| == f.offset by { assert |f.accepted + f.queued| == f.offset; }
    if f.open {
      TakenKeeps(f, k);
      SentMore(AfterRead(f, k), n);
    }
    if n <= |f.queued| {
      SentMore(f, n);
    }
    var g := FileStep(f, k, n);
    assert |g.accepted| <= g.offset by { assert |g.accepted + g.queued| == g.offset; }
  }

  lemma SentMore(f: File, n: nat)
    requires n <= |f.queued|
    ensures |Sent(f, n).accepted| == |f.accepted| + n
    ensures Sent(f, n) == f.(accepted := Sent(f, n).accepted, queued := Sent(f, n).queued)
  {
  }

  /** The data connection while a file is sent. */
  class FileTransfer {
    const fifo: Fifo
    const pcb: Pcb
    const content: seq<bv8>
    var connected: bool
    var offset: nat
    var open: bool
    var done: bool

    ghost predicate Valid()
      reads this, fifo, fifo.buffer
    {
      fifo.Valid() && offset <= |content|
    }

    ghost function View(): File
      requires Valid()
      reads this, fifo, fifo.buffer, pcb
    {
      File(fifo.size, fifo.buffer != null, pcb.accepted, fifo.Contents(), content, offset, open, done)
    }

    constructor (request: int, memory: bool, file: seq<bv8>)
      requires -0x8000_0000 <= request < 0x4000_0000
      ensures Valid() && View() == Started(fifo.size, memory, file) && fifo.size > request && !connected
    {
      fifo := new Fifo(request, memory);
      pcb := new Pcb();
      content := file;
      connected, offset, open, done := false, 0, true, false;
    }

    /** `vfs_read` and `sfifo_write`: the file gives `k` bytes of those asked for. */
    method ReadFile(k: nat) returns (len: nat)
      requires Valid() && k <= Min(Asked(View()), Left(View()))
      modifies this`offset, fifo`writepos, fifo.buffer
      ensures len == k && Valid() && View() == AfterRead(old(View()), k)
    {
      hide Fifo.Valid, Fifo.Contents, Used;
      var data := content[offset..offset + k];
      offset := offset + k;
      len := |data|;
      if len > 0 {
        var total := fifo.Write(data);
        WholeIsPrefix(data);
      }
    }

    /** `send_data`. */
    method Pump(w: Window) returns (ghost sent: nat)
      requires Valid() && w.sndbuf < 0x1_0000
      modifies fifo`readpos, pcb
      ensures Valid() && sent <= |old(View()).queued| && View() == Sent(old(View()), sent)
      ensures Open(w) ==> sent == Min(w.sndbuf, |old(View()).queued|)
    {
      hide Fifo.Valid, Fifo.Contents, Used;
      sent := SendData(fifo, pcb, w);
    }

    /** `send_file`: a step of the run above. */
    method SendFile(k: nat, w: Window) returns (ghost sent: nat)
      requires Valid() && !done && w.sndbuf < 0x1_0000 && k <= Min(Asked(View()), Left(View()))
      modifies this`offset, this`open, this`done, fifo`readpos, fifo`writepos, fifo.buffer, pcb
      ensures Valid() && sent <= |Offered(old(View()), k)|
      ensures View() == if connected then FileStep(old(View()), k, sent) else old(View())
      ensures connected && Open(w) && Asking(old(View()), k) ==> sent == Min(w.sndbuf, |Offered(old(View()), k)|)
    {
      hide Fifo.Valid, Fifo.Contents, Used, Sent, AfterRead;
      sent := 0;
      if !connected {
        return;
      }
      if open {
        var len := fifo.Space();
        if len == 0 {
          sent := Pump(w);
          return;
        }
        len := ReadFile(k);
        if len == 0 {
          NothingRead(old(View()));
          if offset < |content| {
            return;
          }
          open := false;
          return;
        }
        sent := Pump(w);
      } else {
        var used := fifo.GetUsed();
        if used > 0 {
          sent := Pump(w);
          return;
        }
        done := true;
      }
    }
  }

  lemma WholeIsPrefix(d: seq<bv8>)
    ensures d[..|d|] == d
  {
  }

  lemma NothingRead(f: File)
    ensures AfterRead(f, 0) == f
  {
  }

  // ------------------------------------------------------------------------------------------------
  // Sending a listing (LIST and NLST).

  /** `lines` are the formatted entries in the order the directory gives them, `next` is the first that
      is not yet queued. */
  datatype Listing = Listing(size: nat, held: bool, accepted: seq<bv8>, queued: seq<bv8>, lines: seq<seq<bv8>>,
                             next: nat, done: bool)

  function Listed(size: nat, held: bool, lines: seq<seq<bv8>>): Listing {
    Listing(size, held, [], [], lines, 0, false)
  }

  /** The lines that fit are queued. */
  function Filled(l: Listing): Listing
    decreases |l.lines| - l.next
  {
    if l.next < |l.lines| && |l.lines[l.next]| <= Space(l.size, l.queued) then Filled(OneMore(l)) else l
  }

  function OneMore(l: Listing): Listing
    requires l.next < |l.lines|
  {
    l.(queued := if l.held then l.queued + l.lines[l.next] else l.queued, next := l.next + 1)
  }

  function Out(l: Listing, n: nat): Listing {
    if n <= |l.queued| then l.(accepted := l.accepted + l.queued[..n], queued := l.queued[n..]) else l
  }

  /** One callback, in which the connection accepts `n` bytes. */
  function ListStep(l: Listing, n: nat): Listing {
    var f := Filled(l);
    if f.next < |f.lines| || f.queued != [] then Out(f, n) else f.(done := true)
  }

  ghost predicate ListNext(l: Listing, l': Listing) {
    !l.done && exists n: nat :: n <= |Filled(l).queued| && l' == ListStep(l, n)
  }

  ghost predicate ListRun(run: seq<Listing>) {
    && run != []
    && (exists size: nat, held: bool, lines: seq<seq<bv8>> :: size > 1 && run[0] == Listed(size, held, lines))
    && forall i :: 0 <= i < |run| - 1 ==> ListNext(run[i], run[i + 1])
  }

  ghost predicate ListInv(l: Listing) {
    && |l.queued| < l.size && l.next <= |l.lines|
    && (if l.held then l.accepted + l.queued == Flatten(l.lines[..l.next]) else l.accepted == l.queued == [])
    && (l.done ==> l.next == |l.lines| && l.queued == [])
  }

  lemma OneMoreKeeps(l: Listing)
    requires ListInv(l) && !l.done && l.next < |l.lines| && |l.lines[l.next]| <= Space(l.size, l.queued)
    ensures ListInv(OneMore(l))
  {
    FlattenNext(l.lines, l.next);
    assert (l.accepted + l.queued) + l.lines[l.next] == l.accepted + (l.queued + l.lines[l.next]);
  }

  lemma {:induction false} FilledKeeps(l: Listing)
    requires ListInv(l) && !l.done
    ensures ListInv(Filled(l))
    ensures var f := Filled(l);
            f == l.(queued := f.queued, next := f.next) && l.next <= f.next
            && (f.next < |f.lines| ==> |f.lines[f.next]| > Space(f.size, f.queued))
    decreases |l.lines| - l.next
  {
    hide ListInv;
    assert l.next <= |l.lines| by { NextInside(l); }
    if l.next < |l.lines| && |l.lines[l.next]| <= Space(l.size, l.queued) {
      OneMoreKeeps(l);
      FilledKeeps(OneMore(l));
    }
  }

  lemma NextInside(l: Listing)
    requires ListInv(l)
    ensures l.next <= |l.lines| && |l.queued| < l.size
  {
  }

  lemma ListStepKeeps(l: Listing, n: nat)
    requires ListInv(l) && !l.done
    ensures ListInv(ListStep(l, n))
  {
    hide Filled;
    FilledKeeps(l);
    var f := Filled(l);
    if n <= |f.queued| {
      assert f.accepted + f.queued == (f.accepted + f.queued[..n]) + f.queued[n..];
    }
  }

  /** Over every run: no byte of the listing is lost, doubled or moved, and 226 is sent only when the
      whole listing has been accepted, provided the queue has a buffer.  Without one, nothing ever is. */
  lemma {:induction false} ListConserved(run: seq<Listing>, i: nat)
    requires ListRun(run) && i < |run|
    ensures ListInv(run[i]) && run[i].lines == run[0].lines && run[i].held == run[0].held && run[i].size == run[0].size
    ensures run[i].held ==> run[i].accepted + run[i].queued == Flatten(run[i].lines[..run[i].next])
    ensures run[i].done ==> (run[i].accepted == Flatten(run[i].lines) <==> run[i].held || Flatten(run[i].lines) == [])
  {
    hide Filled, Flatten;
    if i > 0 {
      ListConserved(run, i - 1);
      assert ListNext(run[i - 1], run[i]);
      var n: nat :| n <= |Filled(run[i - 1]).queued| && run[i] == ListStep(run[i - 1], n);
      ListStepKeeps(run[i - 1], n);
      FilledKeeps(run[i - 1]);
    } else {
      FlattenNothing();
      assert run[0].lines[..0] == [];
    }
    if run[i].done {
      assert run[i].lines[..|run[i].lines|] == run[i].lines;
      assert run[i].accepted + [] == run[i].accepted;
    }
  }

  function ListDistance(l: Listing): int {
    |Flatten(l.lines)| - |l.accepted| + |l.lines| - l.next + (if l.done then 0 else 1)
  }

  /** Every callback in which the connection accepts something of what it is offered brings the end of
      the listing nearer, provided every line fits an empty queue. */
  lemma ListProgress(l: Listing, n: nat)
    requires ListInv(l) && l.held && !l.done && n <= |Filled(l).queued| && (Filled(l).queued != [] ==> n > 0)
    requires forall i :: 0 <= i < |l.lines| ==> |l.lines[i]| < l.size
    ensures ListDistance(ListStep(l, n)) < ListDistance(l)
  {
    hide Filled, Flatten;
    FilledKeeps(l);
    var f := Filled(l);
    if f.next < |f.lines| {
      assert |f.lines[f.next]| > Space(f.size, f.queued);
      assert f.queued != [];
    }
  }

  /** A line as long as the queue or longer is never sent: the listing stands still for ever. */
  lemma {:induction false} LongLineBlocks(run: seq<Listing>, i: nat, at: nat)
    requires ListRun(run) && i < |run| && at < |run[0].lines| && |run[0].lines[at]| >= run[0].size
    ensures run[i].next <= at && !run[i].done
  {
    hide ListStep, Filled, Flatten, ListInv;
    if i > 0 {
      LongLineBlocks(run, i - 1, at);
      ListConserved(run, i - 1);
      assert ListNext(run[i - 1], run[i]);
      var n: nat :| n <= |Filled(run[i - 1]).queued| && run[i] == ListStep(run[i - 1], n);
      LongLineStays(run[i - 1], n, at);
    }
  }

  lemma LongLineStays(l: Listing, n: nat, at: nat)
    requires ListInv(l) && !l.done && l.next <= at < |l.lines| && |l.lines[at]| >= l.size
    ensures ListStep(l, n).next <= at && !ListStep(l, n).done
  {
    hide Filled, Flatten;
    FilledStops(l, at);
    FilledKeeps(l);
  }

  lemma {:induction false} FilledStops(l: Listing, at: nat)
    requires ListInv(l) && !l.done && l.next <= at < |l.lines| && |l.lines[at]| >= l.size
    ensures Filled(l).next <= at
    decreases |l.lines| - l.next
  {
    hide ListInv;
    NextInside(l);
    if l.next < |l.lines| && |l.lines[l.next]| <= Space(l.size, l.queued) {
      OneMoreKeeps(l);
      FilledStops(OneMore(l), at);
    }
  }

  /** The data connection while a listing is sent.  `entry` is whether the directory entry `pos - 1` has
      been read and not yet queued. */
  class ListTransfer {
    const fifo: Fifo
    const pcb: Pcb
    const lines: seq<seq<bv8>>
    var pos: nat
    var entry: bool
    var done: bool

    ghost predicate Valid()
      reads this, fifo, fifo.buffer
    {
      fifo.Valid() && pos <= |lines| && (entry ==> pos > 0) && forall i :: 0 <= i < |lines| ==> |lines[i]| < 0x8000_0000
    }

    ghost function View(): Listing
      requires Valid()
      reads this, fifo, fifo.buffer, pcb
    {
      Listing(fifo.size, fifo.buffer != null, pcb.accepted, fifo.Contents(), lines, if entry then pos - 1 else pos, done)
    }

    constructor (request: int, memory: bool, entries: seq<seq<bv8>>)
      requires -0x8000_0000 <= request < 0x4000_0000
      requires forall i :: 0 <= i < |entries| ==> |entries[i]| < 0x8000_0000
      ensures Valid() && View() == Listed(fifo.size, memory, entries) && fifo.size > request
    {
      fifo := new Fifo(request, memory);
      pcb := new Pcb();
      lines := entries;
      pos, entry, done := 0, false, false;
    }

    method Pump(w: Window) returns (ghost sent: nat)
      requires Valid() && w.sndbuf < 0x1_0000
      modifies fifo`readpos, pcb
      ensures Valid() && sent <= |old(View()).queued| && View() == Out(old(View()), sent)
      ensures Open(w) ==> sent == Min(w.sndbuf, |old(View()).queued|)
    {
      hide Fifo.Valid, Fifo.Contents, Used;
      sent := SendData(fifo, pcb, w);
    }

    /** `sfifo_write` of the entry at hand, if it fits. */
    method QueueEntry() returns (fits: bool)
      requires Valid() && entry
      modifies this`entry, fifo`writepos, fifo.buffer
      ensures Valid() && fits == (|lines[pos - 1]| <= Space(fifo.size, old(View()).queued)) && entry == !fits
      ensures View() == if fits then OneMore(old(View())) else old(View())
    {
      hide Fifo.Valid, Fifo.Contents, Used;
      var line := lines[pos - 1];
      var space := fifo.Space();
      fits := space >= |line|;
      if fits {
        var total := fifo.Write(line);
        WholeIsPrefix(line);
        entry := false;
      }
    }

    /** `send_next_directory`: a step of the run above. */
    method SendNextDirectory(w: Window) returns (ghost sent: nat)
      requires Valid() && !done && w.sndbuf < 0x1_0000
      modifies this`pos, this`entry, this`done, fifo`readpos, fifo`writepos, fifo.buffer, pcb
      ensures Valid() && sent <= |Filled(old(View())).queued| && View() == ListStep(old(View()), sent)
      ensures Open(w) && !done ==> sent == Min(w.sndbuf, |Filled(old(View())).queued|)
    {
      hide Fifo.Valid, Fifo.Contents, Used, Filled, OneMore, Space;
      sent := 0;
      while true
        invariant Valid() && !done && Filled(View()) == Filled(old(View()))
        decreases |lines| - pos, entry
      {
        if !entry && pos < |lines| {
          entry, pos := true, pos + 1;
        }
        FilledOnce(View());
        if entry {
          var fits := QueueEntry();
          if !fits {
            sent := Pump(w);
            return;
          }
        } else {
          var used := fifo.GetUsed();
          if used > 0 {
            sent := Pump(w);
            return;
          }
          done := true;
          return;
        }
      }
    }
  }

  lemma FilledOnce(l: Listing)
    ensures Filled(l) == if l.next < |l.lines| && |l.lines[l.next]| <= Space(l.size, l.queued) then Filled(OneMore(l)) else l
  {
  }
}

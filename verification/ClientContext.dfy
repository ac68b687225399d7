/** One TCP connection (libraries/W600WiFi/ClientContext.h): received pbufs are queued and read out,
    and the receive window is reopened as they are used up; what is written goes out chunk by chunk
    as the send buffer allows.  The stack's side of the connection is an object that refuses writes
    and changes state whenever it likes. */
module ClientContext {
  import opened Sequences
  import opened Helpers
  import opened Pbufs
  import opened DataSources

  /** millis(). */
  class Clock {
    var now: nat

    constructor ()
      ensures now == 0
    {
      now := 0;
    }
  }

  /** What tcp_write has been offered, how often it has refused, when it last took something, and how often
      tcp_output has been called. */
  datatype Book = Book(offers: seq<nat>, refused: nat, tookAt: nat, flushed: nat)

  /** What the context asks of a tcp_pcb. */
  class TcpPcb {
    const clock: Clock
    var closed: bool
    var sndBuf: nat
    var queueFull: bool
    /** Everything tcp_write has taken, and everything tcp_recved has been told. */
    ghost var accepted: seq<byte>
    ghost var credited: nat
    ghost var book: Book
    /** How often the stack has closed the connection or taken it away. */
    ghost var losses: nat

    constructor (clock: Clock)
      ensures this.clock == clock && accepted == [] && credited == 0 && book == Book([], 0, 0, 0) && losses == 0
    {
      this.clock := clock;
      closed, sndBuf, queueFull, accepted, credited, book, losses := false, 0, false, [], 0, Book([], 0, 0, 0), 0;
    }

    /** tcp_write with a copy: takes all of it or reports an error. */
    method Write(buf: array<byte>, at: nat, n: nat) returns (ok: bool)
      requires at + n <= buf.Length
      modifies this`accepted, this`sndBuf, this`queueFull, this`book
      ensures accepted == old(accepted) + if ok then buf[at..at + n] else []
      ensures book == Book(old(book.offers) + [n], old(book.refused) + (if ok then 0 else 1),
                           if ok then clock.now else old(book.tookAt), old(book.flushed))
    {
      ok := *;
      sndBuf := *;
      queueFull := *;
      if ok { accepted := accepted + buf[at..at + n]; }
      book := Book(book.offers + [n], book.refused + (if ok then 0 else 1), if ok then clock.now else book.tookAt, book.flushed);
    }

    /** tcp_output. */
    method Output()
      modifies this`book
      ensures book == old(book).(flushed := old(book.flushed) + 1)
    {
      book := book.(flushed := book.flushed + 1);
    }

    /** What the stack does by itself while the context waits; `lost` says that the context loses the
        connection. */
    method Elapse() returns (lost: bool)
      modifies this`closed, this`sndBuf, this`queueFull, this`losses
      ensures losses == old(losses) + if lost || (closed && !old(closed)) then 1 else 0
    {
      var was := closed;
      lost, closed, sndBuf, queueFull := *, *, *, *;
      losses := losses + if lost || (closed && !was) then 1 else 0;
    }

    /** tcp_recved. */
    method Recved(n: nat)
      modifies this`credited
      ensures credited == old(credited) + n
    {
      credited := credited + n;
    }
  }

  // ---------- The receive queue ----------

  /** The chain holds the received bytes from position `start` on.  A pbuf may be empty: the stack cuts
      off what it has already received (core/tcp_in.c:1449-1455), and what stays of a chain of several
      pbufs can begin with some that have no bytes left. */
  ghost predicate Queue(nodes: seq<Pbuf>, all: seq<byte>, start: int)
    reads nodes
  {
    Chain(nodes) && Spells(nodes, all, start) && (nodes == [] || nodes[0].totLen == |all| - start)
  }

  /** Node after node holds what comes next from `start` to the end. */
  ghost predicate Spells(nodes: seq<Pbuf>, all: seq<byte>, start: int)
    reads nodes
  {
    if nodes == [] then start == |all|
    else
      var end := start + |nodes[0].payload|;
      0 <= start <= end <= |all| && all[start..end] == nodes[0].payload && Spells(nodes[1..], all, end)
  }

  lemma {:induction false} SpellsIs(nodes: seq<Pbuf>, all: seq<byte>, start: int)
    ensures Spells(nodes, all, start) <==> 0 <= start <= |all| && Bytes(nodes) == all[start..]
  {
    if nodes != [] {
      var p := nodes[0].payload;
      SpellsIs(nodes[1..], all, start + |p|);
      if Spells(nodes, all, start) {
        JoinSlices(all, start, start + |p|, |all|);
      } else if 0 <= start <= |all| && Bytes(nodes) == all[start..] {
        DropJoined(all, start, p, Bytes(nodes[1..]));
      }
    }
  }

  /** No pbuf is empty. */
  ghost predicate Solid(nodes: seq<Pbuf>)
    reads nodes
  {
    forall k | 0 <= k < |nodes| :: nodes[k].len > 0
  }

  ghost function Total(nodes: seq<Pbuf>): nat
    reads nodes
  {
    if nodes == [] then 0 else nodes[0].totLen
  }

  lemma SameSlice(a: seq<byte>, from: nat, b: seq<byte>, at: nat, n: nat)
    requires from + |b| <= |a| && a[from..from + |b|] == b && at + n <= |b|
    ensures a[from + at..from + at + n] == b[at..at + n]
  {
    SliceOfSlice(a, from, from + |b|, at, at + n);
  }

  lemma DropBoth(a: seq<byte>, b: seq<byte>, k: nat)
    requires k <= |a|
    ensures (a + b)[k..] == a[k..] + b && (k == |a| ==> (a + b)[k..] == b)
  {}

  lemma DropJoined(a: seq<byte>, start: nat, x: seq<byte>, y: seq<byte>)
    requires start <= |a| && a[start..] == x + y
    ensures start + |x| <= |a| && a[start..start + |x|] == x && a[start + |x|..] == y
  {
    DropDrop(a, start, |x|);
    assert (x + y)[..|x|] == x && (x + y)[|x|..] == y;
  }

  lemma QueueSize(nodes: seq<Pbuf>, all: seq<byte>, start: int)
    requires Queue(nodes, all, start)
    ensures Total(nodes) == |all| - start
  {}

  /** The last node holds what is left. */
  lemma LastInQueue(nodes: seq<Pbuf>, all: seq<byte>, start: int)
    requires Queue(nodes, all, start) && |nodes| == 1
    ensures start + nodes[0].len == |all| && nodes[0].totLen == nodes[0].len
  {
    assert Spells(nodes[1..], all, start + nodes[0].len);
  }

  /** The new chain goes to the end of the queue. */
  method Enqueue(head: Pbuf, pb: Pbuf, ghost nodes: seq<Pbuf>, ghost more: seq<Pbuf>, ghost all: seq<byte>, ghost start: nat)
    requires Queue(nodes, all, start) && Chain(more) && Counted(more) && Apart(nodes, more)
    requires nodes != [] && more != [] && head == nodes[0] && pb == more[0]
    requires Total(nodes) + Total(more) < TOT_LEN_LIMIT
    modifies nodes
    ensures Queue(nodes + more, all + old(Bytes(more)), start) && head.len == old(head.len)
    ensures Total(nodes + more) == old(Total(nodes)) + old(Total(more))
    ensures old(Solid(nodes)) && old(Solid(more)) ==> Solid(nodes + more)
  {
    ghost var bytes := Bytes(more);
    SpellsIs(nodes, all, start);
    DropBoth(all, bytes, start);
    assert forall k | 0 <= k < |more| :: more[k] !in nodes by {
      forall k | 0 <= k < |more| ensures more[k] !in nodes { assert more[k] in more; }
    }
    PbufCat(head, pb, nodes, more);
    assert (nodes + more)[0] == head;
    SpellsIs(nodes + more, all + bytes, start);
  }

  /** The first node is used up and the queue goes on with the second. */
  method Dequeue(head: Pbuf, ghost nodes: seq<Pbuf>, ghost all: seq<byte>, ghost start: int, ghost rest: seq<Pbuf>, ghost next: int)
    requires Queue(nodes, all, start) && |nodes| > 1 && head == nodes[0] && rest == nodes[1..] && next == start + head.len
    modifies nodes
    ensures Queue(rest, all, next) && Total(rest) == old(Total(nodes)) - old(head.len) && !head.live
    ensures old(Solid(nodes)) ==> Solid(rest)
  {
    SpellsIs(nodes, all, start);
    SpellsIs(nodes[1..], all, start + head.len);
    CountedTail(nodes);
    Rest(nodes);
    DropHead(head, nodes);
    SpellsIs(nodes[1..], all, start + head.len);
  }

  lemma Rest(nodes: seq<Pbuf>)
    requires nodes != [] && nodes[0].len == |nodes[0].payload|
    ensures Bytes(nodes)[nodes[0].len..] == Bytes(nodes[1..])
  {}

  function Least(a: int, b: int): int { if a < b then a else b }

  const WRITE_CHUNK_SIZE: nat := 256

  /** What the receiving side has seen: the pbufs queued, every pbuf ever handed over, all bytes
      received, and how many of those have been read or discarded. */
  datatype Received = Received(nodes: seq<Pbuf>, pool: set<Pbuf>, bytes: seq<byte>, gone: nat)

  class ClientContext {
    var pcb: TcpPcb?
    var rxBuf: Pbuf?
    var rxOffset: nat
    var dataSource: DataSource?
    var written: nat
    var opStart: nat
    var timeoutMs: nat
    const clock: Clock

    /** The connection, also after the context has given it up. */
    ghost const tcp: TcpPcb
    ghost var rx: Received

    /** What has not been read is queued, in order, behind what has been read of the first pbuf. */
    ghost predicate Queued()
      reads this, rx.nodes
    {
      && rxBuf == (if rx.nodes == [] then null else rx.nodes[0])
      && (forall p | p in rx.nodes :: p in rx.pool)
      && (rxOffset == 0 || (rx.nodes != [] && rxOffset < rx.nodes[0].len))
      && Queue(rx.nodes, rx.bytes, rx.gone - rxOffset)
    }

    /** What is queued has not been credited yet. */
    ghost predicate Valid()
      reads this, rx.nodes, tcp
    {
      Queued() && tcp.clock == clock && (pcb != null ==> pcb == tcp && tcp.credited + Total(rx.nodes) == |rx.bytes|)
    }

    constructor (pcb: TcpPcb)
      requires pcb.credited == 0
      ensures Valid() && tcp == pcb && this.pcb == pcb && rx == Received([], {}, [], 0) && dataSource == null && timeoutMs == 5000
    {
      clock := pcb.clock;
      this.pcb, tcp, rxBuf, rxOffset, dataSource, written := pcb, pcb, null, 0, null, 0;
      opStart, timeoutMs := 0, 5000;
      rx := Received([], {}, [], 0);
    }

    /** How many bytes the first pbuf still has. */
    function HeadLeft(): nat
      reads this, rxBuf
    {
      if rxBuf == null || rxBuf.len < rxOffset then 0 else rxBuf.len - rxOffset
    }

    lemma AtFront()
      requires Queued() && rxBuf != null
      ensures rxOffset <= rxBuf.len == |rxBuf.payload| && rx.gone + HeadLeft() <= |rx.bytes|
      ensures rxBuf.totLen - rxOffset == |rx.bytes| - rx.gone
      ensures rxBuf.next == if |rx.nodes| == 1 then null else rx.nodes[1]
      ensures |rx.nodes| == 1 ==> rx.gone + HeadLeft() == |rx.bytes| && rxBuf.totLen == rxBuf.len
    {
      if |rx.nodes| == 1 { LastInQueue(rx.nodes, rx.bytes, rx.gone - rxOffset); }
    }

    /** Where what the first pbuf still has stands in the stream. */
    lemma FrontBytes(n: nat)
      requires Queued() && rxBuf != null && n <= HeadLeft()
      ensures rxOffset + n <= |rxBuf.payload| && rx.gone + n <= |rx.bytes|
      ensures rx.bytes[rx.gone..rx.gone + n] == rxBuf.payload[rxOffset..rxOffset + n]
    {
      SameSlice(rx.bytes, rx.gone - rxOffset, rxBuf.payload, rxOffset, n);
    }

    /** Every pbuf that was ever handed over is still queued or has been given back. */
    ghost predicate Settled()
      reads this, rx.pool
    {
      forall p | p in rx.pool :: p in rx.nodes || !p.live
    }

    /** Bytes may have left the queue; none has come.  What has left it has been given back. */
    twostate predicate Drained()
      reads this, rx.nodes, rx.pool
    {
      && (old(Settled()) ==> Settled())
      && rx.bytes == old(rx.bytes) && old(rx.gone) <= rx.gone && rx.pool == old(rx.pool)
      && Total(rx.nodes) <= old(Total(rx.nodes)) && |rx.nodes| <= |old(rx.nodes)| && (old(Solid(rx.nodes)) ==> Solid(rx.nodes))
    }

    method GetSize() returns (n: nat)
      requires Valid()
      ensures n == |rx.bytes| - rx.gone
    {
      QueueSize(rx.nodes, rx.bytes, rx.gone - rxOffset);
      if rxBuf == null { return 0; }
      n := rxBuf.totLen - rxOffset;
    }

    method Abort()
      requires Valid()
      modifies this`pcb
      ensures Valid() && pcb == null
    {
      pcb := null;
    }

    /** Takes over a queue as the new state of the receiving side. */
    method Hold(buf: Pbuf?, offset: nat, ghost chain: seq<Pbuf>, ghost all: seq<byte>, ghost used: nat, ghost owned: set<Pbuf>)
      requires buf == if chain == [] then null else chain[0]
      requires offset == 0 || (chain != [] && offset < chain[0].len)
      requires Queue(chain, all, used - offset)
      requires tcp.clock == clock && (pcb != null ==> pcb == tcp && tcp.credited + Total(chain) == |all|)
      requires forall p | p in chain :: p in owned
      modifies this`rxBuf, this`rxOffset, this`rx
      ensures Valid() && rx == Received(chain, owned, all, used) && rxBuf == buf && rxOffset == offset
    {
      rxBuf, rxOffset, rx := buf, offset, Received(chain, owned, all, used);
    }

    /** tcp_recved, while the connection is still there. */
    method Credit(n: nat)
      requires pcb == null || pcb == tcp
      modifies tcp`credited
      ensures pcb == null || tcp.credited == old(tcp.credited) + n
    {
      if pcb != null { pcb.Recved(n); }
    }

    /** _recv: the queue takes the new chain over; a null pbuf ends the connection. */
    method Recv(pb: Pbuf?, ghost more: seq<Pbuf>)
      requires Valid() && Chain(more) && Counted(more) && pb == (if more == [] then null else more[0]) && Apart(rx.nodes, more)
      requires more != [] ==> Total(rx.nodes) + Total(more) < TOT_LEN_LIMIT
      modifies this`rxBuf, this`rxOffset, this`rx, this`pcb, rx.pool
      ensures Valid() && rx.bytes == old(rx.bytes) + old(Bytes(more)) && rx.gone == old(rx.gone)
      ensures rx.nodes == old(rx.nodes) + more && rx.pool == old(rx.pool) + set p | p in more
      ensures Total(rx.nodes) == old(Total(rx.nodes)) + old(Total(more))
      ensures (old(Solid(rx.nodes)) && old(Solid(more)) ==> Solid(rx.nodes)) && (old(Settled()) ==> Settled())
      ensures pcb == if more == [] then null else old(pcb)
    {
      QueueSize(rx.nodes, rx.bytes, rx.gone - rxOffset);
      assert Total(more) == |Bytes(more)|;
      if pb == null {
        assert rx.bytes + [] == rx.bytes && rx.nodes + [] == rx.nodes;
        Abort();
      } else {
        Take(pb, more);
        QueueSize(rx.nodes, rx.bytes, rx.gone - rxOffset);
      }
    }

    method Take(pb: Pbuf, ghost more: seq<Pbuf>)
      requires Valid() && Chain(more) && Counted(more) && more != [] && pb == more[0] && Apart(rx.nodes, more)
      requires Total(rx.nodes) + Total(more) < TOT_LEN_LIMIT
      modifies this`rxBuf, this`rxOffset, this`rx, rx.pool
      ensures Valid() && rx.bytes == old(rx.bytes) + old(Bytes(more)) && rx.gone == old(rx.gone)
      ensures rx.nodes == old(rx.nodes) + more && rx.pool == old(rx.pool) + (set p | p in more) && rxOffset == old(rxOffset)
      ensures (old(Solid(rx.nodes)) && old(Solid(more)) ==> Solid(rx.nodes)) && (old(Settled()) ==> Settled())
    {
      if rxBuf != null {
        TakeMore(pb, more);
      } else {
        assert rx.nodes + more == more;
        TakeFirst(pb, more);
      }
    }

    /** Behind what is queued already. */
    method TakeMore(pb: Pbuf, ghost more: seq<Pbuf>)
      requires Valid() && rxBuf != null && Chain(more) && Counted(more) && more != [] && pb == more[0] && Apart(rx.nodes, more)
      requires Total(rx.nodes) + Total(more) < TOT_LEN_LIMIT
      modifies this`rxBuf, this`rxOffset, this`rx, rx.pool
      ensures Valid() && rx.bytes == old(rx.bytes) + old(Bytes(more)) && rx.gone == old(rx.gone)
      ensures rx.nodes == old(rx.nodes) + more && rx.pool == old(rx.pool) + (set p | p in more) && rxOffset == old(rxOffset)
      ensures (old(Solid(rx.nodes)) && old(Solid(more)) ==> Solid(rx.nodes)) && (old(Settled()) ==> Settled())
    {
      hide Chain, Counted;
      ghost var bytes, start := Bytes(more), rx.gone - rxOffset;
      ghost var nodes, all := rx.nodes, rx.bytes;
      rx := Received(nodes + more, rx.pool + (set p | p in more), all + bytes, rx.gone);
      Enqueue(rxBuf, pb, nodes, more, all, start);
    }

    /** Into an empty queue. */
    method TakeFirst(pb: Pbuf, ghost more: seq<Pbuf>)
      requires Valid() && rxBuf == null && Chain(more) && Counted(more) && more != [] && pb == more[0]
      modifies this`rxBuf, this`rxOffset, this`rx
      ensures Valid() && rx.bytes == old(rx.bytes) + Bytes(more) && rx.gone == old(rx.gone)
      ensures rx.nodes == more && rx.pool == old(rx.pool) + (set p | p in more) && rxOffset == old(rxOffset)
      ensures old(Settled()) ==> Settled()
    {
      QueueSize(rx.nodes, rx.bytes, rx.gone);
      DropBoth(rx.bytes, Bytes(more), rx.gone);
      SpellsIs(more, rx.bytes + Bytes(more), rx.gone);
      Hold(pb, 0, more, rx.bytes + Bytes(more), rx.gone, rx.pool + set p | p in more);
    }

    /** _consume: a pbuf that is used up goes back, and its length is credited to the peer.  More than the
        first pbuf has left is never taken. */
    method Consume(size: nat)
      requires Valid() && rxBuf != null
      modifies this`rxBuf, this`rxOffset, this`rx, tcp`credited, rx.pool
      ensures Valid() && Drained() && rx.gone == old(rx.gone) + Least(size, old(HeadLeft()))
      ensures size >= old(HeadLeft()) ==> |rx.nodes| < |old(rx.nodes)|
    {
      AtFront();
      var left := rxBuf.len - rxOffset - size;
      if left > 0 {
        Advance(size);
      } else if rxBuf.next == null {
        LastConsumed();
      } else {
        FirstConsumed();
      }
    }

    method Advance(size: nat)
      requires Valid() && rxBuf != null && size < HeadLeft()
      modifies this`rxBuf, this`rxOffset, this`rx
      ensures Valid() && Drained() && rx.gone == old(rx.gone) + size && rx.nodes == old(rx.nodes)
    {
      Hold(rxBuf, rxOffset + size, rx.nodes, rx.bytes, rx.gone + size, rx.pool);
    }

    method FirstConsumed()
      requires Valid() && |rx.nodes| > 1
      modifies this`rxBuf, this`rxOffset, this`rx, tcp`credited, rx.pool
      ensures Valid() && Drained() && rx.gone == old(rx.gone) + old(HeadLeft()) && |rx.nodes| < |old(rx.nodes)|
    {
      AtFront();
      Credit(rxBuf.len);
      ReturnHead();
    }

    /** The used-up pbuf, credited already, goes back. */
    method ReturnHead()
      requires Queued() && |rx.nodes| > 1 && rxBuf.next == rx.nodes[1] && rxOffset <= rxBuf.len
      modifies this`rxBuf, this`rxOffset, this`rx, rx.pool
      ensures Queued() && rx == old(rx).(nodes := old(rx.nodes)[1..], gone := old(rx.gone) + old(HeadLeft()))
      ensures Total(rx.nodes) == old(Total(rx.nodes)) - old(rxBuf.len) && (old(Solid(rx.nodes)) ==> Solid(rx.nodes))
      ensures old(Settled()) ==> Settled()
    {
      hide Spells, Chain;
      ghost var nodes, start := rx.nodes, rx.gone - rxOffset;
      var head := rxBuf;
      MoveOn();
      Dequeue(head, nodes, rx.bytes, start, rx.nodes, rx.gone - rxOffset);
    }

    method MoveOn()
      requires Queued() && |rx.nodes| > 1 && rxBuf.next == rx.nodes[1] && rxOffset <= rxBuf.len
      modifies this`rxBuf, this`rxOffset, this`rx
      ensures rx == old(rx).(nodes := old(rx.nodes)[1..], gone := old(rx.gone) + old(HeadLeft()))
      ensures rxBuf == rx.nodes[0] && rxOffset == 0 && forall p | p in rx.nodes :: p in rx.pool
    {
      TailIn(rx.nodes, rx.pool);
      rx := rx.(nodes := rx.nodes[1..], gone := rx.gone + HeadLeft());
      rxBuf, rxOffset := rxBuf.next, 0;
    }

    method LastConsumed()
      requires Valid() && |rx.nodes| == 1
      modifies this`rxBuf, this`rxOffset, this`rx, tcp`credited, rx.pool
      ensures Valid() && Drained() && rx.gone == old(rx.gone) + old(HeadLeft()) && rx.nodes == []
    {
      AtFront();
      Credit(rxBuf.len);
      GiveBack();
    }

    /** The whole queue goes, credited already. */
    method GiveBack()
      requires Queued() && rxBuf != null && tcp.clock == clock && (pcb != null ==> pcb == tcp && tcp.credited == |rx.bytes|)
      modifies this`rxBuf, this`rxOffset, this`rx, rx.pool
      ensures Valid() && Drained() && rx.gone == |rx.bytes| && rx.nodes == []
    {
      FreeAll(rxBuf, rx.nodes);
      Hold(null, 0, [], rx.bytes, |rx.bytes|, rx.pool);
    }

    /** What read() and peek() answer; `stale` stands in memory where the first byte of an empty pbuf would be. */
    function FrontByte(stale: byte): byte
      reads this, rxBuf
    {
      if rxBuf == null then 0 else if rxOffset < |rxBuf.payload| then rxBuf.payload[rxOffset] else stale
    }

    /** What they should answer. */
    ghost function NextByte(): byte
      requires rx.gone <= |rx.bytes|
      reads this
    {
      if rx.gone == |rx.bytes| then 0 else rx.bytes[rx.gone]
    }

    /** They answer the next byte, whatever stands behind the pbuf, exactly when nothing is queued or the
        first pbuf has a byte left. */
    lemma FrontByteRightIff()
      requires Valid()
      ensures (forall stale :: FrontByte(stale) == NextByte()) <==> rxBuf == null || HeadLeft() > 0
    {
      if rxBuf != null {
        AtFront();
        if HeadLeft() > 0 {
          FrontBytes(1);
          assert rx.bytes[rx.gone] == rx.bytes[rx.gone..rx.gone + 1][0];
        } else {
          assert FrontByte(0) == 0 && FrontByte(1) == 1;
        }
      } else {
        QueueSize(rx.nodes, rx.bytes, rx.gone);
      }
    }

    lemma GoneWithin()
      requires Valid()
      ensures rx.gone <= |rx.bytes| && |rx.bytes| - rx.gone <= Total(rx.nodes)
    {
      if rxBuf != null { AtFront(); } else { QueueSize(rx.nodes, rx.bytes, rx.gone); }
    }

    /** A byte that the first pbuf has is the next one, and it has one when no pbuf is empty. */
    lemma FrontIsNext(stale: byte)
      requires Valid()
      ensures rx.gone + HeadLeft() <= |rx.bytes| && (HeadLeft() > 0 ==> FrontByte(stale) == rx.bytes[rx.gone])
      ensures Solid(rx.nodes) && rx.gone < |rx.bytes| ==> HeadLeft() > 0
    {
      GoneWithin();
      FrontByteRightIff();
      if rxBuf != null { AtFront(); }
    }

    /** read(): moves on by one byte exactly when the first pbuf has one. */
    method Read(stale: byte) returns (c: byte)
      requires Valid()
      modifies this`rxBuf, this`rxOffset, this`rx, tcp`credited, rx.pool
      ensures Valid() && Drained() && c == old(FrontByte(stale))
      ensures rx.gone == old(rx.gone) + (if old(HeadLeft()) > 0 then 1 else 0)
      ensures old(rxBuf) != null && old(HeadLeft()) <= 1 ==> |rx.nodes| < |old(rx.nodes)|
    {
      if rxBuf == null { return 0; }
      c := FrontByte(stale);
      Consume(1);
    }

    /** read(dst, size): gathers from as many pbufs as it takes. */
    method ReadBytes(dst: array<byte>, size: nat) returns (sizeRead: nat)
      requires Valid() && size <= dst.Length
      modifies this`rxBuf, this`rxOffset, this`rx, tcp`credited, rx.pool, dst
      ensures Valid() && Drained() && sizeRead == Least(size, |rx.bytes| - old(rx.gone))
      ensures rx.gone == old(rx.gone) + sizeRead && dst[..sizeRead] == rx.bytes[old(rx.gone)..rx.gone]
    {
      QueueSize(rx.nodes, rx.bytes, rx.gone - rxOffset);
      if rxBuf == null { return 0; }
      var maxSize := rxBuf.totLen - rxOffset;
      var left := if size < maxSize then size else maxSize;
      sizeRead := left;
      Gather(dst, left);
    }

    method Gather(dst: array<byte>, n: nat)
      requires Valid() && n <= dst.Length && n <= |rx.bytes| - rx.gone
      modifies this`rxBuf, this`rxOffset, this`rx, tcp`credited, rx.pool, dst
      ensures Valid() && Drained() && rx.gone == old(rx.gone) + n && dst[..n] == rx.bytes[old(rx.gone)..rx.gone]
    {
      var left, sizeRead := n, 0;
      while left > 0
        invariant 0 <= left && 0 <= sizeRead && sizeRead + left == n
        invariant Valid() && Drained() && rx.gone == old(rx.gone) + sizeRead
        invariant dst[..sizeRead] == rx.bytes[old(rx.gone)..rx.gone]
        decreases left, |rx.nodes|
      {
        var k := CopyOn(dst, sizeRead, left, old(rx.gone));
        left := left - k;
        sizeRead := sizeRead + k;
      }
    }

    method CopyOn(dst: array<byte>, at: nat, left: nat, ghost start: nat) returns (copySize: nat)
      requires Valid() && 0 < left <= |rx.bytes| - rx.gone && at + left <= dst.Length
      requires start + at == rx.gone && dst[..at] == rx.bytes[start..rx.gone]
      modifies this`rxBuf, this`rxOffset, this`rx, tcp`credited, rx.pool, dst
      ensures Valid() && Drained() && copySize <= left && (copySize == 0 ==> |rx.nodes| < |old(rx.nodes)|)
      ensures rx.gone == old(rx.gone) + copySize && dst[..at + copySize] == rx.bytes[start..rx.gone]
    {
      copySize := CopyFront(dst, at, left);
      JoinSlices(rx.bytes, start, rx.gone - copySize, rx.gone);
      JoinSlices(dst[..], 0, at, at + copySize);
    }

    /** The bytes of the first pbuf that come next, at most `n` of them. */
    method Front(n: nat) returns (chunk: seq<byte>)
      requires Valid() && rxBuf != null
      ensures |chunk| == Least(n, HeadLeft()) && rx.gone + |chunk| <= |rx.bytes|
      ensures chunk == rx.bytes[rx.gone..rx.gone + |chunk|]
    {
      AtFront();
      var bufSize := rxBuf.len - rxOffset;
      var copySize := if n < bufSize then n else bufSize;
      chunk := rxBuf.payload[rxOffset..rxOffset + copySize];
      FrontBytes(copySize);
    }

    /** One round: what the first pbuf has, up to what is wanted. */
    method CopyFront(dst: array<byte>, at: nat, left: nat) returns (copySize: nat)
      requires Valid() && 0 < left <= |rx.bytes| - rx.gone && at + left <= dst.Length
      modifies this`rxBuf, this`rxOffset, this`rx, tcp`credited, rx.pool, dst
      ensures Valid() && Drained() && copySize <= left && rx.gone == old(rx.gone) + copySize
      ensures dst[..at] == old(dst[..at]) && dst[at..at + copySize] == rx.bytes[old(rx.gone)..rx.gone]
      ensures copySize == 0 ==> |rx.nodes| < |old(rx.nodes)|
    {
      copySize := PeekFront(dst, at, left);
      ghost var copied := dst[..];
      Consume(copySize);
      assert dst[..] == copied;
    }

    /** The copying part of reading and of peeking. */
    method PeekFront(dst: array<byte>, at: nat, n: nat) returns (copySize: nat)
      requires Valid() && rxBuf != null && at + n <= dst.Length
      modifies dst
      ensures Valid() && copySize == Least(n, HeadLeft()) && rx.gone + copySize <= |rx.bytes|
      ensures dst[..at] == old(dst[..at]) && dst[at..at + copySize] == rx.bytes[rx.gone..rx.gone + copySize]
    {
      var chunk := Front(n);
      copySize := |chunk|;
      MemCpy(dst, at, chunk);
    }

    /** peek(): what read() would answer. */
    method Peek(stale: byte) returns (c: byte)
      requires Valid()
      ensures c == FrontByte(stale)
    {
      if rxBuf == null { return 0; }
      c := FrontByte(stale);
    }

    /** peekBytes: only as far as the first pbuf goes. */
    method PeekBytes(dst: array<byte>, size: nat) returns (copySize: nat)
      requires Valid() && size <= dst.Length
      modifies dst
      ensures Valid() && copySize == Least(size, HeadLeft()) && rx.gone + copySize <= |rx.bytes|
      ensures dst[..copySize] == rx.bytes[rx.gone..rx.gone + copySize]
    {
      if rxBuf == null { return 0; }
      AtFront();
      var maxSize := rxBuf.totLen - rxOffset;
      copySize := PeekFront(dst, 0, if size < maxSize then size else maxSize);
    }

    /** discard_received: everything queued is dropped and credited. */
    method DiscardReceived()
      requires Valid()
      modifies this`rxBuf, this`rxOffset, this`rx, tcp`credited, rx.pool
      ensures Valid() && Drained() && rx.gone == |rx.bytes|
    {
      QueueSize(rx.nodes, rx.bytes, rx.gone - rxOffset);
      if rxBuf == null { return; }
      Credit(rxBuf.totLen);
      GiveBack();
    }
 
    // ---------- Sending ----------

    /** The data source in place is `ds`, which is another object, and what the pcb stands for is the connection. */
    ghost predicate Sending(ds: DataSource)
      reads this`dataSource, this`pcb, ds`own
    {
      dataSource == ds && this !in ds.own && tcp !in ds.own && clock !in ds.own && tcp.clock == clock && (pcb == null || pcb == tcp)
    }

    /** One round of _write_some: what is offered and not refused is released from the source. */
    method SendChunk(n: nat, ghost ds: DataSource) returns (sent: bool)
      requires Sending(ds) && ds.Valid() && pcb != null && 0 < n <= |ds.all| - ds.Taken()
      modifies this`written, tcp`accepted, tcp`book, tcp`sndBuf, tcp`queueFull, ds.own
      ensures ds.Valid() && fresh(ds.own - old(ds.own)) && Offered(n, sent)
      ensures var at, k := old(ds.Taken()), if sent then n else 0;
        && written == old(written) + k && ds.Taken() == at + k
        && tcp.accepted == old(tcp.accepted) + ds.all[at..at + k]
    {
      sent := Offer(n, ds);
      if sent { Release(n, ds); }
    }

    /** What one offer leads to: nothing is offered on a closed connection, and otherwise the stack takes it all
        now or refuses. */
    twostate predicate Offered(n: nat, sent: bool)
      reads tcp
    {
      if tcp.closed then !sent && tcp.book == old(tcp.book)
      else tcp.book == Book(old(tcp.book.offers) + [n], old(tcp.book.refused) + (if sent then 0 else 1),
                            if sent then old(clock.now) else old(tcp.book.tookAt), old(tcp.book.flushed))
    }

    method Release(n: nat, ghost ds: DataSource)
      requires Sending(ds) && ds.Valid() && n <= ds.Held()
      modifies this`written, ds.own
      ensures ds.Valid() && fresh(ds.own - old(ds.own)) && ds.Taken() == old(ds.Taken()) + n && written == old(written) + n
    {
      dataSource.ReleaseBuffer(n);
      written := written + n;
    }

    method Offer(n: nat, ghost ds: DataSource) returns (sent: bool)
      requires Sending(ds) && ds.Valid() && pcb != null && 0 < n <= |ds.all| - ds.Taken()
      modifies tcp`accepted, tcp`book, tcp`sndBuf, tcp`queueFull, ds.own
      ensures ds.Valid() && fresh(ds.own - old(ds.own)) && Offered(n, sent)
      ensures ds.Taken() == old(ds.Taken()) && n <= ds.Held()
      ensures tcp.accepted == old(tcp.accepted) + if sent then ds.all[ds.Taken()..ds.Taken() + n] else []
    {
      var buf, at := dataSource.GetBuffer(n);
      if pcb.closed { return false; }
      sent := pcb.Write(buf, at, n);
    }

    /** _write_some: offers chunks until the window or the data runs out, or the stack refuses one, and asks the
        stack to send what it took. */
    method WriteSome(ghost ds: DataSource) returns (progress: bool)
      requires Sending(ds) && ds.Valid()
      modifies this`written, tcp`accepted, tcp`book, tcp`sndBuf, tcp`queueFull, ds.own
      ensures ds.Valid() && fresh(ds.own - old(ds.own))
      ensures var at, k := old(ds.Taken()), written - old(written);
        && 0 <= k && ds.Taken() == at + k && (progress <==> k > 0)
        && tcp.accepted == old(tcp.accepted) + ds.all[at..at + k]
        && SentSome(k, old(if pcb == null then 0 else Least(if tcp.queueFull then 0 else tcp.sndBuf, |ds.all| - ds.Taken())))
    {
      hide SentSoFar;
      NothingSent(tcp.book, clock.now);
      if pcb == null { return false; }
      var willSend := WillSend(ds);
      progress := SendUpTo(willSend, ds);
      if progress { pcb.Output(); }
    }

    /** As much as there is data and the stack has room for. */
    method WillSend(ghost ds: DataSource) returns (n: nat)
      requires Sending(ds) && ds.Valid() && pcb != null
      ensures n == Least(if tcp.queueFull then 0 else tcp.sndBuf, |ds.all| - ds.Taken())
    {
      var left := dataSource.Available();
      var canSend := pcb.sndBuf;
      if pcb.queueFull { canSend := 0; }
      n := if canSend < left then canSend else left;
    }

    /** `k` bytes of the `n` that there was room for have been taken: all of them unless the connection is closed
        or the last chunk was refused, and whatever was taken is flushed. */
    twostate predicate SentSome(k: nat, n: nat)
      reads tcp
    {
      && k <= n && (tcp.closed ==> k == 0) && (k < n && !tcp.closed ==> tcp.book.refused > old(tcp.book.refused))
      && tcp.book.flushed == old(tcp.book.flushed) + (if k > 0 then 1 else 0)
      && SentSoFar(old(tcp.book), tcp.book.(flushed := old(tcp.book.flushed)), old(clock.now), k)
    }

    method SendUpTo(n: nat, ghost ds: DataSource) returns (progress: bool)
      requires Sending(ds) && ds.Valid() && pcb != null && n <= |ds.all| - ds.Taken()
      modifies this`written, tcp`accepted, tcp`book, tcp`sndBuf, tcp`queueFull, ds.own
      ensures ds.Valid() && fresh(ds.own - old(ds.own))
      ensures var at, k := old(ds.Taken()), written - old(written);
        && 0 <= k <= n && ds.Taken() == at + k && (progress <==> k > 0)
        && tcp.accepted == old(tcp.accepted) + ds.all[at..at + k]
        && (tcp.closed ==> k == 0) && SentSoFar(old(tcp.book), tcp.book, old(clock.now), k) && tcp.book.flushed == old(tcp.book.flushed)
        && (k < n && !tcp.closed ==> tcp.book.refused > old(tcp.book.refused))
    {
      hide SentSoFar, InFull;
      ghost var at, before, book := ds.Taken(), tcp.accepted, tcp.book;
      NothingSent(book, clock.now);
      var willSend := n;
      progress := false;
      while willSend > 0
        invariant ds.Valid() && fresh(ds.own - old(ds.own))
        invariant 0 <= willSend <= n && ds.Taken() == at + (n - willSend) && written == old(written) + (n - willSend)
        invariant tcp.accepted == before + ds.all[at..ds.Taken()]
        invariant (progress <==> willSend < n) && (tcp.closed ==> willSend == n) && tcp.book.flushed == book.flushed
        invariant SentSoFar(book, tcp.book, clock.now, n - willSend) && (willSend > 0 ==> InFull(book, tcp.book))
        decreases willSend
      {
        var nextChunk := if willSend > WRITE_CHUNK_SIZE then WRITE_CHUNK_SIZE else willSend;
        ghost var last := tcp.book;
        var sent := SendNext(nextChunk, at, before, ds);
        OneMoreChunk(book, last, tcp.book, clock.now, n - willSend, nextChunk, sent, tcp.closed);
        if pcb.closed {
          progress := false;
          break;
        }
        if !sent { break; }
        progress := true;
        willSend := willSend - nextChunk;
      }
    }

    method SendNext(n: nat, ghost at: nat, ghost before: seq<byte>, ghost ds: DataSource) returns (sent: bool)
      requires Sending(ds) && ds.Valid() && pcb != null && 0 < n <= |ds.all| - ds.Taken() && at <= ds.Taken()
      requires tcp.accepted == before + ds.all[at..ds.Taken()]
      modifies this`written, tcp`accepted, tcp`book, tcp`sndBuf, tcp`queueFull, ds.own
      ensures ds.Valid() && fresh(ds.own - old(ds.own)) && Offered(n, sent)
      ensures var k := if sent then n else 0; written == old(written) + k && ds.Taken() == old(ds.Taken()) + k
      ensures tcp.accepted == before + ds.all[at..ds.Taken()]
    {
      ghost var from := ds.Taken();
      sent := SendChunk(n, ds);
      Sent(before, ds.all, at, from - at, if sent then n else 0, tcp.accepted);
    }

    /** delay(): time passes, and the stack's callbacks may move the window or end the connection. */
    method Delay()
      requires pcb == null || pcb == tcp
      modifies this`pcb, clock`now, tcp`closed, tcp`sndBuf, tcp`queueFull, tcp`losses
      ensures clock.now > old(clock.now) && Kept()
    {
      var later: nat :| later > clock.now;
      clock.now := later;
      if pcb != null {
        var lost := pcb.Elapse();
        if lost { pcb := null; }
      }
    }

    /** The connection is still the context's, and open if it was, unless the stack has ended it. */
    twostate predicate Kept()
      reads this`pcb, tcp
    {
      && old(tcp.losses) <= tcp.losses && (pcb == null || pcb == old(pcb))
      && (pcb != old(pcb) || (tcp.closed && !old(tcp.closed)) ==> tcp.losses > old(tcp.losses))
    }

    predicate IsTimeout()
      reads this, clock
    {
      clock.now - opStart > timeoutMs
    }

    predicate IsClosed()
      reads this, pcb
    {
      pcb == null || pcb.closed
    }

    /** Why a write ends before all its data is taken: the connection is closed, or the time allowed has passed
        since the call and since the stack last took something. */
    twostate predicate GaveUp()
      reads this, pcb, tcp, clock
    {
      IsClosed() ||
      (clock.now > old(clock.now) + timeoutMs &&
       (tcp.book.tookAt == old(tcp.book.tookAt) || clock.now > tcp.book.tookAt + timeoutMs))
    }

    /** How long the write may still go on without progress. */
    ghost function Patience(): nat
      reads this, clock
    {
      if IsTimeout() then 0 else timeoutMs + 1 - (clock.now - opStart)
    }

    /** _write_from_source: whatever happens, exactly the first `n` bytes have been taken by the stack,
        and fewer than all only after the connection closed or nothing went out for the time allowed.
        The receiving side is as before. */
    method WriteFromSource(ds: DataSource) returns (n: nat)
      requires Valid() && dataSource == null && ds.Valid() && ds.Taken() == 0
      modifies this`dataSource, this`written, this`opStart, clock`now, this`pcb
      modifies tcp`accepted, tcp`book, tcp`closed, tcp`sndBuf, tcp`queueFull, tcp`losses, ds.own
      ensures Valid() && Solid(rx.nodes) == old(Solid(rx.nodes)) && (old(Settled()) ==> Settled()) && dataSource == null && n <= |ds.all|
      ensures tcp.accepted == old(tcp.accepted) + ds.all[..n] && Kept() && (n > 0 ==> tcp.book.flushed > old(tcp.book.flushed))
      ensures n < |ds.all| ==> GaveUp()
    {
      ds.OwnKinds(this);
      ds.OwnKinds(tcp);
      ds.OwnKinds(clock);
      forall p | p in rx.nodes ensures p !in ds.own { ds.OwnKinds(p); }
      n := Pump(ds);
      StillQueued();
    }

    /** Where nothing of the receiving side has changed, it is still as it should be. */
    twostate lemma StillQueued()
      requires old(Valid()) && rx == old(rx) && rxBuf == old(rxBuf) && rxOffset == old(rxOffset)
      requires tcp.credited == old(tcp.credited) && (pcb == null || pcb == old(pcb))
      requires unchanged(rx.nodes)
      ensures Valid() && Solid(rx.nodes) == old(Solid(rx.nodes))
    {}

    method Pump(ds: DataSource) returns (n: nat)
      requires dataSource == null && ds.Valid() && ds.Taken() == 0 && tcp.clock == clock && (pcb == null || pcb == tcp)
      requires this !in ds.own && tcp !in ds.own && clock !in ds.own
      modifies this`dataSource, this`written, this`opStart, clock`now, this`pcb
      modifies tcp`accepted, tcp`book, tcp`closed, tcp`sndBuf, tcp`queueFull, tcp`losses, ds.own
      ensures dataSource == null && n <= |ds.all| && Kept()
      ensures tcp.accepted == old(tcp.accepted) + ds.all[..n] && (n > 0 ==> tcp.book.flushed > old(tcp.book.flushed))
      ensures n < |ds.all| ==> GaveUp()
    {
      dataSource, written, opStart := ds, 0, clock.now;
      Rounds(ds, tcp.accepted, clock.now, tcp.book);
      dataSource := null;
      n := written;
    }

    /** In a write that began at `start`, with this book, the last progress is not before the last time that the
        stack took something, and what it took was flushed. */
    ghost predicate Noted(start: nat, book: Book)
      reads this`opStart, this`written, tcp, clock
    {
      && start <= opStart <= clock.now && (tcp.book.tookAt == book.tookAt || tcp.book.tookAt <= opStart)
      && (if written > 0 then tcp.book.flushed > book.flushed else tcp.book.flushed == book.flushed)
    }

    /** The stack has taken what was written of this data. */
    ghost predicate HasSent(before: seq<byte>, all: seq<byte>)
      reads this`written, tcp`accepted
    {
      written <= |all| && tcp.accepted == before + all[..written]
    }

    /** The loop. */
    method Rounds(ghost ds: DataSource, ghost before: seq<byte>, ghost start: nat, ghost book: Book)
      requires Sending(ds) && ds.Valid() && written == ds.Taken() && HasSent(before, ds.all) && Noted(start, book)
      modifies this`written, this`opStart, clock`now, this`pcb
      modifies tcp`accepted, tcp`book, tcp`closed, tcp`sndBuf, tcp`queueFull, tcp`losses, ds.own
      ensures HasSent(before, ds.all) && Noted(start, book) && Kept()
      ensures written < |ds.all| ==> IsTimeout() || IsClosed()
    {
      hide HasSent;
      var done := false;
      while !done
        invariant Sending(ds) && ds.Valid() && fresh(ds.own - old(ds.own)) && Kept() && Noted(start, book)
        invariant written == ds.Taken() && HasSent(before, ds.all)
        invariant done ==> written == |ds.all| || IsTimeout() || IsClosed()
        decreases !done, |ds.all| - written, Patience()
      {
        done := RoundAndDelay(ds, before, start, book);
      }
    }

    method RoundAndDelay(ghost ds: DataSource, ghost before: seq<byte>, ghost start: nat, ghost book: Book) returns (done: bool)
      requires Sending(ds) && ds.Valid() && written == ds.Taken() && HasSent(before, ds.all) && Noted(start, book)
      modifies this`written, this`opStart, clock`now, this`pcb
      modifies tcp`accepted, tcp`book, tcp`closed, tcp`sndBuf, tcp`queueFull, tcp`losses, ds.own
      ensures Sending(ds) && ds.Valid() && fresh(ds.own - old(ds.own)) && Kept() && Noted(start, book)
      ensures written == ds.Taken() >= old(written) && HasSent(before, ds.all)
      ensures done ==> written == |ds.all| || IsTimeout() || IsClosed()
      ensures !done ==> written > old(written) || Patience() < old(Patience())
    {
      hide HasSent;
      done := WriteRound(ds, before, start, book);
      if !done { Delay(); }
    }

    /** One round of it, up to the decision whether to go on. */
    method WriteRound(ghost ds: DataSource, ghost before: seq<byte>, ghost start: nat, ghost book: Book) returns (done: bool)
      requires Sending(ds) && ds.Valid() && written == ds.Taken() && HasSent(before, ds.all) && Noted(start, book)
      modifies this`written, this`opStart, tcp`accepted, tcp`book, tcp`sndBuf, tcp`queueFull, ds.own
      ensures Sending(ds) && ds.Valid() && fresh(ds.own - old(ds.own)) && Noted(start, book)
      ensures written == ds.Taken() >= old(written) && HasSent(before, ds.all)
      ensures opStart == if written > old(written) then clock.now else old(opStart)
      ensures done <==> written == |ds.all| || IsTimeout() || IsClosed()
    {
      hide HasSent;
      var progress := WriteMore(ds, before);
      done := Decide(progress, ds);
    }

    method WriteMore(ghost ds: DataSource, ghost before: seq<byte>) returns (progress: bool)
      requires Sending(ds) && ds.Valid() && written == ds.Taken() && HasSent(before, ds.all)
      modifies this`written, tcp`accepted, tcp`book, tcp`sndBuf, tcp`queueFull, ds.own
      ensures Sending(ds) && ds.Valid() && fresh(ds.own - old(ds.own)) && written == ds.Taken() >= old(written)
      ensures HasSent(before, ds.all) && (progress <==> written > old(written))
      ensures tcp.book.flushed == old(tcp.book.flushed) + (if progress then 1 else 0)
      ensures tcp.book.tookAt == if progress then clock.now else old(tcp.book.tookAt)
    {
      ghost var from := written;
      progress := WriteSome(ds);
      Sent(before, ds.all, 0, from, written - from, tcp.accepted);
    }

    /** Whether the write is over: nothing left, no time left, or no connection. */
    method Decide(progress: bool, ghost ds: DataSource) returns (done: bool)
      requires Sending(ds) && ds.Valid()
      modifies this`opStart
      ensures opStart == if progress then clock.now else old(opStart)
      ensures done <==> ds.Taken() == |ds.all| || IsTimeout() || IsClosed()
    {
      var left := dataSource.Available();
      if progress { opStart := clock.now; }
      done := left == 0 || IsTimeout() || IsClosed();
    }

    /** write(const uint8_t *, size_t). */
    method Write(data: array<byte>, size: nat) returns (n: nat)
      requires Valid() && dataSource == null && size <= data.Length
      modifies this`dataSource, this`written, this`opStart, clock`now, this`pcb
      modifies tcp`accepted, tcp`book, tcp`closed, tcp`sndBuf, tcp`queueFull, tcp`losses
      ensures Valid() && Solid(rx.nodes) == old(Solid(rx.nodes)) && (old(Settled()) ==> Settled()) && dataSource == null && n <= size
      ensures tcp.accepted == old(tcp.accepted) + data[..n] && Kept() && (n > 0 ==> tcp.book.flushed > old(tcp.book.flushed))
      ensures n < size ==> GaveUp()
    {
      if pcb == null { return 0; }
      var ds := BlockSource(data, size);
      n := WriteFromSource(ds);
      assert data[..size][..n] == data[..n];
    }

    /** write_P: the same data through the buffering source comes out the same. */
    method WriteProgmem(data: array<byte>, size: nat) returns (n: nat)
      requires Valid() && dataSource == null && size <= data.Length
      modifies this`dataSource, this`written, this`opStart, clock`now, this`pcb
      modifies tcp`accepted, tcp`book, tcp`closed, tcp`sndBuf, tcp`queueFull, tcp`losses
      ensures Valid() && Solid(rx.nodes) == old(Solid(rx.nodes)) && (old(Settled()) ==> Settled()) && dataSource == null && n <= size
      ensures tcp.accepted == old(tcp.accepted) + data[..n] && Kept() && (n > 0 ==> tcp.book.flushed > old(tcp.book.flushed))
      ensures n < size ==> GaveUp()
    {
      if pcb == null { return 0; }
      ghost var bytes := data[..size];
      var ds := ProgmemSource(data, size, bytes);
      n := WriteFromSource(ds);
      assert bytes[..n] == data[..n];
    }
  }

  predicate AllFull(offers: seq<nat>) { forall i | 0 <= i < |offers| :: offers[i] == 256 }

  /** Data is offered 256 bytes at a time, and the rest last. */
  predicate Chunks(offers: seq<nat>) {
    offers == [] || (0 < offers[|offers| - 1] <= 256 && AllFull(offers[..|offers| - 1]))
  }

  /** What the book says when `k` bytes have been taken since `from`. */
  ghost predicate SentSoFar(from: Book, to: Book, now: nat, k: nat) {
    && from.refused <= to.refused && to.flushed == from.flushed
    && to.tookAt == (if k > 0 then now else from.tookAt)
    && from.offers <= to.offers && Chunks(to.offers[|from.offers|..])
  }

  /** And that everything offered was taken, in full chunks. */
  ghost predicate InFull(from: Book, to: Book) {
    from.refused == to.refused && from.offers <= to.offers && AllFull(to.offers[|from.offers|..])
  }

  lemma NothingSent(book: Book, now: nat)
    ensures SentSoFar(book, book, now, 0) && InFull(book, book)
  {
    assert book.offers[|book.offers|..] == [];
  }

  /** The next chunk is offered, unless the connection is closed. */
  lemma OneMoreChunk(from: Book, last: Book, to: Book, now: nat, k: nat, n: nat, sent: bool, closed: bool)
    requires SentSoFar(from, last, now, k) && InFull(from, last) && 0 < n <= 256
    requires if closed then !sent && to == last
             else to == Book(last.offers + [n], last.refused + (if sent then 0 else 1), if sent then now else last.tookAt, last.flushed)
    ensures SentSoFar(from, to, now, if sent then k + n else k)
    ensures sent && n == 256 ==> InFull(from, to)
    ensures !sent && !closed ==> to.refused > from.refused
  {
    var offers := last.offers[|from.offers|..];
    assert closed || to.offers[|from.offers|..] == offers + [n];
    assert (offers + [n])[..|offers|] == offers;
  }

  lemma Sent(before: seq<byte>, all: seq<byte>, at: nat, n: nat, k: nat, accepted: seq<byte>)
    requires at + n + k <= |all|
    requires accepted == before + all[at..at + n] + all[at + n..at + n + k]
    ensures accepted == before + all[at..at + (n + k)]
  {}
}

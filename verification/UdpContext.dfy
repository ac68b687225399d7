/** One UDP socket (libraries/W600WiFi/UdpContext.h).  What is appended collects in a chain of
    128-byte pbufs until it is sent as one datagram; arriving pbufs are presented one by one. */
module UdpContext {
  import opened Sequences
  import opened Helpers
  import opened Pbufs

  const PBUF_UNIT_SIZE: nat := 128

  // ---------- The chain as one stretch of memory ----------

  /** Where the bytes of node `i` start. */
  ghost function Start(nodes: seq<Pbuf>, i: nat): int
    requires i < |nodes|
    reads nodes
  {
    nodes[0].totLen - nodes[i].totLen
  }

  /** The bytes before node `i`, those of the node, and those behind it. */
  lemma {:induction false} BytesAround(nodes: seq<Pbuf>, i: nat)
    requires i < |nodes|
    ensures Bytes(nodes) == Bytes(nodes[..i]) + (nodes[i].payload + Bytes(nodes[i + 1..]))
    decreases i
  {
    if i == 0 {
      assert nodes[..0] == [];
    } else {
      var t := nodes[1..];
      BytesAround(t, i - 1);
      assert nodes[..i][1..] == t[..i - 1] && t[i..] == nodes[i + 1..];
      Assoc(nodes[0].payload, Bytes(t[..i - 1]), nodes[i].payload + Bytes(nodes[i + 1..]));
    }
  }

  lemma {:induction false} ChainFrom(nodes: seq<Pbuf>, i: nat)
    requires Chain(nodes) && i < |nodes|
    ensures Chain(nodes[i..]) && nodes[i].next == NextOf(nodes, i) && nodes[i].len == |nodes[i].payload|
    decreases i
  {
    if i > 0 {
      ChainFrom(nodes[1..], i - 1);
      assert nodes[1..][i - 1..] == nodes[i..];
    } else {
      assert nodes[0..] == nodes;
    }
  }

  lemma TotLenFrom(nodes: seq<Pbuf>, i: nat)
    requires Chain(nodes) && i < |nodes|
    ensures nodes[i].totLen == |Bytes(nodes[i..])| % TOT_LEN_LIMIT
    ensures |Bytes(nodes)| == |Bytes(nodes[..i])| + |Bytes(nodes[i..])|
  {
    ChainFrom(nodes, i);
    TotLenIsBytes(nodes[i..]);
    assert nodes == nodes[..i] + nodes[i..];
    BytesConcat(nodes[..i], nodes[i..]);
  }

  /** The difference that append takes for the bytes in front of a node is right exactly when tot_len has
      wrapped around as often for this node as for the first. */
  lemma StartRightIff(nodes: seq<Pbuf>, i: nat)
    requires Chain(nodes) && i < |nodes|
    ensures Start(nodes, i) == |Bytes(nodes[..i])|
       <==> |Bytes(nodes)| / TOT_LEN_LIMIT == |Bytes(nodes[i..])| / TOT_LEN_LIMIT
  {
    TotLenIsBytes(nodes);
    TotLenFrom(nodes, i);
  }

  /** It is right for every node of a chain that sixteen bits can count. */
  lemma StartIsPrefix(nodes: seq<Pbuf>, i: nat)
    requires Chain(nodes) && Counted(nodes) && i < |nodes|
    ensures Start(nodes, i) == |Bytes(nodes[..i])|
  {
    TotLenFrom(nodes, i);
    CountedTail(nodes);
  }

  /** A chain of 64 KiB, which 512 units are, says that it is empty, and from the second node on the
      difference is below zero. */
  lemma WrapsAt64K(nodes: seq<Pbuf>, i: nat)
    requires Chain(nodes) && |Bytes(nodes)| == TOT_LEN_LIMIT && i < |nodes| && 0 < |Bytes(nodes[..i])| < TOT_LEN_LIMIT
    ensures nodes[0].totLen == 0 && Start(nodes, i) < 0
  {
    TotLenIsBytes(nodes);
    TotLenFrom(nodes, i);
  }

  /** The write position `offset` lies in node `i`, or at its end. */
  ghost predicate At(nodes: seq<Pbuf>, i: nat, offset: nat)
    requires i < |nodes|
    reads nodes
  {
    Start(nodes, i) <= offset <= Start(nodes, i) + nodes[i].len
  }

  lemma NextNode(nodes: seq<Pbuf>, i: nat, offset: nat)
    requires Chain(nodes) && Counted(nodes) && i < |nodes| && At(nodes, i, offset) && offset == Start(nodes, i) + nodes[i].len
    requires offset < nodes[0].totLen
    ensures i + 1 < |nodes| && nodes[i].next == nodes[i + 1] && At(nodes, i + 1, offset)
  {
    ChainFrom(nodes, i);
    StartIsPrefix(nodes, i);
    Copied(nodes, i, 0);
    if i + 1 < |nodes| { StartIsPrefix(nodes, i + 1); }
  }

  /** Copying goes on in node `i` where the nodes before it end. */
  lemma Copied(nodes: seq<Pbuf>, i: nat, n: nat)
    requires Chain(nodes) && i < |nodes| && n <= nodes[i].len
    ensures nodes[i].len == |nodes[i].payload| && nodes[i].next == NextOf(nodes, i)
    ensures var k := |Bytes(nodes[..i])|;
      k + n <= |Bytes(nodes)| && Bytes(nodes)[..k + n] == Bytes(nodes)[..k] + nodes[i].payload[..n]
    ensures |Bytes(nodes[..i + 1])| == |Bytes(nodes[..i])| + nodes[i].len
  {
    ChainFrom(nodes, i);
    BytesAround(nodes, i);
    BytesConcat(nodes[..i], [nodes[i]]);
    assert nodes[..i + 1] == nodes[..i] + [nodes[i]];
    assert Bytes([nodes[i]]) == nodes[i].payload + Bytes([]);
  }

  lemma AppendMore(before: seq<byte>, data: seq<byte>, done: nat, n: nat, now: seq<byte>)
    requires done + n <= |data| && now == before + data[..done] + data[done..][..n]
    ensures now == before + data[..done + n]
  {}

  /** memcpy into one node of the chain. */
  method StoreIn(p: Pbuf, ghost nodes: seq<Pbuf>, ghost i: nat, ghost offset: nat, used: nat, chunk: seq<byte>)
    requires Chain(nodes) && Counted(nodes) && i < |nodes| && nodes[i] == p
    requires used == offset - Start(nodes, i) && used + |chunk| <= p.len
    modifies p
    ensures Chain(nodes) && Counted(nodes) && |Bytes(nodes)| == |old(Bytes(nodes))| && offset + |chunk| <= |Bytes(nodes)|
    ensures Bytes(nodes)[..offset + |chunk|] == old(Bytes(nodes))[..offset] + chunk
    ensures forall k | 0 <= k < |nodes| :: nodes[k].totLen == old(nodes[k].totLen) && nodes[k].len == old(nodes[k].len)
  {
    StartIsPrefix(nodes, i);
    BytesAround(nodes, i);
    ghost var before := p.payload;
    Poke(p, nodes, i, used, chunk);
    BytesAround(nodes, i);
    Patch(Bytes(nodes[..i]), before, Bytes(nodes[i + 1..]), used, chunk);
  }

  method Poke(p: Pbuf, ghost nodes: seq<Pbuf>, ghost i: nat, used: nat, chunk: seq<byte>)
    requires Chain(nodes) && i < |nodes| && nodes[i] == p && used + |chunk| <= p.len
    modifies p
    ensures Chain(nodes) && used + |chunk| <= |old(p.payload)|
    ensures p.payload == old(p.payload)[..used] + chunk + old(p.payload)[used + |chunk|..]
    ensures Bytes(nodes[..i]) == old(Bytes(nodes[..i])) && Bytes(nodes[i + 1..]) == old(Bytes(nodes[i + 1..]))
    ensures forall k | 0 <= k < |nodes| :: nodes[k].totLen == old(nodes[k].totLen) && nodes[k].len == old(nodes[k].len)
  {
    ChainIs(nodes);
    DistinctMeans(nodes);
    p.payload := p.payload[..used] + chunk + p.payload[used + |chunk|..];
    forall k | 0 <= k < |nodes| ensures Node(nodes, k) { assert old(Node(nodes, k)); }
    ChainIs(nodes);
  }

  lemma Patch(a: seq<byte>, p: seq<byte>, b: seq<byte>, used: nat, chunk: seq<byte>)
    requires used + |chunk| <= |p|
    ensures (a + (p[..used] + chunk + p[used + |chunk|..] + b))[..|a| + used + |chunk|] == (a + (p + b))[..|a| + used] + chunk
  {}

  /** The pending data is the first `offset` bytes of the chain, and, as long as tot_len can count the
      chain, writing goes on in node `cur`. */
  ghost predicate Outgoing(nodes: seq<Pbuf>, cur: nat, offset: nat, pending: seq<byte>)
    reads nodes
  {
    && Chain(nodes) && |pending| == offset
    && if nodes == [] then offset == 0
       else cur < |nodes| && offset <= |Bytes(nodes)| && Bytes(nodes)[..offset] == pending
            && (Counted(nodes) ==> At(nodes, cur, offset))
  }

  /** pbuf_cat of one more unit. */
  method Extend(head: Pbuf, pb: Pbuf, ghost nodes: seq<Pbuf>, ghost cur: nat, ghost offset: nat, ghost pending: seq<byte>)
    requires nodes != [] && head == nodes[0] && Outgoing(nodes, cur, offset, pending) && Chain([pb]) && pb !in nodes
    modifies nodes
    ensures Outgoing(nodes + [pb], cur, offset, pending)
    ensures |Bytes(nodes + [pb])| == |old(Bytes(nodes))| + old(pb.len)
  {
    ghost var size, tail, first, here, n := |Bytes(nodes)|, |Bytes(nodes[cur..])|, head.totLen, nodes[cur].totLen, pb.len;
    TotLenIsBytes(nodes);
    TotLenFrom(nodes, cur);
    CatUnit(head, pb, nodes, cur, offset);
    ghost var all := nodes + [pb];
    assert all[0] == nodes[0] && all[cur] == nodes[cur];
    if Counted(all) { SumBoth(size, tail, first, here, n); }
  }

  method CatUnit(head: Pbuf, pb: Pbuf, ghost nodes: seq<Pbuf>, ghost cur: nat, ghost offset: nat)
    requires nodes != [] && head == nodes[0] && Chain(nodes) && Chain([pb]) && pb !in nodes
    requires cur < |nodes| && offset <= |Bytes(nodes)|
    modifies nodes
    ensures Chain(nodes + [pb]) && |Bytes(nodes + [pb])| == |old(Bytes(nodes))| + old(pb.len)
    ensures Bytes(nodes + [pb])[..offset] == old(Bytes(nodes))[..offset]
    ensures nodes[0].totLen == Sum16(old(nodes[0].totLen), old(pb.len))
    ensures nodes[cur].totLen == Sum16(old(nodes[cur].totLen), old(pb.len)) && nodes[cur].len == old(nodes[cur].len)
  {
    ghost var bytes := Bytes(nodes);
    assert Bytes([pb]) == pb.payload + Bytes([]);
    PbufCat(head, pb, nodes, [pb]);
    assert Bytes(nodes + [pb])[..offset] == bytes[..offset];
  }

  /** While the sum fits, nothing wraps around. */
  lemma SumBoth(size: nat, tail: nat, first: u16, here: u16, added: u16)
    requires first == size % TOT_LEN_LIMIT && tail <= size && here == tail % TOT_LEN_LIMIT && Sum16(first, added) == size + added
    ensures first == size && Sum16(here, added) == here + added
  {}

  /** What has arrived: the pbufs still queued, every pbuf ever handed over, the contents of all of them,
      and how many have been left behind. */
  datatype Arrivals = Arrivals(nodes: seq<Pbuf>, pool: set<Pbuf>, arrived: seq<seq<byte>>, gone: nat)

  /** The chain's pbufs have these contents. */
  ghost predicate Holds(nodes: seq<Pbuf>, parts: seq<seq<byte>>)
    reads nodes
  {
    Chain(nodes) && |nodes| == |parts| && forall k | 0 <= k < |nodes| :: nodes[k].payload == parts[k]
  }

  method Queue(head: Pbuf, pb: Pbuf, ghost nodes: seq<Pbuf>, ghost more: seq<Pbuf>,
               ghost parts: seq<seq<byte>>, ghost moreParts: seq<seq<byte>>)
    requires Holds(nodes, parts) && Holds(more, moreParts) && Apart(nodes, more)
    requires nodes != [] && more != [] && head == nodes[0] && pb == more[0]
    modifies nodes
    ensures Holds(nodes + more, parts + moreParts) && head.len == old(head.len)
  {
    assert forall k | 0 <= k < |more| :: more[k] !in nodes by {
      forall k | 0 <= k < |more| ensures more[k] !in nodes { assert more[k] in more; }
    }
    PbufCat(head, pb, nodes, more);
    forall k | 0 <= k < |nodes + more| ensures (nodes + more)[k].payload == (parts + moreParts)[k] {
      if k >= |nodes| { assert (nodes + more)[k] == more[k - |nodes|]; }
    }
  }

  method Unqueue(head: Pbuf, ghost nodes: seq<Pbuf>, ghost parts: seq<seq<byte>>)
    requires Holds(nodes, parts) && |nodes| > 1 && head == nodes[0]
    modifies nodes
    ensures Holds(nodes[1..], parts[1..]) && !head.live
  {
    DropHead(head, nodes);
  }

  // ---------- The receiving side, as its user sees it ----------

  /** The contents of all pbufs so far, how many have been left behind, whether the next one has been
      presented, and how much of it has been read. */
  datatype Inbox = Inbox(arrived: seq<seq<byte>>, gone: nat, taken: bool, offset: nat)
  {
    ghost predicate Ok() {
      gone <= |arrived| && if gone == |arrived| then offset == 0 else offset <= |arrived[gone]|
    }

    /** How many pbufs have been presented. */
    function Shown(): nat {
      gone + if taken && gone < |arrived| then 1 else 0
    }

    function Coming(parts: seq<seq<byte>>): Inbox {
      if gone == |arrived| then Inbox(arrived + parts, gone, false, 0) else this.(arrived := arrived + parts)
    }

    function AfterNext(): Inbox {
      if gone >= |arrived| then this
      else if !taken then this.(taken := true)
      else this.(gone := gone + 1, offset := 0)
    }

    /** The pbuf that next() presents. */
    function Presents(): seq<seq<byte>> {
      var b := AfterNext();
      if gone >= |arrived| || b.gone >= |arrived| then [] else [arrived[b.gone]]
    }

    /** What read(dst, n) gives. */
    function Reads(n: nat): seq<byte> {
      if gone >= |arrived| || offset > |arrived[gone]| then []
      else if n < |arrived[gone]| - offset then arrived[gone][offset..offset + n]
      else arrived[gone][offset..]
    }

    function AfterRead(n: nat): Inbox {
      this.(offset := offset + |Reads(n)|)
    }

    /** Each pbuf is presented once, in order, and none is left when next() says so; the one that next() goes
        on to is read from its beginning. */
    lemma NextInOrder()
      requires Ok()
      ensures AfterNext().Ok()
      ensures Presents() == if Shown() < |arrived| then [arrived[Shown()]] else []
      ensures AfterNext().Shown() == Shown() + |Presents()|
      ensures Presents() != [] && (taken || offset == 0) ==> AfterNext().Reads(|Presents()[0]|) == Presents()[0]
    {}

    /** Arriving pbufs change nothing of what has been presented and read. */
    lemma ComingKeeps(parts: seq<seq<byte>>)
      requires Ok() && parts != []
      ensures Coming(parts).Ok() && Coming(parts).Shown() == Shown() && Coming(parts).arrived == arrived + parts
    {}

    /** Reads give the bytes of the current pbuf one after the other, as many as asked for or left. */
    lemma ReadInOrder(n: nat)
      requires Ok()
      ensures AfterRead(n).Ok() && AfterRead(n).Shown() == Shown()
      ensures gone < |arrived| ==>
        && arrived[gone][..AfterRead(n).offset] == arrived[gone][..offset] + Reads(n)
        && |Reads(n)| == if n < |arrived[gone]| - offset then n else |arrived[gone]| - offset
    {}
  }

  class UdpContext {
    var txHead: Pbuf?
    var txCur: Pbuf?
    var txOffset: nat
    ghost var tx: seq<Pbuf>
    ghost var cur: nat
    ghost var pool: set<Pbuf>
    /** Appended and not yet sent. */
    ghost var pending: seq<byte>
    /** Every datagram handed to udp_sendto, and how often pbuf_alloc has failed. */
    ghost var handed: seq<seq<byte>>
    ghost var refusals: nat

    var rxBuf: Pbuf?
    var firstBufTaken: bool
    var rxOffset: nat
    ghost var rx: Arrivals

    /** What is pending can be sent. */
    ghost predicate Sendable()
      reads this, tx
    {
      && Outgoing(tx, cur, txOffset, pending) && (forall p | p in tx :: p in pool)
      && txHead == (if tx == [] then null else tx[0]) && txCur == (if tx == [] then null else tx[cur])
    }

    /** And more can be appended: tot_len has not wrapped around. */
    ghost predicate Valid()
      reads this, tx
    {
      Sendable() && Counted(tx)
    }

    /** Every pbuf that was ever allocated for sending is in the chain or has been given back. */
    ghost predicate TxSettled()
      reads this, pool
    {
      forall p | p in pool :: p in tx || !p.live
    }

    /** Every pbuf that ever arrived is still queued or has been given back. */
    ghost predicate RxSettled()
      reads this, rx.pool
    {
      forall p | p in rx.pool :: p in rx.nodes || !p.live
    }

    /** pbuf_alloc, which may fail; the bytes of a new pbuf are whatever was there. */
    method PbufAlloc(n: u16) returns (p: Pbuf?)
      modifies this`refusals
      ensures refusals == old(refusals) + if p == null then 1 else 0
      ensures p != null ==> fresh(p) && Chain([p]) && p.len == p.totLen == n
    {
      var granted: bool := *;
      if !granted {
        refusals := refusals + 1;
        return null;
      }
      assert |seq(n, (_: nat) => 0 as byte)| == n;
      var junk: seq<byte> :| |junk| == n;
      p := new Pbuf(junk);
    }

    /** The bytes of the chain, written or not. */
    ghost function Room(): nat
      reads this, tx
    {
      |Bytes(tx)|
    }

    constructor ()
      ensures Valid() && tx == [] && pool == {} && pending == [] && handed == []
      ensures RxValid() && rx == Arrivals([], {}, [], 0) && Box() == Inbox([], 0, false, 0)
    {
      txHead, txCur, txOffset, tx, cur, pool, pending, handed, refusals := null, null, 0, [], 0, {}, [], [], 0;
      rxBuf, firstBufTaken, rxOffset, rx := null, false, 0, Arrivals([], {}, [], 0);
    }

    /** Where nothing of the sending side has changed, it is still as it should be. */
    twostate lemma StillPending()
      requires old(Sendable()) && txHead == old(txHead) && txCur == old(txCur) && txOffset == old(txOffset)
      requires tx == old(tx) && cur == old(cur) && pool == old(pool) && pending == old(pending) && unchanged(tx)
      ensures Sendable() && (old(Valid()) ==> Valid())
    {}

    /** append: all of it is pending afterwards, or none of it.  Data that takes the chain to 64 KiB is
        refused, but only after tot_len has wrapped around: then the pending data can still be sent, but
        nothing can be appended before that. */
    method Append(data: seq<byte>) returns (n: nat)
      requires Valid()
      modifies this`txHead, this`txCur, this`txOffset, this`tx, this`cur, this`pool, this`pending, this`refusals, pool
      ensures Sendable() && fresh(pool - old(pool)) && refusals >= old(refusals) && (old(TxSettled()) ==> TxSettled())
      ensures n == |data| || n == 0
      ensures pending == old(pending) + if n == 0 then [] else data
      ensures |old(pending)| + |data| + 128 < 0x1_0000 ==>
        Valid() && (n == |data| || refusals > old(refusals))
      ensures n == |data| > 0 ==> Valid()
    {
      if txHead == null || txHead.totLen < txOffset + |data| { Reserve(txOffset + |data|); }
      if txHead == null || txHead.totLen < txOffset + |data| { return 0; }
      Fill(data);
      n := |data|;
    }

    /** _reserve: units are added until there is room, or the allocator gives up.  When more room was asked
        for than tot_len can count, tot_len says less than that afterwards. */
    method Reserve(size: nat)
      requires Valid() && txOffset <= size && (txHead == null || txHead.totLen < size)
      modifies this`txHead, this`txCur, this`txOffset, this`tx, this`cur, this`pool, this`refusals, pool
      ensures Sendable() && txOffset == old(txOffset) && refusals >= old(refusals) && fresh(pool - old(pool))
      ensures (old(TxSettled()) ==> TxSettled()) && Room() <= size + PBUF_UNIT_SIZE
      ensures txHead == null ==> refusals > old(refusals)
      ensures txHead != null ==> Reserved(size, refusals > old(refusals))
    {
      if txHead == null {
        var pb := PbufAlloc(PBUF_UNIT_SIZE);
        if pb == null { return; }
        Begin(pb);
      }
      AddUnits(size);
    }

    /** What adding units for `size` bytes has led to. */
    ghost predicate Reserved(size: nat, refused: bool)
      reads this, tx, txHead
    {
      && txHead != null
      && (Counted(tx) || txHead.totLen < size)
      && (size + PBUF_UNIT_SIZE < TOT_LEN_LIMIT ==> Counted(tx) && (txHead.totLen >= size || refused))
    }

    method AddUnits(size: nat)
      requires Valid() && txHead != null && (txHead.totLen < size || txHead.totLen == PBUF_UNIT_SIZE)
      modifies this`tx, this`pool, this`refusals, pool
      ensures Sendable() && refusals >= old(refusals) && fresh(pool - old(pool)) && Reserved(size, refusals > old(refusals))
      ensures (old(TxSettled()) ==> TxSettled()) && Room() <= size + PBUF_UNIT_SIZE
    {
      var curSize := txHead.totLen;
      if size < curSize { return; }
      var growSize := size - curSize;
      while growSize > 0
        invariant Sendable() && refusals == old(refusals) && fresh(pool - old(pool)) && txHead == old(txHead) != null
        invariant 0 <= growSize && Room() + growSize == size && (old(TxSettled()) ==> TxSettled())
      {
        var ok := TryAddUnit();
        if !ok || growSize < PBUF_UNIT_SIZE { break; }
        growSize := growSize - PBUF_UNIT_SIZE;
      }
      Wrapping(size);
    }

    /** A chain for `size` bytes that has wrapped around says it holds less. */
    lemma Wrapping(size: nat)
      requires Sendable() && tx != [] && Room() <= size + PBUF_UNIT_SIZE
      ensures Counted(tx) || txHead.totLen < size
      ensures size + PBUF_UNIT_SIZE < TOT_LEN_LIMIT ==> Counted(tx) && txHead.totLen == Room()
    {
      TotLenIsBytes(tx);
    }

    method TryAddUnit() returns (ok: bool)
      requires Sendable() && txHead != null
      modifies this`tx, this`pool, this`refusals, pool
      ensures Sendable() && tx != [] && fresh(pool - old(pool)) && refusals == old(refusals) + (if ok then 0 else 1)
      ensures Room() == old(Room()) + (if ok then PBUF_UNIT_SIZE else 0) && (old(TxSettled()) ==> TxSettled())
    {
      var pb := PbufAlloc(PBUF_UNIT_SIZE);
      ok := pb != null;
      if ok { AddUnit(pb); }
    }

    method Begin(pb: Pbuf)
      requires Valid() && tx == [] && Chain([pb])
      modifies this`txHead, this`txCur, this`txOffset, this`tx, this`cur, this`pool
      ensures Valid() && tx == [pb] && txHead == pb && pool == old(pool) + {pb} && txOffset == 0
      ensures old(TxSettled()) ==> TxSettled()
    {
      assert Bytes([pb]) == pb.payload + Bytes([]);
      assert Bytes([pb])[..0] == pending;
      txHead, txCur, txOffset, tx, cur, pool := pb, pb, 0, [pb], 0, pool + {pb};
    }

    method AddUnit(pb: Pbuf)
      requires Sendable() && txHead != null && Chain([pb]) && pb !in tx
      modifies this`tx, this`pool, pool
      ensures Sendable() && tx != [] && pool == old(pool) + {pb} && Room() == old(Room()) + old(pb.len)
      ensures old(TxSettled()) ==> TxSettled()
    {
      Extend(txHead, pb, tx, cur, txOffset, pending);
      tx, pool := tx + [pb], pool + {pb};
    }

    /** The copying loop of append. */
    method Fill(data: seq<byte>)
      requires Valid() && txHead != null && txOffset + |data| <= txHead.totLen
      modifies this`txCur, this`txOffset, this`cur, this`pending, pool
      ensures Valid() && pending == old(pending) + data && (old(TxSettled()) ==> TxSettled())
    {
      var done := 0;
      ghost var before := pending;
      assert before + data[..0] == before;
      while done < |data|
        invariant done <= |data| && Valid() && txOffset + (|data| - done) <= txHead.totLen
        invariant pending == before + data[..done] && (old(TxSettled()) ==> TxSettled())
        decreases |data| - done, |tx| - cur
      {
        var n := FillStep(data[done..]);
        AppendMore(before, data, done, n, pending);
        done := done + n;
      }
      assert data[..done] == data;
    }

    /** One round: on to the next pbuf, or as much as fits into this one. */
    method FillStep(data: seq<byte>) returns (n: nat)
      requires Valid() && txHead != null && data != [] && txOffset + |data| <= txHead.totLen
      modifies this`txCur, this`txOffset, this`cur, this`pending, pool
      ensures Valid() && n <= |data| && pending == old(pending) + data[..n] && txOffset == old(txOffset) + n
      ensures txHead.totLen == old(txHead.totLen) && old(cur) <= cur && (n == 0 ==> cur > old(cur))
      ensures old(TxSettled()) ==> TxSettled()
    {
      var usedCur := txOffset - (txHead.totLen - txCur.totLen);
      var freeCur := txCur.len - usedCur;
      if freeCur == 0 {
        NextNode(tx, cur, txOffset);
        txCur := txCur.next;
        cur := cur + 1;
        n := 0;
      } else {
        n := if |data| < freeCur then |data| else freeCur;
        Store(usedCur, data[..n]);
      }
    }

    method Store(usedCur: nat, chunk: seq<byte>)
      requires Valid() && txHead != null && usedCur == txOffset - Start(tx, cur) && usedCur + |chunk| <= txCur.len
      modifies this`txOffset, this`pending, pool
      ensures Valid() && pending == old(pending) + chunk && txOffset == old(txOffset) + |chunk|
      ensures txHead.totLen == old(txHead.totLen) && (old(TxSettled()) ==> TxSettled())
    {
      StoreIn(txCur, tx, cur, txOffset, usedCur, chunk);
      txOffset := txOffset + |chunk|;
      pending := pending + chunk;
    }

    /** send: one datagram with everything pending, which is gone afterwards in any case. */
    method Send() returns (ok: bool)
      requires Sendable()
      modifies this`txHead, this`txCur, this`txOffset, this`tx, this`cur, this`pending, this`handed, this`refusals, pool
      ensures Valid() && pending == [] && txHead == null && tx == [] && (old(TxSettled()) ==> TxSettled())
      ensures handed == old(handed) + [old(pending)] || (handed == old(handed) && refusals > old(refusals) && !ok)
    {
      var dataSize := txOffset;
      var granted: bool := *;
      var copy := [];
      if !granted {
        refusals := refusals + 1;
      } else {
        copy := Gather(dataSize);
      }
      Drop();
      if !granted { return false; }
      handed := handed + [copy];
      ok := *;
    }

    /** The chain goes back, sent or not. */
    method Drop()
      requires Sendable()
      modifies this`txHead, this`txCur, this`txOffset, this`tx, this`cur, this`pending, pool
      ensures Valid() && pending == [] && txHead == null && tx == [] && (old(TxSettled()) ==> TxSettled())
    {
      GiveBack();
      txHead, txCur, txOffset, tx, cur, pending := null, null, 0, [], 0, [];
    }

    method GiveBack()
      requires Sendable()
      modifies pool
      ensures (forall p | p in tx :: !p.live) && (old(TxSettled()) ==> TxSettled())
    {
      if txHead != null { FreeAll(txHead, tx); }
    }

    /** The copy loop of send. */
    method Gather(dataSize: nat) returns (copy: seq<byte>)
      requires Sendable() && dataSize == txOffset
      ensures copy == pending
    {
      copy := [];
      var p := txHead;
      var left := dataSize;
      ghost var i := 0;
      while p != null
        invariant i <= |tx| && p == (if i < |tx| then tx[i] else null)
        invariant 0 <= left <= dataSize && |copy| == dataSize - left <= |Bytes(tx)| && copy == Bytes(tx)[..|copy|]
        invariant left > 0 ==> |copy| == |Bytes(tx[..i])|
        decreases |tx| - i
      {
        var willCopy := if left < p.len then left else p.len;
        Copied(tx, i, if left > 0 then willCopy else 0);
        if left == 0 { assert p.payload[..0] == []; }
        copy := copy + p.payload[..willCopy];
        left := left - willCopy;
        p := p.next;
        i := i + 1;
      }
      assert tx[..|tx|] == tx;
    }
 
    // ---------- Receiving ----------

    /** The queue holds the pbufs that have not been presented and left behind. */
    ghost predicate RxValid()
      reads this, rx.nodes
    {
      && rx.gone <= |rx.arrived| && Holds(rx.nodes, rx.arrived[rx.gone..]) && (forall p | p in rx.nodes :: p in rx.pool)
      && rxBuf == (if rx.nodes == [] then null else rx.nodes[0])
      && rxOffset <= (if rxBuf == null then 0 else rxBuf.len)
    }

    /** Where nothing of the receiving side has changed, it is still as it should be. */
    twostate lemma StillQueued()
      requires old(RxValid()) && rx == old(rx) && rxBuf == old(rxBuf) && rxOffset == old(rxOffset) && unchanged(rx.nodes)
      ensures RxValid()
    {}

    ghost function Box(): Inbox
      reads this
    {
      Inbox(rx.arrived, rx.gone, firstBufTaken, rxOffset)
    }

    /** _recv. */
    method Recv(pb: Pbuf, ghost more: seq<Pbuf>, ghost parts: seq<seq<byte>>)
      requires RxValid() && Holds(more, parts) && more != [] && pb == more[0] && Apart(rx.nodes, more)
      modifies this`rxBuf, this`firstBufTaken, this`rxOffset, this`rx, rx.pool
      ensures RxValid() && Box() == old(Box()).Coming(parts) && (old(RxSettled()) ==> RxSettled())
      ensures rx.nodes == old(rx.nodes) + more && rx.pool == old(rx.pool) + set p | p in more
    {
      hide Chain;
      assert (rx.arrived + parts)[rx.gone..] == rx.arrived[rx.gone..] + parts;
      if rxBuf != null {
        RecvMore(pb, more, parts);
      } else {
        firstBufTaken := false;
        rxBuf, rxOffset, rx := pb, 0, Arrivals(more, rx.pool + (set p | p in more), rx.arrived + parts, rx.gone);
      }
    }

    /** The new pbufs join the queue. */
    method RecvMore(pb: Pbuf, ghost more: seq<Pbuf>, ghost parts: seq<seq<byte>>)
      requires RxValid() && Holds(more, parts) && more != [] && pb == more[0] && Apart(rx.nodes, more)
      requires rxBuf != null
      requires (rx.arrived + parts)[rx.gone..] == rx.arrived[rx.gone..] + parts
      modifies this`rx, rx.pool
      ensures RxValid() && rx.arrived == old(rx.arrived) + parts && rx.gone == old(rx.gone)
      ensures rx.nodes == old(rx.nodes) + more && rx.pool == old(rx.pool) + (set p | p in more) && (old(RxSettled()) ==> RxSettled())
    {
      Queue(rxBuf, pb, rx.nodes, more, rx.arrived[rx.gone..], parts);
      rx := Arrivals(rx.nodes + more, rx.pool + (set p | p in more), rx.arrived + parts, rx.gone);
    }

    /** next: presents the arrived pbufs one after the other, each once. */
    method Next() returns (yes: bool)
      requires RxValid()
      modifies this`rxBuf, this`firstBufTaken, this`rxOffset, this`rx, rx.pool
      ensures RxValid() && rx.pool == old(rx.pool) && Box() == old(Box()).AfterNext() && (old(RxSettled()) ==> RxSettled())
      ensures if yes then rxBuf != null && old(Box()).Presents() == [rxBuf.payload] else rxBuf == null && old(Box()).Presents() == []
    {
      BoxOk();
      if rxBuf == null { return false; }
      if !firstBufTaken {
        firstBufTaken := true;
        return true;
      }
      yes := Leave();
    }

    lemma BoxOk()
      requires RxValid()
      ensures Box().Ok() && (rxBuf == null <==> rx.gone == |rx.arrived|)
      ensures rxBuf != null ==> rxBuf.payload == rx.arrived[rx.gone] && rxBuf.len == |rxBuf.payload| && rxBuf.next == NextOf(rx.nodes, 0)
    {
      if rxBuf != null { assert rx.nodes[0].payload == rx.arrived[rx.gone..][0]; }
    }

    /** The part of next that goes on to the next pbuf. */
    method Leave() returns (yes: bool)
      requires RxValid() && rxBuf != null
      modifies this`rxBuf, this`rxOffset, this`rx, rx.pool
      ensures RxValid() && rx.arrived == old(rx.arrived) && rx.gone == old(rx.gone) + 1 && rx.pool == old(rx.pool) && rxOffset == 0
      ensures old(RxSettled()) ==> RxSettled()
      ensures yes <==> rxBuf != null
      ensures yes ==> rx.gone < |rx.arrived| && rxBuf.payload == rx.arrived[rx.gone]
    {
      BoxOk();
      var head, next := rxBuf, rxBuf.next;
      DropDrop(rx.arrived, rx.gone, 1);
      if next == null {
        FreeAll(head, rx.nodes);
        rxBuf, rxOffset, rx := null, 0, Arrivals([], rx.pool, rx.arrived, rx.gone + 1);
        yes := false;
      } else {
        Unqueue(head, rx.nodes, rx.arrived[rx.gone..]);
        TailIn(rx.nodes, rx.pool);
        rxBuf, rxOffset, rx := next, 0, Arrivals(rx.nodes[1..], rx.pool, rx.arrived, rx.gone + 1);
        yes := true;
        BoxOk();
      }
    }

    /** read(dst, size): from the pbuf being presented only. */
    method Read(dst: array<byte>, size: nat) returns (n: nat)
      requires RxValid() && size <= dst.Length
      modifies this`rxOffset, dst
      ensures RxValid() && Box() == old(Box()).AfterRead(size)
      ensures n == |old(Box()).Reads(size)| && dst[..n] == old(Box()).Reads(size)
    {
      BoxOk();
      if rxBuf == null { return 0; }
      var maxSize := rxBuf.len - rxOffset;
      n := if size < maxSize then size else maxSize;
      var chunk := rxBuf.payload[rxOffset..rxOffset + n];
      forall k | 0 <= k < n { dst[k] := chunk[k]; }
      assert dst[..n] == chunk;
      Consume(n);
    }

    /** _consume: the offset stops at the end of the pbuf. */
    method Consume(size: nat)
      requires RxValid() && rxBuf != null
      modifies this`rxOffset
      ensures RxValid() && rxOffset == if old(rxOffset) + size > rxBuf.len then rxBuf.len else old(rxOffset) + size
    {
      rxOffset := rxOffset + size;
      if rxOffset > rxBuf.len { rxOffset := rxBuf.len; }
    }
  }
}

/** Whole runs of a TCP connection (libraries/W600WiFi/ClientContext.h): pbufs arrive, are read and
    discarded, data is written and the connection ends, in any order. */
module ConnectionRuns {
  import opened Sequences
  import opened Helpers
  import opened Pbufs
  import opened DataSources
  import opened ClientContext

  datatype Op =
    | Arrive(parts: seq<seq<byte>>)   // a chain of pbufs with these contents comes in
    | HangUp
    | ReadOne(stale: byte)
    | ReadSome(n: nat)
    | Discard
    | Send(data: seq<byte>, viaStream: bool)

  /** What moved: into the queue, out of it, and to the stack. */
  datatype Flow = Flow(arrived: seq<byte>, taken: seq<byte>, sent: seq<byte>)

  const NOTHING: Flow := Flow([], [], [])

  /** What an operation moved, and how many bytes the chain held when it began: those pending, and those
      of its first pbuf that had been read; `quit` says that a write ended early. */
  datatype Moved = Moved(held: nat, flow: Flow, quit: bool)

  /** No empty pbuf arrives. */
  predicate Filled(op: Op) {
    op.Arrive? ==> forall i | 0 <= i < |op.parts| :: op.parts[i] != []
  }

  /** What the operation has to move when `pending` bytes are queued.  A chain comes in unless it would
      take the queue to 64 KiB, which the receive window does not let happen.  A single byte is read
      whenever there is one and `solid` says that no empty pbuf is queued. */
  ghost predicate Does(op: Op, m: Moved, pending: int, solid: bool) {
    && pending <= m.held
    && match op
       case Arrive(parts) => m.flow == Flow(if m.held + |Flat(parts)| < TOT_LEN_LIMIT then Flat(parts) else [], [], [])
       case HangUp => m.flow == NOTHING
       case ReadOne(_) =>
         m.flow == Flow([], m.flow.taken, []) && |m.flow.taken| <= Least(1, pending) && (solid ==> |m.flow.taken| == Least(1, pending))
       case ReadSome(n) => m.flow == Flow([], m.flow.taken, []) && |m.flow.taken| == Least(n, pending)
       case Discard => m.flow == Flow([], m.flow.taken, []) && |m.flow.taken| == pending
       case Send(data, _) => m.flow == Flow([], [], m.flow.sent) && if m.quit then m.flow.sent < data else m.flow.sent == data
  }

  lemma {:induction false} PartsFit(parts: seq<seq<byte>>, k: nat)
    requires k < |parts|
    ensures |parts[k]| <= |Flat(parts)|
  {
    if k > 0 { PartsFit(parts[1..], k - 1); }
  }

  /** A chain of new pbufs with these contents, ready to be queued. */
  method NewChain(parts: seq<seq<byte>>) returns (pb: Pbuf?, ghost nodes: seq<Pbuf>)
    requires |Flat(parts)| < TOT_LEN_LIMIT
    ensures pb == (if nodes == [] then null else nodes[0]) && (forall p | p in nodes :: fresh(p))
    ensures Chain(nodes) && Counted(nodes) && Bytes(nodes) == Flat(parts) && Total(nodes) == |Flat(parts)|
    ensures |nodes| == |parts| && (parts != [] ==> nodes[0].len == |parts[0]|)
    ensures (nodes == [] <==> parts == []) && ((forall i | 0 <= i < |parts| :: parts[i] != []) ==> Solid(nodes))
  {
    forall k | 0 <= k < |parts| ensures |parts[k]| < TOT_LEN_LIMIT { PartsFit(parts, k); }
    pb, nodes := MakeChain(parts);
    BytesAre(nodes, parts);
    ChainIs(nodes);
    if nodes != [] { TotLenIsBytes(nodes); }
  }

  // ---------- One operation ----------

  /** The connection is in order, no write is going on, and no pbuf has got lost. */
  ghost predicate Ready(c: ClientContext)
    reads c, c.rx.nodes, c.rx.pool, c.tcp
  {
    c.Valid() && c.dataSource == null && c.Settled()
  }

  /** The bytes moved are those that came in, those at the front of the queue, and those the stack took. */
  twostate predicate Moves(c: ClientContext, new f: Flow)
    reads c, c.tcp
  {
    && c.rx.bytes == old(c.rx.bytes) + f.arrived
    && old(c.rx.gone) <= c.rx.gone <= |c.rx.bytes| && f.taken == c.rx.bytes[old(c.rx.gone)..c.rx.gone]
    && c.tcp.accepted == old(c.tcp.accepted) + f.sent && (c.pcb == null || c.pcb == old(c.pcb))
  }

  method ComingIn(c: ClientContext, parts: seq<seq<byte>>) returns (ghost f: Flow)
    requires Ready(c) && parts != [] && Total(c.rx.nodes) + |Flat(parts)| < TOT_LEN_LIMIT
    modifies c`rxBuf, c`rxOffset, c`rx, c`pcb, c.rx.pool
    ensures Ready(c) && Moves(c, f) && fresh(c.rx.pool - old(c.rx.pool))
    ensures f == Flow(Flat(parts), [], []) && (old(Solid(c.rx.nodes)) && Filled(Arrive(parts)) ==> Solid(c.rx.nodes))
  {
    hide Bytes, Flat, Total, ClientContext.Queued;
    c.GoneWithin();
    var pb;
    ghost var nodes;
    pb, nodes := NewChain(parts);
    c.Recv(pb, nodes);
    f := Flow(Flat(parts), [], []);
  }

  method Arriving(c: ClientContext, parts: seq<seq<byte>>) returns (ghost f: Flow)
    requires Ready(c)
    modifies c`rxBuf, c`rxOffset, c`rx, c`pcb, c.rx.pool
    ensures Ready(c) && Moves(c, f) && fresh(c.rx.pool - old(c.rx.pool))
    ensures f == Flow(if old(Total(c.rx.nodes)) + |Flat(parts)| < TOT_LEN_LIMIT then Flat(parts) else [], [], [])
    ensures old(Solid(c.rx.nodes)) && Filled(Arrive(parts)) ==> Solid(c.rx.nodes)
  {
    f := NOTHING;
    var held := if c.rxBuf == null then 0 else c.rxBuf.totLen;
    if parts == [] || held + |Flat(parts)| >= TOT_LEN_LIMIT { return; }
    f := ComingIn(c, parts);
  }

  method Reading(c: ClientContext, n: nat) returns (ghost f: Flow)
    requires Ready(c)
    modifies c`rxBuf, c`rxOffset, c`rx, c.tcp`credited, c.rx.pool
    ensures Ready(c) && Moves(c, f) && c.rx.pool == old(c.rx.pool) && (old(Solid(c.rx.nodes)) ==> Solid(c.rx.nodes))
    ensures f == Flow([], f.taken, []) && |f.taken| == Least(n, old(|c.rx.bytes| - c.rx.gone))
  {
    var dst := new byte[n];
    var got := c.ReadBytes(dst, n);
    f := Flow([], dst[..got], []);
  }

  method ReadingOne(c: ClientContext, stale: byte) returns (ghost f: Flow)
    requires Ready(c)
    modifies c`rxBuf, c`rxOffset, c`rx, c.tcp`credited, c.rx.pool
    ensures Ready(c) && Moves(c, f) && c.rx.pool == old(c.rx.pool) && (old(Solid(c.rx.nodes)) ==> Solid(c.rx.nodes))
    ensures f == Flow([], f.taken, []) && |f.taken| <= Least(1, old(|c.rx.bytes| - c.rx.gone))
    ensures old(Solid(c.rx.nodes)) ==> |f.taken| == Least(1, old(|c.rx.bytes| - c.rx.gone))
  {
    c.FrontIsNext(stale);
    ghost var some := c.HeadLeft() > 0;
    var b := c.Read(stale);
    assert c.rx.bytes[old(c.rx.gone)..c.rx.gone] == if some then [b] else [];
    f := Flow([], if some then [b] else [], []);
  }

  method Discarding(c: ClientContext) returns (ghost f: Flow)
    requires Ready(c)
    modifies c`rxBuf, c`rxOffset, c`rx, c.tcp`credited, c.rx.pool
    ensures Ready(c) && Moves(c, f) && c.rx.pool == old(c.rx.pool) && (old(Solid(c.rx.nodes)) ==> Solid(c.rx.nodes))
    ensures f == Flow([], f.taken, []) && |f.taken| == old(|c.rx.bytes| - c.rx.gone)
  {
    c.GoneWithin();
    f := Flow([], c.rx.bytes[c.rx.gone..], []);
    c.DiscardReceived();
  }

  /** The write ended early because the connection is closed or the time allowed has passed. */
  twostate predicate Quit(c: ClientContext)
    reads c, c.pcb, c.clock
  {
    c.IsClosed() || c.clock.now > old(c.clock.now) + c.timeoutMs
  }

  method Sending(c: ClientContext, data: seq<byte>, viaStream: bool) returns (ghost f: Flow, ghost quit: bool)
    requires Ready(c)
    modifies c`dataSource, c`written, c`opStart, c.clock`now, c`pcb
    modifies c.tcp`accepted, c.tcp`book, c.tcp`closed, c.tcp`sndBuf, c.tcp`queueFull, c.tcp`losses
    ensures Ready(c) && Moves(c, f) && Solid(c.rx.nodes) == old(Solid(c.rx.nodes)) && f == Flow([], [], f.sent)
    ensures if quit then f.sent < data && Quit(c) else f.sent == data
  {
    c.GoneWithin();
    var block := new byte[|data|](i requires 0 <= i < |data| => data[i]);
    assert block[..] == data;
    var n;
    if viaStream { n := c.WriteProgmem(block, |data|); } else { n := c.Write(block, |data|); }
    f, quit := Flow([], [], data[..n]), n < |data|;
  }

  method HangingUp(c: ClientContext) returns (ghost f: Flow)
    requires Ready(c)
    modifies c`rxBuf, c`rxOffset, c`rx, c`pcb, c.rx.pool
    ensures Ready(c) && Moves(c, f) && c.rx.pool == old(c.rx.pool) && f == NOTHING && c.pcb == null
    ensures old(Solid(c.rx.nodes)) ==> Solid(c.rx.nodes)
  {
    c.GoneWithin();
    c.Recv(null, []);
    f := NOTHING;
  }

  method Step(c: ClientContext, op: Op) returns (ghost m: Moved)
    requires Ready(c)
    modifies c, c.tcp, c.clock, c.rx.pool
    ensures Ready(c) && Moves(c, m.flow) && fresh(c.rx.pool - old(c.rx.pool)) && m.held == old(Total(c.rx.nodes))
    ensures Does(op, m, old(|c.rx.bytes| - c.rx.gone), old(Solid(c.rx.nodes))) && (m.quit ==> op.Send? && Quit(c))
    ensures old(Solid(c.rx.nodes)) && Filled(op) ==> Solid(c.rx.nodes)
  {
    ghost var held, f, quit := Total(c.rx.nodes), NOTHING, false;
    c.GoneWithin();
    match op {
      case Arrive(parts) => f := Arriving(c, parts);
      case HangUp => f := HangingUp(c);
      case ReadOne(stale) => f := ReadingOne(c, stale);
      case ReadSome(n) => f := Reading(c, n);
      case Discard => f := Discarding(c);
      case Send(data, viaStream) => f, quit := Sending(c, data, viaStream);
    }
    m := Moved(held, f, quit);
  }

  // ---------- Runs ----------

  /** Everything that a run moved. */
  ghost function Sum(ms: seq<Moved>): Flow {
    if ms == [] then NOTHING
    else
      var s, f := Sum(ms[..|ms| - 1]), ms[|ms| - 1].flow;
      Flow(s.arrived + f.arrived, s.taken + f.taken, s.sent + f.sent)
  }

  lemma SumSnoc(ms: seq<Moved>, m: Moved)
    ensures var s, f := Sum(ms), m.flow; Sum(ms + [m]) == Flow(s.arrived + f.arrived, s.taken + f.taken, s.sent + f.sent)
  {
    assert (ms + [m])[..|ms|] == ms;
  }

  /** How many bytes are pending after these moves when `start` were pending before. */
  ghost function PendingAfter(start: nat, ms: seq<Moved>): int {
    start + |Sum(ms).arrived| - |Sum(ms).taken|
  }

  predicate AllFilled(ops: seq<Op>) {
    ops == [] || (AllFilled(ops[..|ops| - 1]) && Filled(ops[|ops| - 1]))
  }

  /** Each operation moved what it had to. */
  ghost predicate Did(ops: seq<Op>, ms: seq<Moved>, start: nat, solid: bool)
    decreases |ms|
  {
    && |ms| <= |ops|
    && (ms == [] ||
        (var n := |ms| - 1;
          && Did(ops, ms[..n], start, solid)
          && Does(ops[n], ms[n], PendingAfter(start, ms[..n]), solid && AllFilled(ops[..n]))))
  }

  lemma DidSnoc(ops: seq<Op>, ms: seq<Moved>, m: Moved, start: nat, solid: bool, nowSolid: bool)
    requires Did(ops, ms, start, solid) && |ms| < |ops| && Does(ops[|ms|], m, PendingAfter(start, ms), nowSolid)
    requires solid && AllFilled(ops[..|ms|]) ==> nowSolid
    ensures Did(ops, ms + [m], start, solid)
    ensures AllFilled(ops[..|ms| + 1]) <==> AllFilled(ops[..|ms|]) && Filled(ops[|ms|])
  {
    assert (ms + [m])[..|ms|] == ms;
    assert ops[..|ms| + 1][..|ms|] == ops[..|ms|];
  }

  /** Where a run stands that began with `bytes` received, `gone` of them gone, and `accepted` sent, when
      `all` are received now, `now` of them gone, and `taken` sent. */
  ghost predicate StandsAt(all: seq<byte>, now: nat, taken: seq<byte>, ms: seq<Moved>, bytes: seq<byte>, gone: nat, accepted: seq<byte>) {
    && all == bytes + Sum(ms).arrived && gone <= now <= |all|
    && Sum(ms).taken == all[gone..now] && taken == accepted + Sum(ms).sent
  }

  ghost predicate Stands(c: ClientContext, ms: seq<Moved>, bytes: seq<byte>, gone: nat, accepted: seq<byte>)
    reads c, c.tcp
  {
    StandsAt(c.rx.bytes, c.rx.gone, c.tcp.accepted, ms, bytes, gone, accepted)
  }

  lemma StandsSnoc(all: seq<byte>, now: nat, taken: seq<byte>, ms: seq<Moved>, bytes: seq<byte>, gone: nat, accepted: seq<byte>,
                   m: Moved, later: nat)
    requires StandsAt(all, now, taken, ms, bytes, gone, accepted)
    requires now <= later <= |all + m.flow.arrived| && m.flow.taken == (all + m.flow.arrived)[now..later]
    ensures StandsAt(all + m.flow.arrived, later, taken + m.flow.sent, ms + [m], bytes, gone, accepted)
  {
    SumSnoc(ms, m);
    Assoc(bytes, Sum(ms).arrived, m.flow.arrived);
    Assoc(accepted, Sum(ms).sent, m.flow.sent);
    TakenOn(all, m.flow.arrived, gone, now, later);
  }

  /** In any run the bytes that were pending or arrived are the bytes that were taken and those still
      pending, in order; while the connection lasts, the window credit and what the chain holds make up
      all bytes received; and the stack has taken what the writes say. */
  method Run(c: ClientContext, ops: seq<Op>) returns (ghost ms: seq<Moved>)
    requires Ready(c)
    modifies c, c.tcp, c.clock, c.rx.pool
    ensures Ready(c) && fresh(c.rx.pool - old(c.rx.pool)) && c.rx.gone <= |c.rx.bytes| && old(c.rx.gone) <= old(|c.rx.bytes|)
    ensures |ms| == |ops| && Did(ops, ms, old(|c.rx.bytes| - c.rx.gone), old(Solid(c.rx.nodes)))
    ensures old(c.rx.bytes[c.rx.gone..]) + Sum(ms).arrived == Sum(ms).taken + c.rx.bytes[c.rx.gone..]
    ensures c.pcb != null ==> c.tcp.credited + Total(c.rx.nodes) == old(|c.rx.bytes|) + |Sum(ms).arrived|
    ensures c.tcp.accepted == old(c.tcp.accepted) + Sum(ms).sent
  {
    c.GoneWithin();
    ghost var bytes, gone := c.rx.bytes, c.rx.gone;
    ms := StepAll(c, ops, bytes, gone, c.tcp.accepted);
    Balance(bytes, gone, Sum(ms).arrived, c.rx.gone);
  }

  method StepAll(c: ClientContext, ops: seq<Op>, ghost bytes: seq<byte>, ghost gone: nat, ghost accepted: seq<byte>)
    returns (ghost ms: seq<Moved>)
    requires Ready(c) && gone <= |bytes| && Stands(c, [], bytes, gone, accepted)
    modifies c, c.tcp, c.clock, c.rx.pool
    ensures Ready(c) && fresh(c.rx.pool - old(c.rx.pool)) && |ms| == |ops| && Stands(c, ms, bytes, gone, accepted)
    ensures Did(ops, ms, |bytes| - gone, old(Solid(c.rx.nodes)))
  {
    ms := [];
    var k := 0;
    ghost var solid := Solid(c.rx.nodes);
    assert ops[..0] == [];
    while k < |ops|
      invariant k == |ms| <= |ops| && Ready(c) && fresh(c.rx.pool - old(c.rx.pool))
      invariant Did(ops, ms, |bytes| - gone, solid) && Stands(c, ms, bytes, gone, accepted)
      invariant solid && AllFilled(ops[..k]) ==> Solid(c.rx.nodes)
    {
      ms := StepOn(c, ops, k, ms, bytes, gone, accepted, solid);
      k := k + 1;
    }
  }

  lemma Balance(bytes: seq<byte>, gone: nat, arrived: seq<byte>, now: nat)
    requires gone <= |bytes| && gone <= now <= |bytes + arrived|
    ensures bytes[gone..] + arrived == (bytes + arrived)[gone..now] + (bytes + arrived)[now..]
  {
    assert bytes[gone..] + arrived == (bytes + arrived)[gone..];
  }

  method StepOn(c: ClientContext, ops: seq<Op>, k: nat, ghost ms: seq<Moved>, ghost bytes: seq<byte>, ghost gone: nat,
                ghost accepted: seq<byte>, ghost solid: bool)
    returns (ghost more: seq<Moved>)
    requires k == |ms| < |ops| && Ready(c) && gone <= |bytes| && Stands(c, ms, bytes, gone, accepted)
    requires Did(ops, ms, |bytes| - gone, solid) && (solid && AllFilled(ops[..k]) ==> Solid(c.rx.nodes))
    modifies c, c.tcp, c.clock, c.rx.pool
    ensures Ready(c) && fresh(c.rx.pool - old(c.rx.pool)) && |more| == |ms| + 1 && Stands(c, more, bytes, gone, accepted)
    ensures Did(ops, more, |bytes| - gone, solid) && (solid && AllFilled(ops[..k + 1]) ==> Solid(c.rx.nodes))
  {
    hide Does, Moves, Filled, Ready;
    ghost var all, now, taken, nowSolid := c.rx.bytes, c.rx.gone, c.tcp.accepted, Solid(c.rx.nodes);
    ghost var m := Step(c, ops[k]);
    more := ms + [m];
    DidSnoc(ops, ms, m, |bytes| - gone, solid, nowSolid);
    StandsSnoc(all, now, taken, ms, bytes, gone, accepted, m, c.rx.gone);
  }

  lemma TakenOn(b: seq<byte>, arrived: seq<byte>, gone: nat, before: nat, now: nat)
    requires gone <= before <= |b| && before <= now <= |b + arrived|
    ensures (b + arrived)[gone..now] == b[gone..before] + (b + arrived)[before..now]
  {}

  /** From a new connection on, everything that arrived was taken or is still pending. */
  method RunNew(pcb: TcpPcb, ops: seq<Op>) returns (c: ClientContext, ghost ms: seq<Moved>)
    requires pcb.credited == 0
    modifies pcb, pcb.clock
    ensures Ready(c) && |ms| == |ops| && Did(ops, ms, 0, true) && c.rx.gone <= |c.rx.bytes|
    ensures Sum(ms).arrived == Sum(ms).taken + c.rx.bytes[c.rx.gone..]
    ensures c.pcb != null ==> pcb.credited + Total(c.rx.nodes) == |Sum(ms).arrived|
    ensures pcb.accepted == old(pcb.accepted) + Sum(ms).sent
  {
    c := new ClientContext(pcb);
    ms := Run(c, ops);
    assert [] + Sum(ms).arrived == Sum(ms).arrived;
  }

  /** A chain that begins with an empty pbuf makes read() answer what stands there instead of the next byte,
      which comes only then. */
  method StaleRead(c: ClientContext, stale: byte, b: byte) returns (first: byte, second: byte)
    requires Ready(c) && c.rx.nodes == []
    modifies c`rxBuf, c`rxOffset, c`rx, c`pcb, c.tcp`credited, c.rx.pool
    ensures first == stale && second == b && c.rx.bytes == old(c.rx.bytes) + [b]
  {
    ReceiveBehindEmpty(c, b);
    first := c.Read(stale);
    second := ReadLast(c, b);
  }

  method ReadLast(c: ClientContext, b: byte) returns (last: byte)
    requires Ready(c) && |c.rx.nodes| <= 1 && c.rx.gone + 1 == |c.rx.bytes| && c.rx.bytes[c.rx.gone] == b
    modifies c`rxBuf, c`rxOffset, c`rx, c.tcp`credited, c.rx.pool
    ensures last == b && c.rx.bytes == old(c.rx.bytes)
  {
    c.GoneWithin();
    c.AtFront();
    c.FrontIsNext(0);
    last := c.Read(0);
  }

  method ReceiveBehindEmpty(c: ClientContext, b: byte)
    requires Ready(c) && c.rx.nodes == []
    modifies c`rxBuf, c`rxOffset, c`rx, c`pcb, c.rx.pool
    ensures Ready(c) && fresh(c.rx.pool - old(c.rx.pool)) && |c.rx.nodes| == 2 && c.HeadLeft() == 0
    ensures c.rx.bytes == old(c.rx.bytes) + [b] && c.rx.gone == old(c.rx.gone) == |old(c.rx.bytes)| && forall s :: c.FrontByte(s) == s
  {
    OneByte(b);
    c.GoneWithin();
    var pb;
    ghost var nodes;
    pb, nodes := NewChain([[], [b]]);
    c.Recv(pb, nodes);
    assert c.rx.nodes == nodes;
    c.AtFront();
  }

  lemma OneByte(b: byte)
    ensures Flat([[], [b]]) == [b]
  {
    assert [[], [b]][1..] == [[b]] && [[b]][1..] == [];
    assert Flat([[b]]) == [b] + Flat([]);
  }
}

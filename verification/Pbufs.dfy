/** Packet buffers: the nodes of lwIP's pbuf chains and the three routines the contexts call on them
    (cores/w800/sdk/src/network/lwip2.1.3/core/pbuf.c:725-800 and 852-875). */
module Pbufs {
  import opened Sequences
  import opened Helpers

  /** The 16-bit len and tot_len fields. */
  const TOT_LEN_LIMIT: nat := U16

  type u16 = n: nat | n < TOT_LEN_LIMIT

  /** Addition as a cast to u16_t leaves it. */
  function Sum16(x: u16, y: u16): u16 {
    if x + y < TOT_LEN_LIMIT then x + y else x + y - TOT_LEN_LIMIT
  }

  lemma Sum16Assoc(x: u16, y: u16, z: u16)
    ensures Sum16(Sum16(x, y), z) == Sum16(x, Sum16(y, z))
  {}

  class Pbuf {
    var payload: seq<byte>
    var len: u16
    var totLen: u16
    var next: Pbuf?
    var refs: nat
    /** Not yet given back to the allocator. */
    ghost var live: bool

    /** pbuf_alloc, when it succeeds: one node of its own. */
    constructor (payload: seq<byte>)
      requires |payload| < TOT_LEN_LIMIT
      ensures Chain([this]) && this.payload == payload && Bytes([this]) == payload
    {
      this.payload, len, totLen, next, refs, live := payload, |payload|, |payload|, null, 1, true;
      new;
      assert payload + [] == payload;
    }
  }

  ghost function NextOf(nodes: seq<Pbuf>, i: nat): Pbuf? {
    if i + 1 < |nodes| then nodes[i + 1] else null
  }

  /** `totLen` counts the bytes from this node on, in sixteen bits. */
  ghost predicate Node(nodes: seq<Pbuf>, i: nat)
    requires i < |nodes|
    reads nodes
  {
    && nodes[i].next == NextOf(nodes, i)
    && nodes[i].totLen == if i + 1 < |nodes| then Sum16(nodes[i].len, nodes[i + 1].totLen) else nodes[i].len
  }

  lemma {:induction false} DistinctConcat(a: seq<Pbuf>, b: seq<Pbuf>)
    requires Distinct(a) && Distinct(b) && Apart(a, b)
    ensures Distinct(a + b)
  {
    if a == [] {
      assert a + b == b;
    } else {
      DistinctConcat(a[1..], b);
      assert (a + b)[1..] == a[1..] + b;
    }
  }

  /** The nodes are linked in this order and all in use. */
  ghost predicate Linked(nodes: seq<Pbuf>)
    reads nodes
  {
    && Distinct(nodes)
    && (forall i | 0 <= i < |nodes| :: nodes[i].live && nodes[i].refs > 0 && nodes[i].len == |nodes[i].payload|)
    && forall i | 0 <= i < |nodes| :: Node(nodes, i)
  }

  ghost predicate Apart(a: seq<Pbuf>, b: seq<Pbuf>) {
    forall p | p in a :: p !in b
  }

  /** Linked, and nothing else refers to any of the nodes. */
  ghost predicate Joined(nodes: seq<Pbuf>)
    reads nodes
  {
    Linked(nodes) && forall i | 0 <= i < |nodes| :: nodes[i].refs == 1
  }

  /** A chain with one owner, from the front. */
  ghost predicate Chain(nodes: seq<Pbuf>)
    reads nodes
  {
    nodes == [] ||
    (var p := nodes[0];
      && p.live && p.refs == 1 && p.len == |p.payload| && Node(nodes, 0)
      && p !in nodes[1..] && Chain(nodes[1..]))
  }

  lemma {:induction false} ChainIs(nodes: seq<Pbuf>)
    ensures Chain(nodes) <==> Joined(nodes)
  {
    if nodes != [] {
      var t := nodes[1..];
      ChainIs(t);
      if Joined(t) && Node(nodes, 0) {
        forall i | 0 <= i < |nodes| ensures Node(nodes, i) { if i > 0 { assert Node(t, i - 1) && t[i - 1] == nodes[i]; } }
      }
      if Joined(nodes) {
        forall i | 0 <= i < |t| ensures Node(t, i) { assert Node(nodes, i + 1); }
      }
    }
  }

  lemma TailIn(nodes: seq<Pbuf>, pool: set<Pbuf>)
    requires nodes != [] && forall p | p in nodes :: p in pool
    ensures forall p | p in nodes[1..] :: p in pool
  {}

  /** The bytes of the chain, node after node. */
  ghost function Bytes(nodes: seq<Pbuf>): seq<byte>
    reads nodes
  {
    if nodes == [] then [] else nodes[0].payload + Bytes(nodes[1..])
  }

  lemma {:induction false} BytesConcat(a: seq<Pbuf>, b: seq<Pbuf>)
    ensures Bytes(a + b) == Bytes(a) + Bytes(b)
  {
    if a == [] {
      assert a + b == b;
    } else {
      BytesConcat(a[1..], b);
      assert (a + b)[1..] == a[1..] + b && (a + b)[0] == a[0];
      Assoc(a[0].payload, Bytes(a[1..]), Bytes(b));
    }
  }

  /** The payloads by themselves, to compare the bytes of a chain before and after. */
  ghost function Payloads(nodes: seq<Pbuf>): seq<seq<byte>>
    reads nodes
  {
    seq(|nodes|, i requires 0 <= i < |nodes| reads nodes => nodes[i].payload)
  }

  lemma {:induction false} BytesAre(nodes: seq<Pbuf>, parts: seq<seq<byte>>)
    requires |parts| == |nodes| && forall i | 0 <= i < |nodes| :: parts[i] == nodes[i].payload
    ensures Bytes(nodes) == Flat(parts)
  {
    if nodes != [] { BytesAre(nodes[1..], parts[1..]); }
  }

  /** tot_len of the first node is the number of bytes in the chain, in sixteen bits. */
  lemma {:induction false} TotLenIsBytes(nodes: seq<Pbuf>)
    requires Chain(nodes) && nodes != []
    ensures nodes[0].totLen == |Bytes(nodes)| % TOT_LEN_LIMIT
  {
    if |nodes| > 1 {
      TotLenIsBytes(nodes[1..]);
      ModuloLater(nodes[0].len, |Bytes(nodes[1..])|);
    }
  }

  lemma ModuloLater(x: u16, y: nat)
    ensures Sum16(x, y % TOT_LEN_LIMIT) == (x + y) % TOT_LEN_LIMIT
  {}

  /** The sixteen bits are enough for this chain. */
  ghost predicate Counted(nodes: seq<Pbuf>)
    reads nodes
  {
    nodes == [] || nodes[0].totLen == |Bytes(nodes)|
  }

  /** They are then enough for the rest of it. */
  lemma CountedTail(nodes: seq<Pbuf>)
    requires Chain(nodes) && nodes != [] && Counted(nodes)
    ensures Counted(nodes[1..]) && |Bytes(nodes)| == nodes[0].len + |Bytes(nodes[1..])| < TOT_LEN_LIMIT
  {
    if |nodes| > 1 { TotLenIsBytes(nodes[1..]); }
  }

  /** The bytes and the link of the node are as before. */
  twostate predicate Kept(p: Pbuf)
    reads p
  {
    p.payload == old(p.payload) && p.len == old(p.len) && p.next == old(p.next)
  }

  /** pbuf_cat: `t` follows `h`; every tot_len of `h` grows, and nothing keeps it from wrapping around. */
  method PbufCat(h: Pbuf, t: Pbuf, ghost hs: seq<Pbuf>, ghost ts: seq<Pbuf>)
    requires hs != [] && ts != [] && hs[0] == h && ts[0] == t
    requires Chain(hs) && Chain(ts) && Apart(hs, ts)
    modifies hs
    ensures Chain(hs + ts) && Bytes(hs + ts) == old(Bytes(hs)) + old(Bytes(ts))
    ensures forall k | 0 <= k < |hs| :: hs[k].payload == old(hs[k].payload) && hs[k].len == old(hs[k].len)
                                     && hs[k].totLen == Sum16(old(hs[k].totLen), old(t.totLen))
  {
    ghost var hp, tp := Payloads(hs), Payloads(ts);
    BytesAre(hs, hp);
    BytesAre(ts, tp);
    ChainIs(hs);
    ChainIs(ts);
    LinkUp(h, t, hs, ts);
    BytesAre(hs, hp);
    BytesAre(ts, tp);
    Glue(hs, ts);
    ChainIs(hs + ts);
  }

  method LinkUp(h: Pbuf, t: Pbuf, ghost hs: seq<Pbuf>, ghost ts: seq<Pbuf>)
    requires hs != [] && ts != [] && hs[0] == h && ts[0] == t
    requires Joined(hs) && Joined(ts) && Apart(hs, ts)
    modifies hs
    ensures Joined(ts) && forall k | 0 <= k < |ts| :: ts[k].payload == old(ts[k].payload)
    ensures forall k | 0 <= k < |hs| :: hs[k].payload == old(hs[k].payload) && hs[k].len == old(hs[k].len)
                                     && hs[k].totLen == Sum16(old(hs[k].totLen), old(t.totLen))
    ensures forall k | 0 <= k < |hs| :: hs[k].live && hs[k].refs == 1 && Before(hs, k, t)
  {
    DistinctMeans(hs);
    assert forall k | 0 <= k < |ts| :: ts[k] !in hs by {
      forall k | 0 <= k < |ts| ensures ts[k] !in hs { assert ts[k] in ts; }
    }
    assert Node(ts, 0);
    var p := GrowTotals(h, t.totLen, hs);
    p.next := t;
    forall k | 0 <= k < |hs| ensures Before(hs, k, t) {
      assert old(Node(hs, k));
      if k + 1 < |hs| { Sum16Assoc(hs[k].len, old(hs[k + 1].totLen), old(t.totLen)); }
    }
  }

  /** Like Node, for a chain that runs on into `t`. */
  ghost predicate Before(hs: seq<Pbuf>, i: nat, t: Pbuf)
    requires i < |hs|
    reads hs, t
  {
    var next := if i + 1 < |hs| then hs[i + 1] else t;
    hs[i].next == next && hs[i].totLen == Sum16(hs[i].len, next.totLen)
  }

  lemma Glue(hs: seq<Pbuf>, ts: seq<Pbuf>)
    requires Joined(ts) && ts != [] && Apart(hs, ts)
    requires Distinct(hs)
    requires forall k | 0 <= k < |hs| :: hs[k].live && hs[k].refs == 1 && hs[k].len == |hs[k].payload|
    requires forall k | 0 <= k < |hs| :: Before(hs, k, ts[0])
    ensures Joined(hs + ts) && Bytes(hs + ts) == Bytes(hs) + Bytes(ts)
  {
    DistinctConcat(hs, ts);
    forall k | 0 <= k < |hs + ts| ensures Node(hs + ts, k) {
      if k < |hs| { assert Before(hs, k, ts[0]); } else { assert Node(ts, k - |hs|); }
    }
    BytesConcat(hs, ts);
  }

  /** Only tot_len has changed. */
  twostate predicate Grew(p: Pbuf, added: u16)
    reads p
  {
    && Kept(p) && p.refs == old(p.refs) && p.live == old(p.live)
    && p.totLen == Sum16(old(p.totLen), added)
  }

  /** The walk to the last node of the chain. */
  method GrowTotals(h: Pbuf, added: u16, ghost hs: seq<Pbuf>) returns (p: Pbuf)
    requires hs != [] && hs[0] == h && Linked(hs)
    modifies hs
    ensures p == hs[|hs| - 1] && forall k | 0 <= k < |hs| :: Grew(hs[k], added)
  {
    p := h;
    ghost var i := 0;
    DistinctMeans(hs);
    while p.next != null
      invariant i < |hs| && p == hs[i]
      invariant forall k | 0 <= k < |hs| :: Grew(hs[k], if k < i then added else 0)
      decreases |hs| - i
    {
      assert old(Node(hs, i));
      p.totLen := Sum16(p.totLen, added);
      p := p.next;
      i := i + 1;
    }
    assert old(Node(hs, i));
    p.totLen := Sum16(p.totLen, added);
  }

  /** pbuf_free drops one reference: nodes go back to the allocator up to the first that someone else
      still holds. */
  method PbufFree(head: Pbuf, ghost nodes: seq<Pbuf>, ghost kept: nat)
    requires Linked(nodes) && nodes != [] && nodes[0] == head && kept <= |nodes|
    requires forall i | 0 <= i < kept :: nodes[i].refs == 1
    requires kept < |nodes| ==> nodes[kept].refs > 1
    modifies nodes
    ensures forall i | 0 <= i < kept :: !nodes[i].live
    ensures kept < |nodes| ==> nodes[kept].refs == old(nodes[kept].refs) - 1
    ensures forall i | kept < i < |nodes| :: nodes[i].refs == old(nodes[i].refs)
    ensures forall i | kept <= i < |nodes| :: nodes[i].live
    ensures forall i | 0 <= i < |nodes| :: Kept(nodes[i]) && nodes[i].totLen == old(nodes[i].totLen)
  {
    var p: Pbuf? := head;
    ghost var i := 0;
    DistinctMeans(nodes);
    while p != null
      invariant i <= kept && p == if i < |nodes| then nodes[i] else null
      invariant forall k | 0 <= k < i :: !nodes[k].live
      invariant forall k | i <= k < |nodes| :: nodes[k].refs == old(nodes[k].refs) && nodes[k].live
      invariant forall k | 0 <= k < |nodes| :: Kept(nodes[k]) && nodes[k].totLen == old(nodes[k].totLen)
      decreases |nodes| - i
    {
      assert old(Node(nodes, i));
      p.refs := p.refs - 1;
      if p.refs > 0 { break; }
      p.live := false;
      p := p.next;
      i := i + 1;
    }
  }

  /** pbuf_free on a chain with one owner gives all of it back. */
  method FreeAll(head: Pbuf, ghost nodes: seq<Pbuf>)
    requires Chain(nodes) && nodes != [] && nodes[0] == head
    modifies nodes
    ensures forall i | 0 <= i < |nodes| :: !nodes[i].live
  {
    ChainIs(nodes);
    PbufFree(head, nodes, |nodes|);
  }

  /** pbuf_ref. */
  method PbufRef(p: Pbuf)
    modifies p`refs
    ensures p.refs == old(p.refs) + 1
  {
    p.refs := p.refs + 1;
  }

  /** The head goes back and the others stay, each with one reference as before. */
  method Unhook(head: Pbuf, ghost nodes: seq<Pbuf>)
    requires Joined(nodes) && |nodes| > 1 && nodes[0] == head
    modifies nodes
    ensures !head.live && Kept(head) && head.totLen == old(head.totLen)
    ensures forall k | 1 <= k < |nodes| :: Grew(nodes[k], 0)
  {
    assert Node(nodes, 0);
    PbufRef(head.next);
    forall k | 0 <= k < |nodes| ensures Node(nodes, k) { assert old(Node(nodes, k)); }
    PbufFree(head, nodes, 1);
  }

  /** Leaves the rest of a chain to its owner: the second node gains a reference, then the first goes. */
  method DropHead(head: Pbuf, ghost nodes: seq<Pbuf>)
    requires Chain(nodes) && |nodes| > 1 && nodes[0] == head
    modifies nodes
    ensures Chain(nodes[1..]) && !head.live && Bytes(nodes[1..]) == old(Bytes(nodes))[old(head.len)..]
    ensures forall k | 0 <= k < |nodes| :: nodes[k].len == old(nodes[k].len) && nodes[k].totLen == old(nodes[k].totLen)
                                        && nodes[k].payload == old(nodes[k].payload)
  {
    ghost var t := nodes[1..];
    ghost var tp := Payloads(t);
    BytesAre(t, tp);
    ChainIs(nodes);
    Unhook(head, nodes);
    forall k | 0 <= k < |t| ensures Node(t, k) { assert old(Node(nodes, k + 1)); }
    ChainIs(t);
    BytesAre(t, tp);
  }

  /** A new pbuf in front of a chain. */
  method Prepend(part: seq<byte>, rest: Pbuf, ghost tail: seq<Pbuf>) returns (pb: Pbuf)
    requires |part| < TOT_LEN_LIMIT && Chain(tail) && tail != [] && rest == tail[0]
    ensures fresh(pb) && Chain([pb] + tail) && pb.payload == part
  {
    pb := new Pbuf(part);
    PbufCat(pb, rest, [pb], tail);
    assert [pb][0] == pb;
  }

  /** A chain of new pbufs with these contents. */
  method MakeChain(parts: seq<seq<byte>>) returns (pb: Pbuf?, ghost nodes: seq<Pbuf>)
    requires forall k | 0 <= k < |parts| :: |parts[k]| < TOT_LEN_LIMIT
    ensures Chain(nodes) && |nodes| == |parts| && (forall p | p in nodes :: fresh(p))
    ensures forall k | 0 <= k < |parts| :: nodes[k].payload == parts[k]
    ensures pb == if parts == [] then null else nodes[0]
    decreases |parts|
  {
    if parts == [] { return null, []; }
    var rest;
    ghost var tail;
    rest, tail := MakeChain(parts[1..]);
    if rest == null {
      pb := new Pbuf(parts[0]);
      nodes := [pb];
    } else {
      pb := Prepend(parts[0], rest, tail);
      nodes := [pb] + tail;
    }
  }
}

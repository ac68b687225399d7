/** The intrusive circular list of cores/w800/sdk/include/list.h.  A list is a ring of links that
    starts with the list's own link; what it contains is the rest of the ring, in order. */
module DlList {
  import opened Sequences

  class Link {
    var next: Link?
    var prev: Link?
  }

  function Succ(n: nat, i: nat): nat {
    if i + 1 < n then i + 1 else 0
  }

  function Pred(n: nat, i: nat): nat
    requires 0 < n
  {
    if i == 0 then n - 1 else i - 1
  }

  ghost predicate Linked(ring: seq<Link>, i: nat)
    requires i < |ring|
    reads ring
  {
    ring[i].next == ring[Succ(|ring|, i)] && ring[i].prev == ring[Pred(|ring|, i)]
  }

  /** The links are joined in this order, forwards and backwards, and the last one to the first. */
  ghost predicate Ring(ring: seq<Link>)
    reads ring
  {
    Distinct(ring) && forall i | 0 <= i < |ring| :: Linked(ring, i)
  }

  function Inserted(ring: seq<Link>, at: nat, item: Link): (r: seq<Link>)
    requires at < |ring|
    ensures |r| == |ring| + 1 && r[at + 1] == item
    ensures forall k | 0 <= k < |r| && k != at + 1 :: r[k] == ring[if k <= at then k else k - 1]
  {
    ring[..at + 1] + [item] + ring[at + 1..]
  }

  function Removed(ring: seq<Link>, at: nat): (r: seq<Link>)
    requires at < |ring|
    ensures |r| == |ring| - 1
    ensures forall k | 0 <= k < |r| :: r[k] == ring[if k < at then k else k + 1]
  {
    ring[..at] + ring[at + 1..]
  }

  /** dl_list_init. */
  method Init(list: Link)
    modifies list
    ensures Ring([list])
  {
    list.next := list;
    list.prev := list;
  }

  /** Link `i` of the ring once `item` has come in after `at`. */
  ghost predicate LinkedAround(ring: seq<Link>, i: nat, at: nat, item: Link)
    requires i < |ring| && at < |ring|
    reads ring
  {
    && ring[i].next == (if i == at then item else ring[Succ(|ring|, i)])
    && ring[i].prev == (if i == Succ(|ring|, at) then item else ring[Pred(|ring|, i)])
  }

  lemma DistinctInserted(ring: seq<Link>, at: nat, item: Link)
    requires Distinct(ring) && at < |ring| && item !in ring
    ensures Distinct(Inserted(ring, at, item))
  {
    DistinctMeans(ring);
    DistinctMeans(Inserted(ring, at, item));
  }

  lemma DistinctRemoved(ring: seq<Link>, at: nat)
    requires Distinct(ring) && at < |ring|
    ensures Distinct(Removed(ring, at))
  {
    DistinctMeans(ring);
    DistinctMeans(Removed(ring, at));
  }

  lemma InsertedIsLinked(ring: seq<Link>, at: nat, item: Link)
    requires at < |ring| && forall i | 0 <= i < |ring| :: LinkedAround(ring, i, at, item)
    requires item.next == ring[Succ(|ring|, at)] && item.prev == ring[at]
    ensures forall i | 0 <= i < |Inserted(ring, at, item)| :: Linked(Inserted(ring, at, item), i)
  {
    var r := Inserted(ring, at, item);
    forall i | 0 <= i < |r| ensures Linked(r, i) {
      if i != at + 1 { assert LinkedAround(ring, if i <= at then i else i - 1, at, item); }
    }
  }

  /** dl_list_add: the item comes right after the given link. */
  method Add(list: Link, item: Link, ghost ring: seq<Link>, ghost at: nat)
    requires Ring(ring) && at < |ring| && ring[at] == list && item !in ring
    modifies list, list.next, item
    ensures Ring(Inserted(ring, at, item))
  {
    assert Linked(ring, at);
    DistinctMeans(ring);
    item.next := list.next;
    item.prev := list;
    list.next.prev := item;
    list.next := item;
    forall i | 0 <= i < |ring| ensures LinkedAround(ring, i, at, item) { assert old(Linked(ring, i)); }
    InsertedIsLinked(ring, at, item);
    DistinctInserted(ring, at, item);
  }

  /** dl_list_add_tail: the item comes right before the given link. */
  method AddTail(list: Link, item: Link, ghost ring: seq<Link>, ghost at: nat)
    requires Ring(ring) && at < |ring| && ring[at] == list && item !in ring
    modifies list, list.prev, item
    ensures Ring(Inserted(ring, Pred(|ring|, at), item))
  {
    assert Linked(ring, at);
    assert Linked(ring, Pred(|ring|, at));
    Add(list.prev, item, ring, Pred(|ring|, at));
  }

  /** Link `i` of the ring once the link at `at` has been passed over. */
  ghost predicate LinkedPast(ring: seq<Link>, i: nat, at: nat)
    requires i < |ring| && at < |ring|
    reads ring
  {
    var n := |ring|;
    && ring[i].next == ring[Succ(n, if Succ(n, i) == at then at else i)]
    && ring[i].prev == ring[Pred(n, if Pred(n, i) == at then at else i)]
  }

  lemma RemovedIsLinked(ring: seq<Link>, at: nat)
    requires at < |ring| && forall i | 0 <= i < |ring| && i != at :: LinkedPast(ring, i, at)
    ensures forall i | 0 <= i < |Removed(ring, at)| :: Linked(Removed(ring, at), i)
  {
    var r := Removed(ring, at);
    forall i | 0 <= i < |r| ensures Linked(r, i) {
      assert LinkedPast(ring, if i < at then i else i + 1, at);
    }
  }

  /** dl_list_del: exactly this link leaves the ring. */
  method Del(item: Link, ghost ring: seq<Link>, ghost at: nat)
    requires Ring(ring) && at < |ring| && ring[at] == item
    modifies item, item.next, item.prev
    ensures Ring(Removed(ring, at)) && item.next == null && item.prev == null
  {
    assert Linked(ring, at);
    DistinctMeans(ring);
    item.next.prev := item.prev;
    item.prev.next := item.next;
    item.next := null;
    item.prev := null;
    forall i | 0 <= i < |ring| && i != at ensures LinkedPast(ring, i, at) { assert old(Linked(ring, i)); }
    RemovedIsLinked(ring, at);
    DistinctRemoved(ring, at);
  }

  /** dl_list_empty. */
  predicate Empty(list: Link)
    reads list
  {
    list.next == list
  }

  lemma EmptyMeans(list: Link, ring: seq<Link>)
    requires Ring(ring) && ring != [] && ring[0] == list
    ensures Empty(list) <==> |ring| == 1
  {
    DistinctMeans(ring);
    assert Linked(ring, 0);
  }

  /** dl_list_len: the walk comes back to the list after all its items. */
  method Len(list: Link, ghost ring: seq<Link>) returns (count: nat)
    requires Ring(ring) && ring != [] && ring[0] == list
    ensures count == |ring| - 1
  {
    count := 0;
    DistinctMeans(ring);
    assert Linked(ring, 0);
    var item := list.next;
    while item != list
      invariant count < |ring| && item == ring[Succ(|ring|, count)]
      decreases |ring| - count
    {
      assert Linked(ring, Succ(|ring|, count));
      count := count + 1;
      item := item.next;
    }
  }

  // ---------- Walks ----------

  /** `steps` links on from `p`. */
  ghost function Forward(ring: set<Link>, p: Link, steps: nat): Link?
    reads ring
  {
    if steps == 0 then p
    else if p !in ring || p.next == null then null
    else Forward(ring, p.next, steps - 1)
  }

  ghost function Backward(ring: set<Link>, p: Link, steps: nat): Link?
    reads ring
  {
    if steps == 0 then p
    else if p !in ring || p.prev == null then null
    else Backward(ring, p.prev, steps - 1)
  }

  /** Walking forward visits the ring in order, and walking backward in the opposite order. */
  lemma {:induction false} Walks(ring: seq<Link>, links: set<Link>, i: nat, k: nat)
    requires Ring(ring) && i < |ring| && k <= |ring| && forall p | p in ring :: p in links
    ensures Forward(links, ring[i], k) == ring[if i + k < |ring| then i + k else i + k - |ring|]
    ensures Backward(links, ring[i], k) == ring[if k <= i then i - k else i - k + |ring|]
    decreases k
  {
    if k > 0 {
      assert Linked(ring, i);
      Walks(ring, links, Succ(|ring|, i), k - 1);
      Walks(ring, links, Pred(|ring|, i), k - 1);
    }
  }

  // ---------- Runs ----------

  datatype Op = AddFirst(item: Link) | AddLast(item: Link) | Delete(item: Link)

  /** The position of `x`, which is in `s`. */
  ghost function Position(s: seq<Link>, x: Link): (i: nat)
    requires x in s
    ensures i < |s| && s[i] == x
  {
    if s[0] == x then 0 else 1 + Position(s[1..], x)
  }

  /** An item is added only while it is in no place of the list, and deleted only while it is. */
  ghost predicate Allowed(list: Link, items: seq<Link>, op: Op) {
    op.item != list && if op.Delete? then op.item in items else op.item !in items
  }

  /** What the operation does to the list's contents. */
  ghost function Applied(items: seq<Link>, op: Op): seq<Link> {
    match op
    case AddFirst(x) => [x] + items
    case AddLast(x) => items + [x]
    case Delete(x) => if x in items then Removed(items, Position(items, x)) else items
  }

  ghost function AppliedAll(items: seq<Link>, ops: seq<Op>): seq<Link>
    decreases ops
  {
    if ops == [] then items else AppliedAll(Applied(items, ops[0]), ops[1..])
  }

  ghost predicate AllowedAll(list: Link, items: seq<Link>, ops: seq<Op>)
    decreases ops
  {
    ops == [] || (Allowed(list, items, ops[0]) && AllowedAll(list, Applied(items, ops[0]), ops[1..]))
  }

  /** `links` are the links that may be touched. */
  ghost predicate Among(list: Link, items: seq<Link>, links: set<Link>) {
    list in links && forall x | x in items :: x in links
  }

  method Step(list: Link, op: Op, ghost items: seq<Link>, ghost links: set<Link>)
    requires Ring([list] + items) && Allowed(list, items, op) && Among(list, items, links) && op.item in links
    modifies links
    ensures Ring([list] + Applied(items, op)) && Among(list, Applied(items, op), links)
  {
    ghost var ring := [list] + items;
    RingMembers(list, items, links);
    match op
    case AddFirst(x) =>
      Add(list, x, ring, 0);
      assert Inserted(ring, 0, x) == [list] + ([x] + items);
    case AddLast(x) =>
      AddTail(list, x, ring, 0);
      assert Inserted(ring, |ring| - 1, x) == [list] + (items + [x]);
    case Delete(x) =>
      Del(x, ring, 1 + Position(items, x));
      assert Removed(ring, 1 + Position(items, x)) == [list] + Removed(items, Position(items, x));
  }

  /** The links of the ring and their neighbours are among those that may be touched. */
  lemma RingMembers(list: Link, items: seq<Link>, links: set<Link>)
    requires Ring([list] + items) && Among(list, items, links)
    ensures forall p | p in [list] + items :: p in links && p.next in links && p.prev in links
  {
    var ring := [list] + items;
    forall p | p in ring ensures p in links && p.next in links && p.prev in links {
      var i :| 0 <= i < |ring| && ring[i] == p;
      assert Linked(ring, i);
    }
  }

  /** Any run from an initialised list leaves a ring of exactly the items that should be there. */
  method Run(list: Link, ops: seq<Op>, ghost links: set<Link>)
    requires AllowedAll(list, [], ops) && list in links && forall op | op in ops :: op.item in links
    modifies links
    ensures Ring([list] + AppliedAll([], ops))
  {
    Init(list);
    ghost var items: seq<Link> := [];
    assert [list] + items == [list];
    var k := 0;
    while k < |ops|
      invariant k <= |ops| && Ring([list] + items) && AllowedAll(list, items, ops[k..]) && Among(list, items, links)
      invariant AppliedAll(items, ops[k..]) == AppliedAll([], ops)
    {
      assert ops[k..][0] == ops[k] && ops[k..][1..] == ops[k + 1..];
      assert ops[k] in ops;
      Step(list, ops[k], items, links);
      items := Applied(items, ops[k]);
      k := k + 1;
    }
  }
}

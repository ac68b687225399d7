/** Whole runs of a UDP socket (libraries/W600WiFi/UdpContext.h): data is appended and sent, pbufs
    arrive, are presented and read, in any order. */
module SocketRuns {
  import opened Sequences
  import opened Helpers
  import opened Pbufs
  import opened UdpContext

  datatype Op = Append(data: seq<byte>) | Send | Arrive(parts: seq<seq<byte>>) | Next | Read(n: nat)

  /** A pbuf that arrives is no longer than its len field can say. */
  predicate Possible(op: Op) {
    op.Arrive? ==> op.parts != [] && forall k | 0 <= k < |op.parts| :: |op.parts[k]| < TOT_LEN_LIMIT
  }

  /** What came of an operation.  An append may find no memory or ask for too much, and a send may find no
      memory for its copy.  What a run leaves out is an append after one that asked for too much and
      before the next send. */
  datatype Outcome =
    | Pending(data: seq<byte>)
    | Refused(data: seq<byte>)
    | LeftOut
    | Handed
    | Lost
    | Came
    | Presented(payload: seq<byte>)
    | NoneLeft
    | Got(bytes: seq<byte>)

  // ---------- The two sides, as a user sees them ----------

  /** Data appended and not yet sent, the datagrams handed over, and whether more may be appended. */
  datatype Outbox = Outbox(pending: seq<byte>, handed: seq<seq<byte>>, open: bool)
  {
    predicate Fits(data: seq<byte>) { |pending| + |data| + PBUF_UNIT_SIZE < TOT_LEN_LIMIT }

    /** Each send takes everything appended since the last one. */
    function After(out: Outcome): Outbox {
      match out
      case Pending(data) => this.(pending := pending + data)
      case Refused(data) => this.(open := open && Fits(data))
      case Handed => Outbox([], handed + [pending], true)
      case Lost => Outbox([], handed, true)
      case _ => this
    }
  }

  function After(box: Inbox, op: Op): Inbox {
    match op
    case Arrive(parts) => box.Coming(parts)
    case Next => box.AfterNext()
    case Read(n) => box.AfterRead(n)
    case _ => box
  }

  /** What can come of an operation.  Of the receiving ones it is determined. */
  predicate Answers(op: Op, out: Outcome, outbox: Outbox, inbox: Inbox) {
    match op
    case Append(data) => if outbox.open then out == Pending(data) || out == Refused(data) else out == LeftOut
    case Send => out == Handed || out == Lost
    case Arrive(_) => out == Came
    case Next => out == if inbox.Presents() == [] then NoneLeft else Presented(inbox.Presents()[0])
    case Read(n) => out == Got(inbox.Reads(n))
  }

  // ---------- Runs of them ----------

  function OutboxAfter(box: Outbox, outs: seq<Outcome>): Outbox {
    if outs == [] then box else OutboxAfter(box, outs[..|outs| - 1]).After(outs[|outs| - 1])
  }

  function InboxAfter(box: Inbox, ops: seq<Op>): Inbox {
    if ops == [] then box else After(InboxAfter(box, ops[..|ops| - 1]), ops[|ops| - 1])
  }

  /** These are the outcomes of the first operations. */
  ghost predicate Explained(ops: seq<Op>, outs: seq<Outcome>, outbox: Outbox, inbox: Inbox)
    decreases |outs|
  {
    && |outs| <= |ops|
    && (outs == [] ||
        (var n := |outs| - 1;
          && Explained(ops, outs[..n], outbox, inbox)
          && Answers(ops[n], outs[n], OutboxAfter(outbox, outs[..n]), InboxAfter(inbox, ops[..n]))))
  }

  lemma OneMore(ops: seq<Op>, outs: seq<Outcome>, out: Outcome, outbox: Outbox, inbox: Inbox)
    requires Explained(ops, outs, outbox, inbox) && |outs| < |ops|
    requires Answers(ops[|outs|], out, OutboxAfter(outbox, outs), InboxAfter(inbox, ops[..|outs|]))
    ensures Explained(ops, outs + [out], outbox, inbox)
    ensures OutboxAfter(outbox, outs + [out]) == OutboxAfter(outbox, outs).After(out)
    ensures InboxAfter(inbox, ops[..|outs| + 1]) == After(InboxAfter(inbox, ops[..|outs|]), ops[|outs|])
  {
    assert (outs + [out])[..|outs|] == outs;
    assert ops[..|outs| + 1][..|outs|] == ops[..|outs|];
  }

  /** The contents presented in a run. */
  function Shown(outs: seq<Outcome>): seq<seq<byte>> {
    if outs == [] then []
    else Shown(outs[..|outs| - 1]) + if outs[|outs| - 1].Presented? then [outs[|outs| - 1].payload] else []
  }

  /** The pbufs that arrive in a run are added at the end, and those presented are, in order and each
      once, the ones that follow those presented before. */
  lemma {:induction false} PresentedInOrder(ops: seq<Op>, outs: seq<Outcome>, outbox: Outbox, inbox: Inbox)
    requires inbox.Ok() && Explained(ops, outs, outbox, inbox) && forall k | 0 <= k < |ops| :: Possible(ops[k])
    ensures var now := InboxAfter(inbox, ops[..|outs|]);
      && now.Ok() && inbox.arrived <= now.arrived && inbox.Shown() <= now.Shown() <= |now.arrived|
      && Shown(outs) == now.arrived[inbox.Shown()..now.Shown()]
    decreases |outs|
  {
    if outs == [] {
      assert ops[..0] == [];
    } else {
      var n := |outs| - 1;
      PresentedInOrder(ops, outs[..n], outbox, inbox);
      assert ops[..n + 1][..n] == ops[..n];
      PresentedOnce(InboxAfter(inbox, ops[..n]), ops[n], outs[n], OutboxAfter(outbox, outs[..n]), inbox.Shown());
    }
  }

  lemma PresentedOnce(box: Inbox, op: Op, out: Outcome, outbox: Outbox, from: nat)
    requires box.Ok() && Possible(op) && Answers(op, out, outbox, box) && from <= box.Shown()
    ensures var now := After(box, op);
      && now.Ok() && box.arrived <= now.arrived && box.Shown() <= now.Shown() <= |now.arrived|
      && now.arrived[from..now.Shown()] == box.arrived[from..box.Shown()] + if out.Presented? then [out.payload] else []
  {
    var shown := box.Shown();
    match op
    case Arrive(parts) =>
      box.ComingKeeps(parts);
      assert (box.arrived + parts)[..|box.arrived|] == box.arrived;
      SliceOfPrefix(box.arrived + parts, |box.arrived|, from, shown);
    case Next =>
      box.NextInOrder();
      assert After(box, op).arrived == box.arrived;
      if box.Presents() != [] { JoinSlices(box.arrived, from, shown, shown + 1); }
    case Read(n) => box.ReadInOrder(n);
    case _ =>
  }

  // ---------- One operation ----------

  /** Both sides are in order, no pbuf belongs to both, and none has got lost. */
  ghost predicate Ready(u: UdpContext, open: bool)
    reads u, u.tx, u.rx.nodes, u.pool, u.rx.pool
  {
    && u.Sendable() && u.RxValid() && u.rx.pool !! u.pool && (open ==> u.Valid())
    && u.TxSettled() && u.RxSettled()
  }

  method Appending(u: UdpContext, data: seq<byte>) returns (ghost out: Outcome)
    requires u.Valid()
    modifies u`txHead, u`txCur, u`txOffset, u`tx, u`cur, u`pool, u`pending, u`refusals, u.pool
    ensures old(u.TxSettled()) ==> u.TxSettled()
    ensures u.Sendable() && fresh(u.pool - old(u.pool)) && ((out == Pending(data) && data != []) || out == Refused(data))
    ensures Outbox(u.pending, u.handed, true) == Outbox(old(u.pending), u.handed, true).After(out).(open := true)
    ensures Outbox(old(u.pending), u.handed, true).After(out).open ==> u.Valid()
  {
    var n := u.Append(data);
    out := if n > 0 then Pending(data) else Refused(data);
  }

  method Sending(u: UdpContext) returns (ghost out: Outcome)
    requires u.Sendable()
    modifies u`txHead, u`txCur, u`txOffset, u`tx, u`cur, u`pending, u`handed, u`refusals, u.pool
    ensures u.Valid() && (out == Handed || out == Lost) && (old(u.TxSettled()) ==> u.TxSettled())
    ensures Outbox(u.pending, u.handed, true) == Outbox(old(u.pending), old(u.handed), true).After(out)
  {
    ghost var handed := u.handed;
    var ok := u.Send();
    out := if |u.handed| > |handed| then Handed else Lost;
  }

  method TxStep(u: UdpContext, op: Op, open: bool, ghost box: Outbox) returns (ghost out: Outcome, open': bool)
    requires Ready(u, open) && (op.Append? || op.Send?) && box == Outbox(u.pending, u.handed, open)
    modifies u`txHead, u`txCur, u`txOffset, u`tx, u`cur, u`pool, u`pending, u`handed, u`refusals, u.pool
    ensures Ready(u, open') && box.After(out) == Outbox(u.pending, u.handed, open') && fresh(u.pool - old(u.pool))
    ensures Answers(op, out, box, u.Box())
  {
    hide Chain, Holds;
    out, open' := LeftOut, open;
    if op.Send? {
      out := Sending(u);
      open' := true;
    } else if open {
      open' := u.txOffset + |op.data| + PBUF_UNIT_SIZE < TOT_LEN_LIMIT;
      var before := u.txOffset;
      out := Appending(u, op.data);
      open' := open' || u.txOffset > before;
    }
    u.StillQueued();
  }

  method Arriving(u: UdpContext, parts: seq<seq<byte>>)
    requires u.RxValid() && Possible(Arrive(parts))
    modifies u`rxBuf, u`firstBufTaken, u`rxOffset, u`rx, u.rx.pool
    ensures u.RxValid() && u.Box() == old(u.Box()).Coming(parts) && fresh(u.rx.pool - old(u.rx.pool))
    ensures old(u.RxSettled()) ==> u.RxSettled()
  {
    var pb;
    ghost var more;
    pb, more := MakeChain(parts);
    u.Recv(pb, more, parts);
  }

  method Presenting(u: UdpContext) returns (ghost out: Outcome)
    requires u.RxValid()
    modifies u`rxBuf, u`firstBufTaken, u`rxOffset, u`rx, u.rx.pool
    ensures u.RxValid() && u.Box() == old(u.Box()).AfterNext() && u.rx.pool == old(u.rx.pool)
    ensures old(u.RxSettled()) ==> u.RxSettled()
    ensures out == if old(u.Box()).Presents() == [] then NoneLeft else Presented(old(u.Box()).Presents()[0])
  {
    var yes := u.Next();
    out := if yes then Presented(u.rxBuf.payload) else NoneLeft;
  }

  method Reading(u: UdpContext, n: nat) returns (ghost out: Outcome)
    requires u.RxValid()
    modifies u`rxOffset
    ensures u.RxValid() && u.Box() == old(u.Box()).AfterRead(n) && out == Got(old(u.Box()).Reads(n))
  {
    var dst := new byte[n];
    var got := u.Read(dst, n);
    out := Got(dst[..got]);
  }

  method RxStep(u: UdpContext, op: Op, ghost open: bool, ghost outbox: Outbox) returns (ghost out: Outcome)
    requires Ready(u, open) && Possible(op) && !op.Append? && !op.Send?
    modifies u`rxBuf, u`firstBufTaken, u`rxOffset, u`rx, u.rx.pool
    ensures Ready(u, open) && fresh(u.rx.pool - old(u.rx.pool))
    ensures u.Box() == After(old(u.Box()), op) && Answers(op, out, outbox, old(u.Box()))
  {
    hide Chain, Counted, Outgoing, Holds;
    out := Came;
    if op.Read? {
      out := Reading(u, op.n);
    } else if op.Next? {
      out := Presenting(u);
    } else {
      Arriving(u, op.parts);
    }
    u.StillPending();
  }

  method Step(u: UdpContext, op: Op, open: bool, ghost box: Outbox) returns (ghost out: Outcome, open': bool)
    requires Ready(u, open) && Possible(op) && box == Outbox(u.pending, u.handed, open)
    modifies u, u.pool, u.rx.pool
    ensures Ready(u, open') && box.After(out) == Outbox(u.pending, u.handed, open') && u.Box() == After(old(u.Box()), op)
    ensures Answers(op, out, box, old(u.Box())) && fresh(u.pool - old(u.pool)) && fresh(u.rx.pool - old(u.rx.pool))
  {
    open' := open;
    if op.Append? || op.Send? { out, open' := TxStep(u, op, open, box); } else { out := RxStep(u, op, open, box); }
  }

  // ---------- Whole runs ----------

  /** In any run each send hands over exactly what was appended since the last one, and what arrives is
      presented and read in order; PresentedInOrder says what that means for the pbufs. */
  method Run(u: UdpContext, ops: seq<Op>, open: bool) returns (ghost outs: seq<Outcome>, open': bool)
    requires Ready(u, open) && forall k | 0 <= k < |ops| :: Possible(ops[k])
    modifies u, u.pool, u.rx.pool
    ensures Ready(u, open') && fresh(u.pool - old(u.pool)) && fresh(u.rx.pool - old(u.rx.pool))
    ensures |outs| == |ops| && Explained(ops, outs, Outbox(old(u.pending), old(u.handed), open), old(u.Box()))
    ensures Outbox(u.pending, u.handed, open') == OutboxAfter(Outbox(old(u.pending), old(u.handed), open), outs)
    ensures u.Box() == InboxAfter(old(u.Box()), ops)
  {
    outs, open' := StepAll(u, ops, open, Outbox(u.pending, u.handed, open), u.Box());
    assert ops[..|ops|] == ops;
  }

  /** Where a run of these outcomes stands. */
  ghost predicate Stands(u: UdpContext, ops: seq<Op>, outs: seq<Outcome>, open: bool, outbox: Outbox, inbox: Inbox)
    reads u
  {
    && Explained(ops, outs, outbox, inbox)
    && Outbox(u.pending, u.handed, open) == OutboxAfter(outbox, outs) && u.Box() == InboxAfter(inbox, ops[..|outs|])
  }

  method StepAll(u: UdpContext, ops: seq<Op>, open: bool, ghost outbox: Outbox, ghost inbox: Inbox)
    returns (ghost outs: seq<Outcome>, open': bool)
    requires Ready(u, open) && forall k | 0 <= k < |ops| :: Possible(ops[k])
    requires outbox == Outbox(u.pending, u.handed, open) && inbox == u.Box()
    modifies u, u.pool, u.rx.pool
    ensures Ready(u, open') && fresh(u.pool - old(u.pool)) && fresh(u.rx.pool - old(u.rx.pool))
    ensures |outs| == |ops| && Stands(u, ops, outs, open', outbox, inbox)
  {
    outs, open' := [], open;
    var k := 0;
    assert ops[..0] == [];
    while k < |ops|
      invariant k == |outs| <= |ops| && Ready(u, open') && Stands(u, ops, outs, open', outbox, inbox)
      invariant fresh(u.pool - old(u.pool)) && fresh(u.rx.pool - old(u.rx.pool))
    {
      outs, open' := StepOn(u, ops, k, open', outs, outbox, inbox);
      k := k + 1;
    }
  }

  method StepOn(u: UdpContext, ops: seq<Op>, k: nat, open: bool, ghost outs: seq<Outcome>, ghost outbox: Outbox, ghost inbox: Inbox)
    returns (ghost more: seq<Outcome>, open': bool)
    requires k == |outs| < |ops| && Possible(ops[k]) && Ready(u, open) && Stands(u, ops, outs, open, outbox, inbox)
    modifies u, u.pool, u.rx.pool
    ensures |more| == k + 1 && Ready(u, open') && Stands(u, ops, more, open', outbox, inbox)
    ensures fresh(u.pool - old(u.pool)) && fresh(u.rx.pool - old(u.rx.pool))
  {
    ghost var out;
    out, open' := Step(u, ops[k], open, OutboxAfter(outbox, outs));
    more := outs + [out];
    OneMore(ops, outs, out, outbox, inbox);
  }

  /** From a new socket on. */
  method RunNew(ops: seq<Op>) returns (u: UdpContext, ghost outs: seq<Outcome>)
    requires forall k | 0 <= k < |ops| :: Possible(ops[k])
    ensures |outs| == |ops| && Explained(ops, outs, Outbox([], [], true), Inbox([], 0, false, 0))
    ensures u.handed == OutboxAfter(Outbox([], [], true), outs).handed
    ensures u.Box().Shown() <= |u.rx.arrived| && Shown(outs) == u.rx.arrived[..u.Box().Shown()]
  {
    u := new UdpContext();
    var open;
    outs, open := Run(u, ops, true);
    PresentedInOrder(ops, outs, Outbox([], [], true), Inbox([], 0, false, 0));
    assert ops[..|ops|] == ops;
  }
}

/** Whole runs of an MQTT client (libraries/MQTT/client.c:399-708): connections, publishes, subscriptions,
    yields and keep-alives in any order, over one network that may fail at any point. */
module ClientRuns {
  import opened Sequences
  import opened Helpers
  import opened Packet
  import opened PacketProperties
  import opened Network
  import opened Client
  import opened ClientProperties

  datatype Op =
    | Connect(options: ConnectOptions, will: Option<Will>)
    | Publish(dupId: Option<nat>, skipAck: bool, topic: seq<byte>, msg: Message)
    | Subscribe(filters: seq<Filter>)
    | Unsubscribe(filters: seq<Filter>)
    | Yield(available: nat)
    | KeepAlive
    | Disconnect

  /** The arguments that the operations ask for. */
  ghost predicate Askable(op: Op) {
    match op
    case Connect(options, will) => options.Short() && (will.Some? ==> will.value.Short())
    case Publish(dupId, _, topic, msg) =>
      |topic| < U16 && |topic| + |msg.payload| + 4 < U32 && (dupId.Some? ==> dupId.value < U16)
    case Subscribe(filters) => ShortTopics(filters) && forall f | f in filters :: f.qos.Some?
    case Unsubscribe(filters) => ShortTopics(filters) && forall f | f in filters :: f.qos.None?
    case _ => true
  }

  /** What there is to tell about an operation: how it ended, where it began and where it left off, the packets
      that came, what the keep-alive timer said when it was asked, and the last packet id before and after it. */
  datatype Report = Report(err: Err, from: Moment, to: Moment, run: seq<Taken>, how: Ending, looks: seq<int>, last: nat, id: nat)

  /** The operations that hand out a packet id. */
  predicate TakesId(op: Op) {
    match op
    case Publish(dupId, _, _, msg) => NeedsId(msg.qos) && !(dupId.Some? && dupId.value > 0)
    case Subscribe(_) => true
    case Unsubscribe(_) => true
    case _ => false
  }

  /** The id in a PUBLISH; none at level 0. */
  function PublishIdOf(op: Op, id: nat): nat
    requires op.Publish?
  {
    if !NeedsId(op.msg.qos) then 0 else if TakesId(op) then id else op.dupId.value
  }

  /** What became of the operation, in every case. */
  ghost predicate Happened(op: Op, r: Report, c: Setup)
    requires Askable(op) && r.id < U16
  {
    match op
    case Connect(options, will) => Connected(c, r.from, r.to, options, will, r.err, r.run, r.how)
    case Publish(dupId, skipAck, topic, msg) =>
      var id := PublishIdOf(op, r.id);
      Published(c, r.from, r.to, NeedsId(msg.qos) && !TakesId(op), id, skipAck, topic, msg, r.err, r.run, r.how)
    case Subscribe(filters) => FiltersExchanged(c, r.from, r.to, SUBSCRIBE, r.id, filters, 9, r.err, r.run, r.how)
    case Unsubscribe(filters) => FiltersExchanged(c, r.from, r.to, UNSUBSCRIBE, r.id, filters, 11, r.err, r.run, r.how)
    case Yield(_) =>
      if r.err == Success then Ran(c, r.from, r.to, r.run)
      else r.how.Stopped? && RanThenStopped(c, r.from, r.to, r.run, r.how.stop, r.err)
    case KeepAlive => KeptAlive(c, r)
    case Disconnect => Just(c, r, [0xE0, 0])
  }

  /** Nothing but this packet went out, or a part of it, or nothing. */
  ghost predicate Just(c: Setup, r: Report, wire: seq<byte>) {
    && r.from.history <= r.to.history && r.to == r.from.(history := r.to.history)
    && Went(wire, |wire| <= c.writeRoom, r.err, r.to.history[|r.from.history|..])
  }

  /** When the timer says that a ping is due, the ping goes out, unless one is open: then the connection is
      given up. */
  ghost predicate KeptAlive(c: Setup, r: Report) {
    |r.looks| <= 1 &&
    if r.looks == [] || r.looks[0] > 0 then r.err == Success && r.to == r.from
    else if Fold(r.from.history).pingOpen then r.err == PongTimeout && r.to == r.from
    else Just(c, r, [0xC0, 0])
  }

  /** What every report says, however the operation ended. */
  ghost predicate Explains(op: Op, r: Report, c: Setup)
    requires Askable(op)
  {
    && r.from.history <= r.to.history && r.id < U16 && Happened(op, r, c)
    && Fold(r.to.history).sessions == Fold(r.from.history).sessions + (if op.Connect? then 1 else 0)
    && Fold(r.to.history).pingsAlternate && Fold(r.to.history).whole
    && (r.err == PongTimeout ==> op.KeepAlive?) && (r.looks != [] ==> op.KeepAlive?)
    && r.id == if TakesId(op) then IdAfter(r.last, 1) else r.last
  }

  // ---------- One operation ----------

  method Connecting(c: MqttClient, op: Op, timeout: nat) returns (err: Err, ghost run: seq<Taken>, ghost how: Ending)
    requires c.Valid() && op.Connect? && Askable(op)
    modifies c, c.net, c.commandTimer, c.keepAliveTimer, c.readBuf, c.writeBuf
    ensures c.Valid() && old(c.log) <= c.log && c.sessions == old(c.sessions) + 1 && err != PongTimeout
    ensures c.Setting() == old(c.Setting()) && c.lastPacketId == old(c.lastPacketId)
    ensures c.keepAliveTimer.looks == old(c.keepAliveTimer.looks)
    ensures c.commandTimer.settings == old(c.commandTimer.settings) + [timeout]
    ensures Connected(c.Setting(), old(c.Now()), c.Now(), op.options, op.will, err, run, how)
  {
    hide Connected;
    var present, code;
    err, present, code, run, how := c.Connect(op.options, op.will, timeout);
  }

  method Publishing(c: MqttClient, op: Op, timeout: nat) returns (err: Err, ghost run: seq<Taken>, ghost how: Ending)
    requires c.Valid() && op.Publish? && Askable(op)
    modifies c, c.net, c.commandTimer, c.keepAliveTimer, c.readBuf, c.writeBuf
    ensures c.Valid() && old(c.log) <= c.log && c.sessions == old(c.sessions) && err != PongTimeout
    ensures c.Setting() == old(c.Setting()) && c.keepAliveTimer.looks == old(c.keepAliveTimer.looks)
    ensures c.commandTimer.settings == old(c.commandTimer.settings) + [timeout]
    ensures c.lastPacketId == if TakesId(op) then IdAfter(old(c.lastPacketId), 1) else old(c.lastPacketId)
    ensures var id := PublishIdOf(op, c.lastPacketId);
      && id < U16
      && Published(c.Setting(), old(c.Now()), c.Now(), NeedsId(op.msg.qos) && !TakesId(op), id, op.skipAck, op.topic, op.msg, err, run, how)
  {
    hide Published;
    var dupId;
    ghost var dup, id, wire;
    NextId(c.lastPacketId);
    err, dupId, dup, id, wire, run, how := c.Publish(op.dupId, op.skipAck, op.topic, op.msg, timeout);
  }

  lemma NextId(last: nat)
    ensures IdAfter(last, 1) == if last == 65535 then 1 else last + 1
  {
    assert IdAfter(last, 1 - 1) == last;
  }

  method Asking(c: MqttClient, op: Op, timeout: nat) returns (err: Err, ghost run: seq<Taken>, ghost how: Ending)
    requires c.Valid() && (op.Subscribe? || op.Unsubscribe?) && Askable(op)
    modifies c, c.net, c.commandTimer, c.keepAliveTimer, c.readBuf, c.writeBuf
    ensures c.Valid() && old(c.log) <= c.log && c.sessions == old(c.sessions) && err != PongTimeout
    ensures c.Setting() == old(c.Setting()) && c.keepAliveTimer.looks == old(c.keepAliveTimer.looks)
    ensures c.commandTimer.settings == old(c.commandTimer.settings) + [timeout]
    ensures c.lastPacketId == IdAfter(old(c.lastPacketId), 1)
    ensures FiltersExchanged(c.Setting(), old(c.Now()), c.Now(), if op.Subscribe? then SUBSCRIBE else UNSUBSCRIBE, c.lastPacketId,
                             op.filters, if op.Subscribe? then 9 else 11, err, run, how)
  {
    hide FiltersExchanged, SubackOutcome, SubackStored, AllGranted;
    NextId(c.lastPacketId);
    if op.Subscribe? {
      var past;
      err, run, past, how := c.Subscribe(op.filters, timeout);
    } else {
      err, run, how := c.Unsubscribe(op.filters, timeout);
    }
  }

  method Yielding(c: MqttClient, op: Op, timeout: nat) returns (err: Err, ghost run: seq<Taken>, ghost stop: Stop)
    requires c.Valid() && op.Yield?
    modifies c, c.net, c.commandTimer, c.keepAliveTimer, c.readBuf, c.writeBuf
    ensures c.Valid() && old(c.log) <= c.log && c.sessions == old(c.sessions) && err != PongTimeout
    ensures c.Setting() == old(c.Setting()) && c.lastPacketId == old(c.lastPacketId)
    ensures c.keepAliveTimer.looks == old(c.keepAliveTimer.looks)
    ensures c.commandTimer.settings == old(c.commandTimer.settings) + [timeout]
    ensures if err == Success then Ran(c.Setting(), old(c.Now()), c.Now(), run)
            else RanThenStopped(c.Setting(), old(c.Now()), c.Now(), run, stop, err)
  {
    hide Ran, RanThenStopped;
    err, run, stop := c.Yield(op.available, timeout);
  }

  method Staying(c: MqttClient, op: Op, timeout: nat) returns (err: Err, ghost looks: seq<int>)
    requires c.Valid() && (op.KeepAlive? || op.Disconnect?)
    modifies c, c.net, c.commandTimer, c.keepAliveTimer, c.readBuf, c.writeBuf
    ensures c.Valid() && old(c.log) <= c.log && c.sessions == old(c.sessions) && (err == PongTimeout ==> op.KeepAlive?)
    ensures c.Setting() == old(c.Setting()) && c.lastPacketId == old(c.lastPacketId)
    ensures c.keepAliveTimer.looks == old(c.keepAliveTimer.looks) + looks && (looks != [] ==> op.KeepAlive?)
    ensures c.commandTimer.settings == old(c.commandTimer.settings) + [timeout]
    ensures var r := Report(err, old(c.Now()), c.Now(), [], Came, looks, c.lastPacketId, c.lastPacketId);
      if op.KeepAlive? then KeptAlive(c.Setting(), r) && (c.keepAliveInterval > 0 <==> looks != []) else Just(c.Setting(), r, [0xE0, 0])
  {
    looks := [];
    if op.KeepAlive? {
      ghost var due, said;
      err, due, said := c.KeepAlive(timeout);
      if c.keepAliveInterval > 0 { looks := [said]; }
    } else {
      err := c.Disconnect(timeout);
    }
  }

  /** The keep-alive timer is asked by a keep-alive, and by no other operation, exactly when keep-alive is on. */
  method Step(c: MqttClient, op: Op, timeout: nat) returns (err: Err, ghost r: Report)
    requires c.Valid() && Askable(op)
    modifies c, c.net, c.commandTimer, c.keepAliveTimer, c.readBuf, c.writeBuf
    ensures c.Valid() && c.sessions == old(c.sessions) + (if op.Connect? then 1 else 0) && c.Setting() == old(c.Setting())
    ensures c.keepAliveTimer.looks == old(c.keepAliveTimer.looks) + r.looks
    ensures op.KeepAlive? ==> (c.keepAliveInterval > 0 <==> r.looks != [])
    ensures c.commandTimer.settings == old(c.commandTimer.settings) + [timeout]
    ensures r.err == err && r.from == old(c.Now()) && r.to == c.Now() && r.last == old(c.lastPacketId) && r.id == c.lastPacketId
    ensures Explains(op, r, c.Setting())
  {
    hide Connected, Published, FiltersExchanged, Ran, RanThenStopped, KeptAlive, Just;
    ghost var run: seq<Taken>, how, looks := [], Came, [];
    if op.Connect? {
      err, run, how := Connecting(c, op, timeout);
    } else if op.Publish? {
      err, run, how := Publishing(c, op, timeout);
    } else if op.Subscribe? || op.Unsubscribe? {
      err, run, how := Asking(c, op, timeout);
    } else if op.Yield? {
      ghost var stop;
      err, run, stop := Yielding(c, op, timeout);
      if err != Success { how := Stopped(stop); }
    } else {
      err, looks := Staying(c, op, timeout);
    }
    r := Report(err, old(c.Now()), c.Now(), run, how, looks, old(c.lastPacketId), c.lastPacketId);
  }

  // ---------- Runs ----------

  function Connects(ops: seq<Op>): nat {
    if ops == [] then 0 else Connects(ops[..|ops| - 1]) + if ops[|ops| - 1].Connect? then 1 else 0
  }

  /** How many packet ids these operations hand out. */
  function Fresh(ops: seq<Op>): nat {
    if ops == [] then 0 else Fresh(ops[..|ops| - 1]) + if TakesId(ops[|ops| - 1]) then 1 else 0
  }

  /** Where a client stands: its moment and the last packet id. */
  datatype Place = Place(now: Moment, id: nat)

  /** The reports of these operations, each going on where the one before ended. */
  ghost predicate Told(ops: seq<Op>, reports: seq<Report>, start: Place, c: Setup) {
    && |reports| == |ops|
    && (ops == [] ||
        (var n := |ops| - 1;
          && Told(ops[..n], reports[..n], start, c)
          && Place(reports[n].from, reports[n].last) == End(reports[..n], start)
          && Askable(ops[n]) && Explains(ops[n], reports[n], c)))
  }

  ghost function End(reports: seq<Report>, start: Place): Place {
    if reports == [] then start else Place(reports[|reports| - 1].to, reports[|reports| - 1].id)
  }

  /** What the keep-alive timer said in all. */
  ghost function Looks(reports: seq<Report>): seq<int> {
    if reports == [] then [] else Looks(reports[..|reports| - 1]) + reports[|reports| - 1].looks
  }

  ghost function PlaceOf(c: MqttClient): Place
    reads c, c.net
  {
    Place(c.Now(), c.lastPacketId)
  }

  /** In any run of operations, whatever fails on the way: every operation is explained by its report, the
      reports join, every byte read and written is accounted for, no two pings go out with neither a
      PINGRESP nor a connect between them, the connections noted are the connects, the command timer is set
      once by each operation, and the keep-alive timer says what the reports tell. */
  method Run(c: MqttClient, ops: seq<Op>, timeouts: seq<nat>) returns (ghost reports: seq<Report>)
    requires c.Valid() && |timeouts| == |ops| && forall k | 0 <= k < |ops| :: Askable(ops[k])
    modifies c, c.net, c.commandTimer, c.keepAliveTimer, c.readBuf, c.writeBuf
    ensures c.Valid() && c.Setting() == old(c.Setting())
    ensures Told(ops, reports, old(PlaceOf(c)), c.Setting()) && End(reports, old(PlaceOf(c))) == PlaceOf(c)
    ensures c.sessions == old(c.sessions) + Connects(ops)
    ensures c.keepAliveTimer.looks == old(c.keepAliveTimer.looks) + Looks(reports)
    ensures c.commandTimer.settings == old(c.commandTimer.settings) + timeouts
    ensures Fold(c.log).taken == c.net.stream[..c.net.pos] && Fold(c.log).output == c.net.output
    ensures Fold(c.log).pingsAlternate && Fold(c.log).whole && Fold(c.log).sessions == c.sessions
  {
    reports := StepAll(c, ops, timeouts, PlaceOf(c), c.sessions, c.keepAliveTimer.looks, c.commandTimer.settings);
    assert ops[..|ops|] == ops && timeouts[..|ops|] == timeouts;
  }

  /** `k` operations of a run that began in this place are over. */
  ghost predicate Stands(c: MqttClient, ops: seq<Op>, timeouts: seq<nat>, k: nat, reports: seq<Report>, start: Place,
                         sessions: nat, looks: seq<int>, settings: seq<nat>)
    reads c, c.net, c.commandTimer, c.keepAliveTimer
  {
    && k <= |ops| == |timeouts| && c.Valid() && Told(ops[..k], reports, start, c.Setting())
    && End(reports, start) == PlaceOf(c) && c.sessions == sessions + Connects(ops[..k])
    && c.keepAliveTimer.looks == looks + Looks(reports) && c.commandTimer.settings == settings + timeouts[..k]
  }

  method StepAll(c: MqttClient, ops: seq<Op>, timeouts: seq<nat>, ghost start: Place, ghost sessions: nat,
                 ghost looks: seq<int>, ghost settings: seq<nat>)
    returns (ghost reports: seq<Report>)
    requires c.Valid() && |timeouts| == |ops| && forall k | 0 <= k < |ops| :: Askable(ops[k])
    requires start == PlaceOf(c) && sessions == c.sessions && looks == c.keepAliveTimer.looks && settings == c.commandTimer.settings
    modifies c, c.net, c.commandTimer, c.keepAliveTimer, c.readBuf, c.writeBuf
    ensures Stands(c, ops, timeouts, |ops|, reports, start, sessions, looks, settings) && c.Setting() == old(c.Setting())
  {
    reports := [];
    var k := 0;
    assert ops[..0] == [] && timeouts[..0] == [];
    while k < |ops|
      invariant k <= |ops| && Stands(c, ops, timeouts, k, reports, start, sessions, looks, settings)
      invariant c.Setting() == old(c.Setting())
    {
      reports := StepOn(c, ops, timeouts, k, reports, start, sessions, looks, settings);
      k := k + 1;
    }
  }

  method StepOn(c: MqttClient, ops: seq<Op>, timeouts: seq<nat>, k: nat, ghost reports: seq<Report>, ghost start: Place,
                ghost sessions: nat, ghost looks: seq<int>, ghost settings: seq<nat>)
    returns (ghost more: seq<Report>)
    requires k < |ops| == |timeouts| && Askable(ops[k])
    requires Stands(c, ops, timeouts, k, reports, start, sessions, looks, settings)
    modifies c, c.net, c.commandTimer, c.keepAliveTimer, c.readBuf, c.writeBuf
    ensures Stands(c, ops, timeouts, k + 1, more, start, sessions, looks, settings) && c.Setting() == old(c.Setting())
  {
    hide Explains, Askable, Fold;
    var err;
    ghost var r;
    err, r := Step(c, ops[k], timeouts[k]);
    more := reports + [r];
    OneLonger(ops, k);
    OneLonger(timeouts, k);
    Assoc(settings, timeouts[..k], [timeouts[k]]);
    ToldOneMore(ops[..k], reports, ops[k], r, start, c.Setting());
    Assoc(looks, Looks(reports), r.looks);
  }

  lemma ToldOneMore(ops: seq<Op>, reports: seq<Report>, op: Op, r: Report, start: Place, c: Setup)
    requires Told(ops, reports, start, c) && Place(r.from, r.last) == End(reports, start) && Askable(op) && Explains(op, r, c)
    ensures Told(ops + [op], reports + [r], start, c) && End(reports + [r], start) == Place(r.to, r.id)
    ensures Connects(ops + [op]) == Connects(ops) + if op.Connect? then 1 else 0
    ensures Looks(reports + [r]) == Looks(reports) + r.looks
  {
    hide Explains, Askable;
    assert (ops + [op])[..|ops|] == ops && (reports + [r])[..|reports|] == reports;
  }

  lemma {:induction false} ExplainedAt(ops: seq<Op>, reports: seq<Report>, start: Place, c: Setup, k: nat)
    requires Told(ops, reports, start, c) && k < |ops|
    ensures Askable(ops[k]) && Explains(ops[k], reports[k], c)
    decreases |ops|
  {
    hide Explains, Askable;
    var n := |ops| - 1;
    if k < n { ExplainedAt(ops[..n], reports[..n], start, c, k); }
  }

  /** The history only grows over a run. */
  lemma {:induction false} HistoryGrows(ops: seq<Op>, reports: seq<Report>, start: Place, c: Setup)
    requires Told(ops, reports, start, c)
    ensures start.now.history <= End(reports, start).now.history
    decreases |ops|
  {
    hide Happened;
    if ops != [] {
      var n := |ops| - 1;
      HistoryGrows(ops[..n], reports[..n], start, c);
      PrefixOfPrefix(start.now.history, reports[n].from.history, reports[n].to.history);
    }
  }

  // ---------- Pings over a run ----------

  /** When keep-alive gives the connection up, a ping was due and one was sent before, and since then neither
      a PINGRESP nor a connect came. */
  lemma PongTimeoutMeans(ops: seq<Op>, reports: seq<Report>, start: Place, c: Setup, k: nat)
    requires Told(ops, reports, start, c) && k < |ops| && reports[k].err == PongTimeout
    ensures var r := reports[k]; ops[k].KeepAlive? && r.to == r.from && r.looks != [] && r.looks[0] <= 0
    ensures var log := reports[k].from.history;
      exists i :: 0 <= i < |log| && IsPing(log[i]) && forall j | i < j < |log| :: !ClosesPing(log[j])
  {
    hide Askable, Connected, Published, FiltersExchanged, Ran, RanThenStopped, Fold;
    ExplainedAt(ops, reports, start, c, k);
    PingOpenMeans(reports[k].from.history);
  }

  /** A keep-alive that ends well while a ping is due has sent one. */
  lemma DuePingsGoOut(ops: seq<Op>, reports: seq<Report>, start: Place, c: Setup, k: nat)
    requires Told(ops, reports, start, c) && k < |ops| && ops[k].KeepAlive?
    requires reports[k].looks != [] && reports[k].looks[0] <= 0 && reports[k].err == Success
    ensures reports[k].to.history == reports[k].from.history + [Sent([0xC0, 0])]
  {
    hide Askable, Connected, Published, FiltersExchanged, Ran, RanThenStopped, Fold;
    ExplainedAt(ops, reports, start, c, k);
  }

  /** Between two pings of a run, in whatever operations they were sent, there is a PINGRESP or a connect. */
  lemma PingsApart(ops: seq<Op>, reports: seq<Report>, start: Place, c: Setup, i: nat, j: nat)
    requires Told(ops, reports, start, c) && ops != []
    requires var log := End(reports, start).now.history; i < j < |log| && IsPing(log[i]) && IsPing(log[j])
    ensures var log := End(reports, start).now.history;
      exists k :: i < k < j && ClosesPing(log[k])
  {
    hide Happened, Askable;
    ExplainedAt(ops, reports, start, c, |ops| - 1);
    NoTwoPingsInARow(End(reports, start).now.history, i, j);
  }

  // ---------- Packet ids over a run ----------

  /** The last packet id after a run, and that of every operation. */
  lemma {:induction false} IdsInOrder(ops: seq<Op>, reports: seq<Report>, start: Place, c: Setup, k: nat)
    requires Told(ops, reports, start, c) && k <= |ops|
    ensures End(reports[..k], start).id == IdAfter(start.id, Fresh(ops[..k]))
    decreases k
  {
    hide Happened, Askable;
    if k > 0 {
      var n := k - 1;
      IdsInOrder(ops, reports, start, c, n);
      ToldBefore(ops, reports, start, c, n);
      assert ops[..k][..n] == ops[..n] && reports[..k][n] == reports[n];
      NextId(reports[n].last);
      NextId(IdAfter(start.id, Fresh(ops[..n])));
    }
  }

  /** An operation of a run begins where the one before it left off. */
  lemma {:induction false} ToldBefore(ops: seq<Op>, reports: seq<Report>, start: Place, c: Setup, k: nat)
    requires Told(ops, reports, start, c) && k < |ops|
    ensures Place(reports[k].from, reports[k].last) == End(reports[..k], start)
    ensures Askable(ops[k]) && Explains(ops[k], reports[k], c)
    decreases |ops|
  {
    hide Explains, Askable;
    var n := |ops| - 1;
    if k < n {
      ToldBefore(ops[..n], reports[..n], start, c, k);
      assert reports[..n][..k] == reports[..k];
    }
  }

  /** The n-th operation of a run that takes a fresh packet id gets the n-th that follows the last one before
      the run. */
  lemma FreshIdAt(ops: seq<Op>, reports: seq<Report>, start: Place, c: Setup, k: nat)
    requires Told(ops, reports, start, c) && k < |ops| && TakesId(ops[k])
    ensures reports[k].id == IdAfter(start.id, Fresh(ops[..k]) + 1)
  {
    hide Explains, Askable, IdAfter;
    assert ops[..k + 1][..k] == ops[..k] && ops[..k + 1][k] == ops[k];
    IdsInOrder(ops, reports, start, c, k + 1);
  }

  lemma {:induction false} FreshGrows(ops: seq<Op>, i: nat, j: nat)
    requires i <= j <= |ops|
    ensures Fresh(ops[..i]) <= Fresh(ops[..j])
    ensures i < j && TakesId(ops[i]) ==> Fresh(ops[..i]) < Fresh(ops[..j])
    decreases j
  {
    if i < j {
      FreshGrows(ops, i, j - 1);
      assert ops[..j][..j - 1] == ops[..j - 1];
    }
  }

  /** Fresh ids of a run that are fewer than 65535 ids apart are different. */
  lemma FreshIdsDiffer(ops: seq<Op>, reports: seq<Report>, start: Place, c: Setup, i: nat, j: nat)
    requires Told(ops, reports, start, c) && i < j < |ops| && TakesId(ops[i]) && TakesId(ops[j])
    requires 1 <= start.id < U16 && Fresh(ops[..j]) < Fresh(ops[..i]) + 65535
    ensures reports[i].id != reports[j].id
  {
    hide Explains, Askable, IdAfter;
    FreshIdAt(ops, reports, start, c, i);
    FreshIdAt(ops, reports, start, c, j);
    FreshGrows(ops, i, j);
    IdsAreDistinct(start.id, Fresh(ops[..i]) + 1, Fresh(ops[..j]) + 1);
  }

  /** The packet id that a packet of the client carries: a PUBLISH behind its topic, a SUBSCRIBE or UNSUBSCRIBE
      at the beginning of its body. */
  ghost function IdOnWire(wire: seq<byte>): nat {
    if wire == [] then 0
    else
      var t := PacketType(wire[0]);
      if t == PUBLISH then if IsPacket(wire) && PublishError(wire) == Success then Meaning(wire).packetId else 0
      else match FixedHeader(wire, t)
           case Good(b, _) => if b + 2 <= |wire| then 256 * (wire[b] as int) + wire[b + 1] else 0
           case Bad(_) => 0
  }

  /** When the packet of such an operation went out whole, it carries the id of its report, whatever came of
      the operation afterwards. */
  lemma FreshIdGoesOut(op: Op, r: Report, c: Setup)
    requires Askable(op) && Explains(op, r, c) && TakesId(op) && !r.how.Unsent? && c.writeRoom < U32
    ensures var n := |r.from.history|;
      n < |r.to.history| && r.to.history[n].Sent? && IdOnWire(r.to.history[n].frame) == r.id
  {
    match op
    case Publish(_, skipAck, topic, msg) => PublishedWithId(c, r, skipAck, topic, msg);
    case Subscribe(filters) => AskedWithId(c, r, SUBSCRIBE, filters, 9);
    case Unsubscribe(filters) => AskedWithId(c, r, UNSUBSCRIBE, filters, 11);
    case _ =>
  }

  /** So the packets that went out with fresh ids, fewer than 65535 ids apart, carry different ones. */
  lemma WireIdsDiffer(ops: seq<Op>, reports: seq<Report>, start: Place, c: Setup, i: nat, j: nat)
    requires Told(ops, reports, start, c) && i < j < |ops| && TakesId(ops[i]) && TakesId(ops[j])
    requires 1 <= start.id < U16 && Fresh(ops[..j]) < Fresh(ops[..i]) + 65535 && c.writeRoom < U32
    requires !reports[i].how.Unsent? && !reports[j].how.Unsent?
    ensures var r, q := reports[i], reports[j]; var m, n := |r.from.history|, |q.from.history|;
      && m < |r.to.history| && r.to.history[m].Sent? && n < |q.to.history| && q.to.history[n].Sent?
      && IdOnWire(r.to.history[m].frame) != IdOnWire(q.to.history[n].frame)
  {
    hide Explains, Askable, IdAfter, IdOnWire;
    ToldBefore(ops, reports, start, c, i);
    ToldBefore(ops, reports, start, c, j);
    FreshIdGoesOut(ops[i], reports[i], c);
    FreshIdGoesOut(ops[j], reports[j], c);
    FreshIdsDiffer(ops, reports, start, c, i, j);
  }

  lemma SentFirst(c: Setup, m: Moment, n: Moment, wire: seq<byte>, tooLong: bool, fits: bool, needle: nat,
                  err: Err, run: seq<Taken>, how: Ending)
    requires Exchanged(c, m, n, wire, tooLong, fits, needle, err, run, how) && !how.Unsent?
    ensures !tooLong && fits && |m.history| < |n.history| && n.history[|m.history|] == Sent(wire)
  {}

  lemma PublishedWithId(c: Setup, r: Report, skipAck: bool, topic: seq<byte>, msg: Message)
    requires |topic| < U16 && |topic| + |msg.payload| + 4 < U32 && NeedsId(msg.qos) && r.id < U16 && !r.how.Unsent?
    requires Published(c, r.from, r.to, false, r.id, skipAck, topic, msg, r.err, r.run, r.how)
    ensures var n := |r.from.history|;
      n < |r.to.history| && r.to.history[n].Sent? && IdOnWire(r.to.history[n].frame) == r.id
  {
    hide Awaited;
    var head := PublishHead(false, r.id, topic, msg);
    var wire, tooLong := head + msg.payload, VarnumLength(PublishRem(topic, msg)).0 != Success;
    if !skipAck {
      SentFirst(c, r.from, r.to, wire, tooLong, |head| <= c.writeRoom, if msg.qos == 1 then 4 else 7, r.err, r.run, r.how);
    }
    PublishWireIsPacket(false, r.id, topic, msg, wire);
  }

  lemma AskedWithId(c: Setup, r: Report, packetType: byte, filters: seq<Filter>, answer: nat)
    requires packetType == SUBSCRIBE || packetType == UNSUBSCRIBE
    requires ShortTopics(filters) && r.id < U16 && !r.how.Unsent? && c.writeRoom < U32
    requires FiltersExchanged(c, r.from, r.to, packetType, r.id, filters, answer, r.err, r.run, r.how)
    ensures var n := |r.from.history|;
      n < |r.to.history| && r.to.history[n].Sent? && IdOnWire(r.to.history[n].frame) == r.id
  {
    hide Awaited;
    var header, body := SubscribeHeader(packetType), FiltersBody(r.id, filters);
    var wire, problem := Frame(header, body), FiltersError(r.id, filters, c.writeRoom);
    SentFirst(c, r.from, r.to, wire, problem == RemainingLengthOverflow, problem == Success, answer, r.err, r.run, r.how);
    SmallModulo(|body|);
    VarnumLengths(|body|);
    SubscribeHeaderFields(packetType);
    FrameHead(header, body, []);
    assert wire + [] == wire;
    var b := |wire| - |body|;
    assert wire[b] == wire[b..|wire|][0] == body[0] && wire[b + 1] == wire[b..|wire|][1] == body[1];
  }

  method NewClient(writeBuf: array<byte>, readBuf: array<byte>, stream: seq<byte>, callback: bool, drop: bool, counter: Option<nat>)
    returns (c: MqttClient)
    requires readBuf != writeBuf && writeBuf.Length < U32 && readBuf.Length < U32
    ensures fresh(c) && fresh(c.net) && fresh(c.keepAliveTimer) && fresh(c.commandTimer) && c.readBuf == readBuf && c.writeBuf == writeBuf
    ensures c.Valid() && c.net.stream == stream && c.Setting() == Setup(stream, readBuf.Length, writeBuf.Length, drop, callback)
    ensures PlaceOf(c) == Place(Moment(0, [], [], counter), 1) && c.sessions == 0
    ensures c.keepAliveTimer.looks == [] && c.commandTimer.settings == []
  {
    var net := new Net(stream);
    var keepAlive := new Timer();
    var command := new Timer();
    c := new MqttClient(writeBuf, readBuf, net, keepAlive, command);
    c.callback, c.dropOverflow, c.overflowCounter := callback, drop, counter;
  }

  /** From a new client on. */
  method RunNew(writeBuf: array<byte>, readBuf: array<byte>, stream: seq<byte>, callback: bool, drop: bool, counter: Option<nat>,
                ops: seq<Op>, timeouts: seq<nat>)
    returns (c: MqttClient, ghost reports: seq<Report>)
    requires readBuf != writeBuf && writeBuf.Length < U32 && readBuf.Length < U32
    requires |timeouts| == |ops| && forall k | 0 <= k < |ops| :: Askable(ops[k])
    modifies readBuf, writeBuf
    ensures c.Valid() && c.net.stream == stream && c.net.pos <= |stream| && c.sessions == Connects(ops)
    ensures var start := Place(Moment(0, [], [], counter), 1);
      Told(ops, reports, start, Setup(stream, readBuf.Length, writeBuf.Length, drop, callback)) && End(reports, start) == PlaceOf(c)
    ensures c.keepAliveTimer.looks == Looks(reports) && c.commandTimer.settings == timeouts
    ensures Fold(c.log).taken == stream[..c.net.pos] && Fold(c.log).output == c.net.output
  {
    hide Told, Fold, Askable;
    c := NewClient(writeBuf, readBuf, stream, callback, drop, counter);
    reports := Run(c, ops, timeouts);
  }
}

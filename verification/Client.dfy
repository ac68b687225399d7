/** The MQTT client of libraries/MQTT/client.c over an adversarial network and timers. */
module Client {
  import opened Sequences
  import opened Helpers
  import opened Packet
  import opened PacketProperties
  import opened Network

  // ---------- Packets and the answers to them ----------

  /** A whole packet that a client may receive, MQTT 3.1.1 section 2.2. */
  ghost predicate IsPacket(f: seq<byte>) {
    |f| >= 2 && Receivable(PacketType(f[0])) && FrameLen(f) == Some(|f|)
  }

  ghost predicate IsPingReq(f: seq<byte>) { f != [] && PacketType(f[0]) == PINGREQ }

  ghost predicate IsPingResp(f: seq<byte>) { f != [] && PacketType(f[0]) == PINGRESP }

  lemma PublishBodyHasParts(body: seq<byte>, qos: byte) returns (topic: seq<byte>, id: nat, payload: seq<byte>)
    requires PublishBodyError(body, qos) == Success
    ensures |topic| < U16 && id < U16 && (qos == 0 ==> id == 0) && body == PublishBody(topic, qos, id, payload)
  {
    var k: nat := 2 + 256 * (body[0] as int) + body[1];
    topic, id, payload := body[2..k], 0, body[k..];
    assert Num(|topic|) == body[..2];
    if qos > 0 {
      id, payload := 256 * (body[k] as int) + body[k + 1], body[k + 2..];
      assert Num(id) == body[k..k + 2];
    }
  }

  lemma PublishHasMeaning(s: seq<byte>)
    requires PublishError(s) == Success
    ensures exists p :: MeansPublish(s, p)
  {
    var Good(start, rem) := FixedHeader(s, PUBLISH);
    var qos := QosOf(s[0]);
    var topic, id, payload := PublishBodyHasParts(s[start..start + rem], qos);
    assert MeansPublish(s, Publish(ReadBits(s[0], 3, 1) == 1, id, topic, Message(qos, ReadBits(s[0], 0, 1) == 1, payload)));
  }

  /** The one message that a PUBLISH means. */
  ghost function Meaning(s: seq<byte>): (p: Publish)
    requires PublishError(s) == Success
    ensures MeansPublish(s, p)
  {
    PublishHasMeaning(s);
    var p :| MeansPublish(s, p); p
  }

  ghost function AckId(s: seq<byte>, packetType: nat): (id: nat)
    requires AckError(s, packetType) == Success
    ensures id < U16
  {
    var start := FixedHeader(s, packetType).start;
    256 * (s[start] as int) + s[start + 1]
  }

  /** What keeps the client from decoding the packet, if anything; it looks into three kinds only. */
  ghost function Complaint(f: seq<byte>): (e: Err)
    requires IsPacket(f)
    ensures e.Common() && !e.FromNetwork()
  {
    var t := PacketType(f[0]);
    if t == PUBLISH then PublishError(f) else if t == PUBREC || t == PUBREL then AckError(f, t) else Success
  }

  ghost predicate Handled(f: seq<byte>)
    requires IsPacket(f)
  {
    Complaint(f) == Success
  }

  /** The type of the answer that sections 3.4 to 3.7 ask for: PUBACK to a QoS 1 and PUBREC to a QoS 2
      message, PUBREL to PUBREC, PUBCOMP to PUBREL. */
  function AnswerType(packetType: nat, qos: byte): byte {
    if packetType == PUBLISH then if qos == 0 then NO_PACKET else if qos == 1 then PUBACK else PUBREC
    else if packetType == PUBREC then PUBREL
    else if packetType == PUBREL then PUBCOMP
    else NO_PACKET
  }

  /** The answer, with the packet id received, or nothing. */
  ghost function Reply(f: seq<byte>): seq<byte>
    requires IsPacket(f) && Handled(f)
  {
    var t := PacketType(f[0]);
    var answer := AnswerType(t, if t == PUBLISH then Meaning(f).msg.qos else 0);
    if answer == NO_PACKET then []
    else Frame(AckHeader(answer), Num(if t == PUBLISH then Meaning(f).packetId else AckId(f, t)))
  }

  /** The messages handed to the callback. */
  ghost function Delivery(f: seq<byte>): seq<Publish>
    requires IsPacket(f) && Handled(f)
  {
    if PacketType(f[0]) == PUBLISH then [Meaning(f)] else []
  }

  /** A packet at the front of a buffer with stale bytes after it is decoded as if it stood alone. */
  lemma PublishInBuffer(f: seq<byte>, buf: seq<byte>)
    requires IsPacket(f) && f <= buf
    ensures PublishError(buf) == PublishError(f)
    ensures PublishError(f) == Success ==> forall p :: MeansPublish(buf, p) ==> p == Meaning(f)
  {
    DecodingIsLocal(f, buf, PUBLISH, 0);
    if PublishError(f) == Success {
      forall p | MeansPublish(buf, p) ensures p == Meaning(f) {
        assert MeansPublish(f, p);
        PublishMeansOne(f, p, Meaning(f));
      }
    }
  }

  lemma AckInBuffer(f: seq<byte>, buf: seq<byte>, packetType: nat)
    requires IsPacket(f) && f <= buf
    ensures AckError(buf, packetType) == AckError(f, packetType)
    ensures AckError(f, packetType) == Success ==>
      FixedHeader(buf, packetType) == FixedHeader(f, packetType)
      && var start := FixedHeader(f, packetType).start;
         forall id: nat :: id < U16 && buf[start..start + 2] == Num(id) ==> id == AckId(f, packetType)
  {
    DecodingIsLocal(f, buf, packetType, 0);
    if AckError(f, packetType) == Success {
      var start := FixedHeader(f, packetType).start;
      forall id: nat | id < U16 && buf[start..start + 2] == Num(id) ensures id == AckId(f, packetType) {
        assert buf[start] == Num(id)[0] && buf[start + 1] == Num(id)[1];
        assert f[start] == buf[start] && f[start + 1] == buf[start + 1];
      }
    }
  }

  lemma FrameIsPacket(header: byte, body: seq<byte>)
    requires |body| < 0x1000_0000 && Receivable(PacketType(header))
    ensures IsPacket(Frame(header, body)) && Frame(header, body)[0] == header
  {
    FrameHead(header, body, []);
    assert Frame(header, body) + [] == Frame(header, body);
  }

  lemma PublishWireIsFrame(dup: bool, packetId: nat, topic: seq<byte>, msg: Message, wire: seq<byte>)
    requires packetId < U16 && |topic| < U16 && |topic| + |msg.payload| + 4 < U32 && msg.qos <= 2
    requires VarnumLength(PublishRem(topic, msg)).0 == Success
    requires wire == PublishHead(dup, packetId, topic, msg) + msg.payload
    ensures |PublishBody(topic, msg.qos, packetId, msg.payload)| < 0x1000_0000
    ensures IsPacket(wire) && PacketType(wire[0]) == PUBLISH
  {
    hide PublishHeader, PublishHead, Varnum, Frame, IsPacket, ReadBits, WriteBits;
    var header, body := PublishHeader(dup, msg.qos, msg.retained), PublishBody(topic, msg.qos, packetId, msg.payload);
    assert |body| == 2 + |topic| + |msg.payload| + if msg.qos > 0 then 2 else 0;
    ModuloFits(|body|);
    PublishIsFrame(dup, packetId, topic, msg);
    PublishHeaderFields(dup, msg.qos, msg.retained);
    FrameIsPacket(header, body);
  }

  /** `wire` is one packet, a PUBLISH from which the decoder reads the message back. */
  ghost predicate Carries(wire: seq<byte>, dup: bool, packetId: nat, topic: seq<byte>, msg: Message) {
    IsPacket(wire) && PublishError(wire) == Success && Meaning(wire) == Received(dup, packetId, topic, msg)
  }

  lemma PublishWireIsPacket(dup: bool, packetId: nat, topic: seq<byte>, msg: Message, wire: seq<byte>)
    requires packetId < U16 && |topic| < U16 && |topic| + |msg.payload| + 4 < U32 && msg.qos <= 2
    requires VarnumLength(PublishRem(topic, msg)).0 == Success
    requires wire == PublishHead(dup, packetId, topic, msg) + msg.payload
    ensures PacketType(wire[0]) == PUBLISH && Carries(wire, dup, packetId, topic, msg)
  {
    PublishWireIsFrame(dup, packetId, topic, msg, wire);
    PublishRoundTrip(dup, packetId, topic, msg, []);
    assert wire + [] == wire;
    PublishMeansOne(wire, Meaning(wire), Received(dup, packetId, topic, msg));
  }

  // ---------- The history of a client ----------

  /** What happened at the network, whole packets where they were moved whole. */
  datatype Event =
    | Reset                        // a connection attempt starts
    | Got(frame: seq<byte>)        // a packet was read
    | Dropped(frame: seq<byte>)    // a packet too long for the buffer was skipped
    | Lost(bytes: seq<byte>)       // a read failed after these bytes
    | Sent(frame: seq<byte>)       // a packet was written
    | Broken(bytes: seq<byte>)     // a write failed after these bytes

  /** `whole` says that every packet noted as read or skipped was one; `sessions` counts connections. */
  datatype Summary = Summary(taken: seq<byte>, output: seq<byte>, pingOpen: bool, pingsAlternate: bool,
                             whole: bool, sessions: nat)

  ghost function Step(s: Summary, e: Event): Summary {
    match e
    case Reset => s.(pingOpen := false, sessions := s.sessions + 1)
    case Got(f) => s.(taken := s.taken + f, pingOpen := s.pingOpen && !IsPingResp(f), whole := s.whole && IsPacket(f))
    case Dropped(f) => s.(taken := s.taken + f, whole := s.whole && IsPacket(f))
    case Lost(b) => s.(taken := s.taken + b)
    case Sent(f) => s.(output := s.output + f, pingOpen := s.pingOpen || IsPingReq(f),
                       pingsAlternate := s.pingsAlternate && !(IsPingReq(f) && s.pingOpen))
    case Broken(b) => s.(output := s.output + b)
  }

  ghost function Fold(log: seq<Event>): Summary {
    if log == [] then Summary([], [], false, true, true, 0) else Step(Fold(log[..|log| - 1]), log[|log| - 1])
  }

  lemma FoldSnoc(log: seq<Event>, e: Event)
    ensures Fold(log + [e]) == Step(Fold(log), e)
  {
    assert (log + [e])[..|log|] == log;
  }

  /** A SUBACK with a QoS level for every filter and no failure. */
  ghost predicate AllGranted(s: seq<byte>) {
    && FixedHeader(s, SUBACK).Good?
    && var Good(start, rem) := FixedHeader(s, SUBACK);
       start + rem <= |s| && forall i | start + 2 <= i < start + rem :: s[i] <= 2
  }

  /** A CONNACK with this session-present flag and this return code, those beyond 5 being one unknown code. */
  ghost predicate ConnackSays(s: seq<byte>, sessionPresent: bool, returnCode: nat) {
    && ConnackError(s) == Success
    && var start := FixedHeader(s, CONNACK).start;
       sessionPresent == (s[start] % 2 == 1) && returnCode == if s[start + 1] < 6 then s[start + 1] else 6
  }

  /** What subscribing for `count` filters makes of a SUBACK. */
  ghost function SubackOutcome(s: seq<byte>, count: nat): Err {
    if SubackError(s, count) != Success then SubackError(s, count)
    else if AllGranted(s) then Success
    else FailedSubscription
  }

  /** What the history says of a packet to be written: nothing when it does not fit the buffer, that it was
      sent, or that the write broke off somewhere. */
  ghost predicate Went(wire: seq<byte>, fits: bool, err: Err, events: seq<Event>) {
    if !fits then err == BufferTooShort && events == []
    else if err == Success then events == [Sent(wire)]
    else
      && (err == NetworkTimeout || err == NetworkFailedWrite)
      && |events| == 1 && events[0].Broken? && events[0].bytes <= wire
  }

  ghost function Answered(f: seq<byte>): seq<Event>
    requires IsPacket(f) && Handled(f)
  {
    [Got(f)] + if Reply(f) == [] then [] else [Sent(Reply(f))]
  }

  // ---------- Runs of packets ----------

  /** A packet that was taken off the network, what it made of the history, and the messages that it
      brought to the callback; `fits` says whether the read buffer could hold it. */
  datatype Taken = Taken(frame: seq<byte>, fits: bool, events: seq<Event>, messages: seq<Publish>)

  /** A packet was sent for it. */
  predicate Replied(t: Taken) { |t.events| > 1 }

  /** What there is to tell about a cycle that failed: the bytes taken off the network, whether they were a
      whole packet, what the history notes of it, and the messages that it brought. */
  datatype Stop = Stop(bytes: seq<byte>, events: seq<Event>, messages: seq<Publish>, whole: bool)

  /** The client did what it has to do with the packet: it answered and delivered one that fits its
      buffer of `cap` bytes, and dropped a longer one. */
  ghost predicate Faithful(t: Taken, cap: nat) {
    && IsPacket(t.frame) && t.fits == (|t.frame| <= cap)
    && if t.fits then Handled(t.frame) && t.events == Answered(t.frame) && t.messages == Delivery(t.frame)
       else t.events == [Dropped(t.frame)] && t.messages == []
  }

  /** No answer went out in the run. */
  predicate Silent(run: seq<Taken>) {
    run == [] || (!Replied(run[|run| - 1]) && Silent(run[..|run| - 1]))
  }

  /** No packet of this type came into the buffer. */
  predicate Absent(run: seq<Taken>, packetType: nat) {
    forall i | 0 <= i < |run| :: run[i].fits && run[i].frame != [] ==> PacketType(run[i].frame[0]) != packetType
  }

  predicate OneMore(run: seq<Taken>, longer: seq<Taken>) {
    |longer| == |run| + 1 && longer[..|run|] == run
  }

  lemma NoneAbsent(packetType: nat)
    ensures Absent([], packetType)
  {}

  /** One more packet of another type. */
  lemma AbsentStays(run: seq<Taken>, longer: seq<Taken>, packetType: nat)
    requires Absent(run, packetType) && OneMore(run, longer)
    requires var t := longer[|run|]; t.fits && t.frame != [] ==> PacketType(t.frame[0]) != packetType
    ensures Absent(longer, packetType)
  {
    assert forall i | 0 <= i < |run| :: longer[i] == longer[..|run|][i];
  }

  /** How an exchange ended: the packet did not go out, and the history notes this of it; a cycle failed; the
      answer did not come in time; or it came. */
  datatype Ending = Unsent(events: seq<Event>) | Stopped(stop: Stop) | Missed | Came

  ghost predicate FaithfulRun(run: seq<Taken>, cap: nat) {
    forall i | 0 <= i < |run| :: Faithful(run[i], cap)
  }

  ghost function FramesOf(run: seq<Taken>): seq<byte> {
    if run == [] then [] else FramesOf(run[..|run| - 1]) + run[|run| - 1].frame
  }

  ghost function EventsOf(run: seq<Taken>): seq<Event> {
    if run == [] then [] else EventsOf(run[..|run| - 1]) + run[|run| - 1].events
  }

  ghost function MessagesOf(run: seq<Taken>): seq<Publish> {
    if run == [] then [] else MessagesOf(run[..|run| - 1]) + run[|run| - 1].messages
  }

  /** lwmqtt_cycle_until's count of bytes read: a dropped packet sets it back to zero. */
  ghost function ReadCount(run: seq<Taken>): nat {
    if run == [] then 0
    else if run[|run| - 1].fits then ReadCount(run[..|run| - 1]) + |run[|run| - 1].frame|
    else 0
  }

  /** Every packet of the run was asked for when less than `available` had been counted. */
  ghost predicate WithinBudget(run: seq<Taken>, available: nat) {
    run == [] || (WithinBudget(run[..|run| - 1], available) && ReadCount(run[..|run| - 1]) < available)
  }

  lemma RunSnoc(run: seq<Taken>, t: Taken)
    ensures FramesOf(run + [t]) == FramesOf(run) + t.frame
    ensures EventsOf(run + [t]) == EventsOf(run) + t.events
    ensures MessagesOf(run + [t]) == MessagesOf(run) + t.messages
    ensures ReadCount(run + [t]) == if t.fits then ReadCount(run) + |t.frame| else 0
    ensures forall c :: CountAfter(c, run + [t]) == if t.fits then CountAfter(c, run) else Bump(CountAfter(c, run))
  {
    assert (run + [t])[..|run|] == run;
  }

  lemma FaithfulSnoc(run: seq<Taken>, t: Taken, cap: nat)
    requires FaithfulRun(run, cap) && Faithful(t, cap)
    ensures FaithfulRun(run + [t], cap)
  {}

  /** The counter of skipped packets after one more. */
  function Bump(counter: Option<nat>): Option<nat> {
    if counter.Some? then Some((counter.value + 1) % U32) else None
  }

  /** And after a run. */
  ghost function CountAfter(counter: Option<nat>, run: seq<Taken>): Option<nat> {
    if run == [] then counter
    else
      var before := CountAfter(counter, run[..|run| - 1]);
      if run[|run| - 1].fits then before else Bump(before)
  }

  /** What a client does not change by itself: what the server sends, the room in its two buffers, whether
      packets that are too long are dropped, and whether there is a callback. */
  datatype Setup = Setup(stream: seq<byte>, readRoom: nat, writeRoom: nat, drop: bool, callback: bool)

  /** What runs are measured from: the position in the stream, the history, the messages delivered, and
      the counter of skipped packets. */
  datatype Moment = Moment(pos: nat, history: seq<Event>, messages: seq<Publish>, counter: Option<nat>)

  ghost function AfterTaken(c: Setup, m: Moment, t: Taken): Moment {
    Moment(m.pos + |t.frame|, m.history + t.events, m.messages + (if c.callback then t.messages else []),
           if t.fits then m.counter else Bump(m.counter))
  }

  ghost function AfterRun(c: Setup, m: Moment, run: seq<Taken>): Moment {
    Moment(m.pos + |FramesOf(run)|, m.history + EventsOf(run), m.messages + (if c.callback then MessagesOf(run) else []),
           CountAfter(m.counter, run))
  }

  ghost function AfterStop(c: Setup, m: Moment, stop: Stop): Moment {
    Moment(m.pos + |stop.bytes|, m.history + stop.events, m.messages + (if c.callback then stop.messages else []), m.counter)
  }

  lemma NoRun(c: Setup, m: Moment)
    requires m.pos <= |c.stream|
    ensures AfterRun(c, m, []) == m && Ran(c, m, m, [])
  {}

  lemma AfterOneMore(c: Setup, m: Moment, run: seq<Taken>, t: Taken)
    ensures AfterRun(c, m, run + [t]) == AfterTaken(c, AfterRun(c, m, run), t)
  {
    RunSnoc(run, t);
    Assoc(m.history, EventsOf(run), t.events);
    Assoc(m.messages, MessagesOf(run), t.messages);
  }

  lemma FramesGrow(stream: seq<byte>, from: nat, mid: nat, to: nat, run: seq<Taken>, t: Taken)
    requires from <= mid <= to <= |stream| && FramesOf(run) == stream[from..mid] && t.frame == stream[mid..to]
    ensures FramesOf(run + [t]) == stream[from..to]
  {
    RunSnoc(run, t);
    JoinSlices(stream, from, mid, to);
  }

  /** The packet that starts at `from` cannot be brought into the buffer: what has been read of it up to `to`,
      which is no more than header and length field, fills the buffer, or its declared length does not fit and
      it may not be dropped. */
  predicate NoRoom(c: Setup, from: nat, to: nat)
    requires from <= to <= |c.stream|
  {
    to - from >= c.readRoom ||
    (!c.drop && to > from && match ParseVarnum(c.stream[from + 1..to])
                             case Done(rem, len) => 1 + len + rem > c.readRoom
                             case _ => false)
  }

  /** Why the bytes from `from` to `to` made no packet that the client takes. */
  predicate Unreadable(c: Setup, from: nat, to: nat, err: Err) {
    && from <= to <= |c.stream|
    && match err
       case BufferTooShort => NoRoom(c, from, to)
       case RemainingLengthOverflow => to > from && ParseVarnum(c.stream[from + 1..to]) == Overflow
       case MissingOrWrongPacket => to == from + 1 && !Receivable(PacketType(c.stream[from]))
       case _ => err == NetworkTimeout || err == NetworkFailedRead
  }

  /** What follows the note of a packet that was read. */
  ghost predicate Dealt(c: Setup, f: seq<byte>, err: Err, events: seq<Event>)
    requires IsPacket(f)
  {
    if !Handled(f) then err == Complaint(f) && events == []
    else if Reply(f) == [] then err == Success && events == []
    else Went(Reply(f), |Reply(f)| <= c.writeRoom, err, events)
  }

  /** Where a cycle that failed was stopped: at bytes, from `from` to `to`, that made no packet, or at a packet
      in the buffer that could not be decoded or not be answered. */
  ghost predicate StoppedAt(c: Setup, stop: Stop, from: nat, to: nat, err: Err) {
    && from <= to <= |c.stream| && stop.bytes == c.stream[from..to]
    && if stop.whole then
         && IsPacket(stop.bytes) && |stop.bytes| <= c.readRoom
         && stop.events != [] && stop.events[0] == Got(stop.bytes) && Dealt(c, stop.bytes, err, stop.events[1..])
         && stop.messages == if Handled(stop.bytes) then Delivery(stop.bytes) else []
       else
         && Unreadable(c, from, to, err) && stop.messages == []
         && stop.events == if stop.bytes == [] then [] else [Lost(stop.bytes)]
  }

  /** Stopped by these bytes, which are no packet. */
  function Unread(bytes: seq<byte>): Stop {
    Stop(bytes, if bytes == [] then [] else [Lost(bytes)], [], false)
  }

  lemma UnreadStops(c: Setup, bytes: seq<byte>, from: nat, to: nat, err: Err)
    requires Unreadable(c, from, to, err) && bytes == c.stream[from..to]
    ensures StoppedAt(c, Unread(bytes), from, to, err)
  {}

  /** Stopped by this packet, after these events. */
  ghost function Undone(f: seq<byte>, events: seq<Event>): Stop
    requires IsPacket(f)
  {
    Stop(f, [Got(f)] + events, if Handled(f) then Delivery(f) else [], true)
  }

  lemma UndoneStops(c: Setup, f: seq<byte>, events: seq<Event>, from: nat, to: nat, err: Err)
    requires from <= to <= |c.stream| && f == c.stream[from..to] && IsPacket(f) && |f| <= c.readRoom && Dealt(c, f, err, events)
    ensures StoppedAt(c, Undone(f, events), from, to, err)
  {
    assert ([Got(f)] + events)[1..] == events;
  }

  /** A packet that is too long, skipped. */
  function Skip(f: seq<byte>): Taken { Taken(f, false, [Dropped(f)], []) }

  lemma SkipIsFaithful(f: seq<byte>, cap: nat)
    requires IsPacket(f) && |f| > cap
    ensures Faithful(Skip(f), cap) && !Replied(Skip(f))
  {}

  /** A packet that is answered and delivered as it should be. */
  ghost function Taking(f: seq<byte>): Taken
    requires IsPacket(f) && Handled(f)
  {
    Taken(f, true, Answered(f), Delivery(f))
  }

  lemma TakingIsFaithful(f: seq<byte>, cap: nat)
    requires IsPacket(f) && Handled(f) && |f| <= cap
    ensures Faithful(Taking(f), cap) && (Replied(Taking(f)) <==> Reply(f) != [])
  {}

  lemma DealtIsAnswered(c: Setup, f: seq<byte>, events: seq<Event>)
    requires IsPacket(f) && Dealt(c, f, Success, events)
    ensures Handled(f) && [Got(f)] + events == Answered(f) && (events != [] <==> Reply(f) != [])
  {}

  /** Between these moments the packets of the run were taken off the network in order, each was answered before
      the next, their messages were delivered, and those skipped were counted. */
  ghost predicate Ran(c: Setup, m: Moment, n: Moment, run: seq<Taken>) {
    && m.pos <= n.pos <= |c.stream| && FramesOf(run) == c.stream[m.pos..n.pos]
    && n == AfterRun(c, m, run) && FaithfulRun(run, c.readRoom)
  }

  /** The same up to the cycle that failed at `stop`. */
  ghost predicate RanThenStopped(c: Setup, m: Moment, n: Moment, run: seq<Taken>, stop: Stop, err: Err) {
    var mid := AfterRun(c, m, run);
    Ran(c, m, mid, run) && StoppedAt(c, stop, mid.pos, n.pos, err) && n == AfterStop(c, mid, stop)
  }

  /** How waiting for a packet of this type ended: a cycle failed, the time is over and it is not among the
      packets that came, or it came as the last of them. */
  ghost predicate Awaited(c: Setup, m: Moment, n: Moment, needle: nat, err: Err, run: seq<Taken>, how: Ending) {
    match how
    case Unsent(_) => false
    case Stopped(stop) => err != Success && RanThenStopped(c, m, n, run, stop, err) && Absent(run, needle)
    case Missed => err == MissingOrWrongPacket && Ran(c, m, n, run) && Absent(run, needle)
    case Came => Ran(c, m, n, run) && run != [] && Absent(run[..|run| - 1], needle)
  }

  /** Once the packet has come, the answer is another matter. */
  lemma CameAnyway(c: Setup, m: Moment, n: Moment, needle: nat, err: Err, other: Err, run: seq<Taken>)
    requires Awaited(c, m, n, needle, err, run, Came)
    ensures Awaited(c, m, n, needle, other, run, Came)
  {}

  /** How an exchange that begins with this packet ended: the packet did not go out whole, or it did, and an
      answer of the given type was waited for.  A packet that is too long for its length field is refused. */
  ghost predicate Exchanged(c: Setup, m: Moment, n: Moment, wire: seq<byte>, tooLong: bool, fits: bool, needle: nat,
                            err: Err, run: seq<Taken>, how: Ending)
  {
    if how.Unsent? then
      && err != Success && run == [] && n == m.(history := m.history + how.events)
      && if tooLong then err == RemainingLengthOverflow && how.events == [] else Went(wire, fits, err, how.events)
    else !tooLong && fits && Awaited(c, m.(history := m.history + [Sent(wire)]), n, needle, err, run, how)
  }

  predicate NeedsId(qos: byte) { qos == 1 || qos == 2 }

  /** The acknowledgement that ends the exchange; none for the levels that do not exist. */
  function AckType(qos: byte): nat {
    if qos == 1 then PUBACK else if qos == 2 then PUBCOMP else NO_PACKET
  }

  /** How publishing a message ended: it did not go out whole; or it did, and no acknowledgement was waited for;
      or PUBACK, packet type 4, or PUBCOMP, type 7, was. */
  ghost predicate Published(c: Setup, m: Moment, n: Moment, dup: bool, id: nat, skipAck: bool, topic: seq<byte>, msg: Message,
                            err: Err, run: seq<Taken>, how: Ending)
    requires id < U16 && |topic| < U16
  {
    var head := PublishHead(dup, id, topic, msg);
    var wire, tooLong := head + msg.payload, VarnumLength(PublishRem(topic, msg)).0 != Success;
    if how.Unsent? || (NeedsId(msg.qos) && !skipAck) then
      Exchanged(c, m, n, wire, tooLong, |head| <= c.writeRoom, if msg.qos == 1 then 4 else 7, err, run, how)
    else
      && !tooLong && |head| <= c.writeRoom
      && if msg.qos == 0 || skipAck then err == Success && run == [] && how == Came && n == m.(history := m.history + [Sent(wire)])
         else err == Success ==> Ran(c, m.(history := m.history + [Sent(wire)]), n, run)
  }

  function ConnectWire(options: ConnectOptions, will: Option<Will>): seq<byte>
    requires options.Short() && (will.Some? ==> will.value.Short())
  {
    [WriteBits(0, CONNECT, 4, 4)] + Varnum(ConnectRem(options, will)) + ConnectBody(options, will)
  }

  ghost predicate Connected(c: Setup, m: Moment, n: Moment, options: ConnectOptions, will: Option<Will>,
                            err: Err, run: seq<Taken>, how: Ending)
    requires options.Short() && (will.Some? ==> will.value.Short())
  {
    var wire := ConnectWire(options, will);
    Exchanged(c, m.(history := m.history + [Reset]), n, wire, false, |wire| <= c.writeRoom, 2, err, run, how)
  }

  /** How an exchange that begins with a list of filters ended. */
  ghost predicate FiltersExchanged(c: Setup, m: Moment, n: Moment, packetType: byte, id: nat, filters: seq<Filter>,
                                   answer: nat, err: Err, run: seq<Taken>, how: Ending)
    requires id < U16 && ShortTopics(filters)
  {
    var wire, problem := Frame(SubscribeHeader(packetType), FiltersBody(id, filters)), FiltersError(id, filters, c.writeRoom);
    Exchanged(c, m, n, wire, problem == RemainingLengthOverflow, problem == Success, answer, err, run, how)
  }

  class MqttClient {
    var lastPacketId: nat
    var keepAliveInterval: nat
    var pongPending: bool
    const writeBuf: array<byte>
    const readBuf: array<byte>
    const net: Net
    const keepAliveTimer: Timer
    const commandTimer: Timer
    var callback: bool
    var delivered: seq<Publish>
    var dropOverflow: bool
    var overflowCounter: Option<nat>
    ghost var log: seq<Event>
    /** How many connections have been started. */
    ghost var sessions: nat

    ghost predicate Shape()
      reads this, net
    {
      && readBuf != writeBuf && commandTimer != keepAliveTimer
      && 1 <= lastPacketId < U16 && writeBuf.Length < U32 && readBuf.Length < U32 && net.Valid()
    }

    /** The history accounts for every byte moved and every connection started, and the flag says whether
        a ping is open in it. */
    ghost predicate Valid()
      reads this, net
    {
      Shape() && Fold(log) == Summary(net.stream[..net.pos], net.output, pongPending, true, true, sessions)
    }

    constructor (writeBuf: array<byte>, readBuf: array<byte>, net: Net, keepAliveTimer: Timer, commandTimer: Timer)
      requires readBuf != writeBuf && commandTimer != keepAliveTimer && writeBuf.Length < U32 && readBuf.Length < U32
      requires net.pos == 0 && net.output == []
      ensures Valid() && lastPacketId == 1 && log == [] && sessions == 0 && delivered == [] && !callback && !dropOverflow
      ensures this.writeBuf == writeBuf && this.readBuf == readBuf && this.net == net && overflowCounter == None
      ensures this.keepAliveTimer == keepAliveTimer && this.commandTimer == commandTimer && keepAliveInterval == 0 && !pongPending
    {
      lastPacketId, keepAliveInterval, pongPending := 1, 0, false;
      this.writeBuf, this.readBuf, this.net := writeBuf, readBuf, net;
      this.keepAliveTimer, this.commandTimer := keepAliveTimer, commandTimer;
      callback, delivered, dropOverflow, overflowCounter, log, sessions := false, [], false, None, [], 0;
    }

    method NextPacketId() returns (id: nat)
      requires Shape()
      modifies this`lastPacketId
      ensures Shape() && id == lastPacketId == if old(lastPacketId) == 65535 then 1 else old(lastPacketId) + 1
    {
      if lastPacketId == 65535 {
        lastPacketId := 1;
        return 1;
      }
      lastPacketId := lastPacketId + 1;
      return lastPacketId;
    }

    /** `got` bytes have left the network and stand in the buffer at `offset`, behind the bytes that
        were there. */
    twostate predicate TookInto(offset: nat, got: nat)
      reads net, readBuf
    {
      && net.pos == old(net.pos) + got <= |net.stream| && offset + got <= readBuf.Length
      && forall i | 0 <= i < offset + got ::
           readBuf[i] == if i < offset then old(readBuf[i]) else net.stream[old(net.pos) + i - offset]
    }

    ghost function Setting(): Setup
      reads this`dropOverflow, this`callback
    {
      Setup(net.stream, readBuf.Length, writeBuf.Length, dropOverflow, callback)
    }

    /** What the network and the time have to do with how this ended. */
    twostate predicate Excused(err: Err)
      reads net, commandTimer
    {
      Excuses(old(net.faults), net.faults, commandTimer.remaining, err)
    }

    /** Something was waited for and did not come in time. */
    twostate predicate Waited()
      reads net, commandTimer
    {
      commandTimer.remaining <= 0 || old(net.faults.timeouts) < net.faults.timeouts
    }

    method ReadFromNetwork(offset: nat, len: nat) returns (err: Err, ghost got: nat)
      requires Shape() && offset <= readBuf.Length
      modifies net`pos, net`faults, commandTimer`remaining, commandTimer`looks, readBuf
      ensures commandTimer.remaining <= old(commandTimer.remaining)
      ensures TookInto(offset, got) && got <= len && Excused(err)
      ensures err == Success ==> got == len
      ensures err == NetworkTimeout ==> got < len
      ensures err == BufferTooShort <==> readBuf.Length < offset + len
      ensures err == BufferTooShort ==> got == 0
      ensures err == Success || err == BufferTooShort || err == NetworkTimeout || err == NetworkFailedRead
    {
      got := 0;
      if readBuf.Length < offset + len { return BufferTooShort, 0; }
      var read := 0;
      while read < len
        invariant read == got <= len && TookInto(offset, got) && net.faults == old(net.faults)
        invariant commandTimer.remaining <= old(commandTimer.remaining)
        decreases commandTimer.remaining
      {
        var remaining := commandTimer.Get();
        if remaining <= 0 { return NetworkTimeout, got; }
        var partial: nat;
        err, partial := net.Read(readBuf, offset + read, len - read);
        got := got + partial;
        if err != Success { return; }
        read := read + partial;
      }
      err := Success;
    }

    /** Skips `amount` bytes, through the buffer. */
    method DrainNetwork(amount: nat) returns (err: Err, ghost got: nat)
      requires Shape() && (amount > 0 ==> readBuf.Length > 0)
      modifies net`pos, net`faults, commandTimer`remaining, commandTimer`looks, readBuf
      ensures commandTimer.remaining <= old(commandTimer.remaining)
      ensures net.Valid() && net.pos == old(net.pos) + got && Excused(err)
      ensures got <= amount && (err == Success ==> got == amount)
      ensures err == Success || err == NetworkTimeout || err == NetworkFailedRead
    {
      got := 0;
      var left: nat := amount;
      while left > 0
        invariant left + got == amount && net.Valid() && net.pos == old(net.pos) + got && net.faults == old(net.faults)
        invariant commandTimer.remaining <= old(commandTimer.remaining)
        decreases commandTimer.remaining
      {
        var remaining := commandTimer.Get();
        if remaining <= 0 { return NetworkTimeout, got; }
        var maxRead := if left > readBuf.Length then readBuf.Length else left;
        var partial: nat;
        err, partial := net.Read(readBuf, 0, maxRead);
        got := got + partial;
        if err != Success { return; }
        left := left - partial;
      }
      err := Success;
    }

    /** What the length loop knows about the bytes it has read so far. */
    static lemma LengthSoFar(buf: seq<byte>, stream: seq<byte>, start: nat, len: nat)
      requires 0 < len < |buf| && start + len <= |stream| && forall i | 1 <= i < 1 + len :: buf[i] == stream[start + i - 1]
      requires len == 1 || ParseVarnum(stream[start..start + len - 1]) == TooShort
      ensures buf[1..1 + len] == stream[start..start + len]
      ensures match ParseVarnum(stream[start..start + len]) case TooShort => len <= 4 case Overflow => true case Done(_, n) => n == len
    {
      var s, t := stream[start..start + len], buf[1..1 + len];
      forall i | 0 <= i < len ensures t[i] == s[i] { assert buf[1 + i] == stream[start + i]; }
      SliceOfSlice(stream, start, start + len, 0, len - 1);
      assert s[0..len - 1] == s[..len - 1];
      VarnumByteByByte(s);
    }

    /** How much of the length field has been read when `err` is the answer so far. */
    ghost predicate LengthRead(start: nat, err: Err, len: nat, remLen: nat)
      reads net
    {
      && start <= net.pos <= |net.stream|
      && match err
         case Success => ParseVarnum(net.stream[start..net.pos]) == Done(remLen, len) && net.pos == start + len
         case RemainingLengthOverflow => ParseVarnum(net.stream[start..net.pos]) == Overflow
         case BufferTooShort => net.pos - start + 1 >= readBuf.Length
         case _ => err == NetworkTimeout || err == NetworkFailedRead
    }

    /** The length field behind a header byte that has just been read, a byte at a time. */
    method ReadLength() returns (err: Err, len: nat, remLen: nat)
      requires Shape() && readBuf.Length >= 1
      modifies net`pos, net`faults, commandTimer`remaining, commandTimer`looks, readBuf
      ensures commandTimer.remaining <= old(commandTimer.remaining)
      ensures Excused(err) && LengthRead(old(net.pos), err, len, remLen) && (err == Success ==> TookInto(1, len))
    {
      hide VarnumAt;
      len, remLen := 0, 0;
      err := BufferTooShort;
      ghost var start := net.pos;
      while err == BufferTooShort
        invariant TookInto(1, len) && len <= 5 && net.pos == start + len && Excused(Success)
        invariant err == Success || err == BufferTooShort
        invariant err == BufferTooShort ==> len <= 4 && (len == 0 || ParseVarnum(net.stream[start..net.pos]) == TooShort)
        invariant err == Success ==> ParseVarnum(net.stream[start..net.pos]) == Done(remLen, len)
        invariant commandTimer.remaining <= old(commandTimer.remaining)
        decreases err == BufferTooShort, 5 - len
      {
        len := len + 1;
        ghost var got;
        err, got := ReadFromNetwork(len, 1);
        if err != Success { return; }
        err, remLen := TryLength(start, len);
        if err == RemainingLengthOverflow { return err, len, 0; }
      }
    }

    /** The varnum of the `len` bytes read so far. */
    method TryLength(ghost start: nat, len: nat) returns (err: Err, remLen: nat)
      requires 0 < len < readBuf.Length && start + len <= |net.stream|
      requires forall i | 1 <= i < 1 + len :: readBuf[i] == net.stream[start + i - 1]
      requires len == 1 || ParseVarnum(net.stream[start..start + len - 1]) == TooShort
      ensures match ParseVarnum(net.stream[start..start + len])
              case TooShort => err == BufferTooShort && len <= 4
              case Overflow => err == RemainingLengthOverflow
              case Done(n, k) => err == Success && remLen == n && k == len
    {
      LengthSoFar(readBuf[..], net.stream, start, len);
      assert readBuf[..][1..1 + len] == readBuf[1..1 + len];
      var end: nat;
      err, end, remLen := ReadVarnum(readBuf, 1, 1 + len);
      if err == VarnumOverflow { return RemainingLengthOverflow, 0; }
    }

    lemma PacketRead(from: nat, len: nat, remLen: nat, to: nat)
      requires from + 1 + len + remLen == to <= |net.stream| && Receivable(PacketType(net.stream[from]))
      requires ParseVarnum(net.stream[from + 1..from + 1 + len]) == Done(remLen, len)
      ensures IsPacket(net.stream[from..to])
    {
      var f, s := net.stream[from..to], net.stream[from + 1..from + 1 + len];
      VarnumShortest(s);
      assert s[..len] == s == f[1..][..len];
      VarnumLocal(s, f[1..]);
    }

    /** What a successful read leaves behind, when a packet was taken from `from` on: the packet at
        the front of the buffer, or, when it is too long and dropping is enabled, the packet skipped
        and counted and the caller's count of bytes read set to zero. */
    twostate predicate TookPacket(from: nat, read: nat, read': nat, packetType: nat)
      requires from <= net.pos <= |net.stream|
      reads this, net, readBuf
    {
      var f := net.stream[from..net.pos];
      && IsPacket(f)
      && if |f| <= readBuf.Length then
           && f <= readBuf[..] && packetType == PacketType(f[0])
           && read' == read + |f| && overflowCounter == old(overflowCounter)
         else
           && dropOverflow && packetType == NO_PACKET && read' == 0
           && overflowCounter == Bump(old(overflowCounter))
    }

    /** Header and length field, `len` bytes, of a packet stand in the buffer. */
    ghost predicate HeaderRead(len: nat, remLen: nat)
      reads this, net, readBuf
    {
      && Shape() && 1 + len <= net.pos && 1 + len <= readBuf.Length
      && var from := net.pos - 1 - len;
      && (forall i | 0 <= i < 1 + len :: readBuf[i] == net.stream[from + i]) && Receivable(PacketType(readBuf[0]))
      && ParseVarnum(net.stream[from + 1..net.pos]) == Done(remLen, len)
    }

    method DropRest(len: nat, remLen: nat) returns (err: Err)
      requires HeaderRead(len, remLen) && dropOverflow && 1 + len + remLen > readBuf.Length
      modifies net`pos, net`faults, commandTimer`remaining, commandTimer`looks, readBuf, this`overflowCounter
      ensures commandTimer.remaining <= old(commandTimer.remaining)
      ensures Shape() && old(net.pos) <= net.pos && Excused(err)
      ensures err == Success ==> TookPacket(old(net.pos) - 1 - len, 0, 0, NO_PACKET)
      ensures err != Success ==> overflowCounter == old(overflowCounter) && Unreadable(Setting(), old(net.pos) - 1 - len, net.pos, err)
    {
      ghost var from, got := net.pos - 1 - len, 0;
      err, got := DrainNetwork(remLen);
      if err != Success { return; }
      PacketRead(from, len, remLen, net.pos);
      if overflowCounter.Some? {
        overflowCounter := Some((overflowCounter.value + 1) % U32);
      }
    }

    method LoadRest(read: nat, len: nat, remLen: nat) returns (err: Err, read': nat)
      requires HeaderRead(len, remLen) && (dropOverflow ==> 1 + len + remLen <= readBuf.Length)
      modifies net`pos, net`faults, commandTimer`remaining, commandTimer`looks, readBuf
      ensures commandTimer.remaining <= old(commandTimer.remaining)
      ensures Shape() && old(net.pos) <= net.pos && Excused(err)
      ensures err == Success ==> TookPacket(old(net.pos) - 1 - len, read, read', PacketType(old(readBuf[0])))
      ensures err != Success ==> Unreadable(Setting(), old(net.pos) - 1 - len, net.pos, err)
    {
      ghost var from := net.pos - 1 - len;
      err := LoadBody(len, remLen);
      read' := read;
      if err != Success { return; }
      PacketRead(from, len, remLen, net.pos);
      StandsInFront(readBuf[..], net.stream, from, net.pos);
      read' := read' + 1 + len + remLen;
    }

    /** The body comes to stand behind its header. */
    method LoadBody(len: nat, remLen: nat) returns (err: Err)
      requires HeaderRead(len, remLen)
      modifies net`pos, net`faults, commandTimer`remaining, commandTimer`looks, readBuf
      ensures commandTimer.remaining <= old(commandTimer.remaining)
      ensures Shape() && old(net.pos) <= net.pos && Excused(err)
      ensures err == Success ==>
        && net.pos == old(net.pos) + remLen && 1 + len + remLen <= readBuf.Length
        && forall i | 0 <= i < 1 + len + remLen :: readBuf[i] == net.stream[old(net.pos) - 1 - len + i]
      ensures err == BufferTooShort ==> 1 + len + remLen > readBuf.Length && net.pos == old(net.pos)
      ensures err == Success || err == BufferTooShort || err == NetworkTimeout || err == NetworkFailedRead
    {
      err := Success;
      if remLen > 0 {
        ghost var got;
        err, got := ReadFromNetwork(1 + len, remLen);
      }
    }

    static lemma StandsInFront(buf: seq<byte>, stream: seq<byte>, from: nat, to: nat)
      requires from <= to <= |stream| && to - from <= |buf| && forall i | 0 <= i < to - from :: buf[i] == stream[from + i]
      ensures stream[from..to] <= buf && (to > from ==> stream[from..to][0] == buf[0])
    {
      assert stream[from..to] == buf[..to - from];
    }

    /** Header byte and length field, or nothing when nothing arrives in time. */
    method ReadHeader() returns (err: Err, none: bool, len: nat, remLen: nat)
      requires Shape()
      modifies net`pos, net`faults, commandTimer`remaining, commandTimer`looks, readBuf
      ensures commandTimer.remaining <= old(commandTimer.remaining)
      ensures Shape() && old(net.pos) <= net.pos && Excused(err)
      ensures none ==> err == Success && net.pos == old(net.pos) && Waited()
      ensures err == Success && !none ==> HeaderRead(len, remLen) && net.pos == old(net.pos) + 1 + len
      ensures err != Success ==> Unreadable(Setting(), old(net.pos), net.pos, err)
    {
      hide ParseVarnum, Receivable;
      none, len, remLen := false, 0, 0;
      ghost var got;
      err, got := ReadFromNetwork(0, 1);
      if err == NetworkTimeout { return Success, true, 0, 0; }
      if err != Success { return; }
      var header := readBuf[0];
      if !Receivable(PacketType(header)) { return MissingOrWrongPacket, false, 0, 0; }
      err, len, remLen := ReadLength();
      assert err == Success ==> readBuf[0] == header;
    }

    /** What follows the header, into the buffer or nowhere. */
    method TakeRest(read: nat, len: nat, remLen: nat) returns (err: Err, read': nat, packetType: nat)
      requires HeaderRead(len, remLen)
      modifies net`pos, net`faults, commandTimer`remaining, commandTimer`looks, readBuf, this`overflowCounter
      ensures commandTimer.remaining <= old(commandTimer.remaining)
      ensures Shape() && old(net.pos) <= net.pos && Excused(err)
      ensures err == Success ==> TookPacket(old(net.pos) - 1 - len, read, read', packetType)
      ensures err != Success ==> overflowCounter == old(overflowCounter) && Unreadable(Setting(), old(net.pos) - 1 - len, net.pos, err)
    {
      packetType := PacketType(readBuf[0]);
      if dropOverflow && 1 + len + remLen > readBuf.Length {
        err := DropRest(len, remLen);
        packetType, read' := NO_PACKET, 0;
      } else {
        err, read' := LoadRest(read, len, remLen);
      }
    }

    /** One packet, however the network cuts it: on success exactly one packet was taken, or nothing came in
        time; an error says what kept the bytes from being a packet that the client takes. */
    method ReadPacketInBuffer(read: nat) returns (err: Err, read': nat, packetType: nat)
      requires Shape()
      modifies net`pos, net`faults, commandTimer`remaining, commandTimer`looks, readBuf, this`overflowCounter
      ensures commandTimer.remaining <= old(commandTimer.remaining)
      ensures Shape() && old(net.pos) <= net.pos && Excused(err)
      ensures err == Success && net.pos == old(net.pos) ==>
        packetType == NO_PACKET && read' == read && overflowCounter == old(overflowCounter) && Waited()
      ensures err == Success && net.pos > old(net.pos) ==> TookPacket(old(net.pos), read, read', packetType)
      ensures err != Success ==> overflowCounter == old(overflowCounter) && Unreadable(Setting(), old(net.pos), net.pos, err)
    {
      packetType, read' := NO_PACKET, read;
      var none, len, remLen;
      err, none, len, remLen := ReadHeader();
      if err != Success || none { return; }
      err, read', packetType := TakeRest(read, len, remLen);
    }

    /** Sends all of `data`, or a part of it and fails. */
    method WriteToNetwork(data: seq<byte>) returns (err: Err, ghost sent: nat)
      requires Shape()
      modifies net`output, net`faults, commandTimer`remaining, commandTimer`looks
      ensures commandTimer.remaining <= old(commandTimer.remaining)
      ensures sent <= |data| && net.output == old(net.output) + data[..sent] && Excused(err)
      ensures err == Success ==> sent == |data|
      ensures err == Success || err == NetworkTimeout || err == NetworkFailedWrite
    {
      var written := 0;
      sent := 0;
      while written < |data|
        invariant written == sent <= |data| && net.output == old(net.output) + data[..sent] && net.faults == old(net.faults)
        invariant commandTimer.remaining <= old(commandTimer.remaining)
        decreases commandTimer.remaining
      {
        var remaining := commandTimer.Get();
        if remaining <= 0 { return NetworkTimeout, sent; }
        var partial: nat;
        err, partial := net.Write(data[written..]);
        sent := sent + partial;
        assert data[..sent] == data[..written] + data[written..][..partial];
        if err != Success { return; }
        written := written + partial;
      }
      err := Success;
    }

    /** A packet that has gone out restarts the keep-alive interval. */
    method SendPacketInBuffer(len: nat) returns (err: Err, ghost sent: nat)
      requires Shape() && len <= writeBuf.Length
      modifies net`output, net`faults, commandTimer`remaining, commandTimer`looks, keepAliveTimer`remaining, keepAliveTimer`settings
      ensures commandTimer.remaining <= old(commandTimer.remaining)
      ensures sent <= len && net.output == old(net.output) + writeBuf[..sent] && Excused(err)
      ensures err == Success ==> sent == len
      ensures err == Success || err == NetworkTimeout || err == NetworkFailedWrite
      ensures keepAliveTimer.remaining == if err == Success then keepAliveInterval else old(keepAliveTimer.remaining)
    {
      err, sent := WriteToNetwork(writeBuf[..len]);
      assert writeBuf[..len][..sent] == writeBuf[..sent];
      if err != Success { return; }
      keepAliveTimer.Set(keepAliveInterval);
    }

    /** Enters a write, whole or broken off after `sent` bytes, in the history; a ping only when none is open. */
    ghost method RecordWrite(err: Err, wire: seq<byte>, sent: nat, output: seq<byte>)
      requires Shape() && Fold(log) == Summary(net.stream[..net.pos], output, pongPending, true, true, sessions)
      requires sent <= |wire| && (err == Success ==> sent == |wire|) && net.output == output + wire[..sent]
      requires IsPingReq(wire) ==> !pongPending
      modifies this`log
      ensures Shape() && log == old(log) + [if err == Success then Sent(wire) else Broken(wire[..sent])]
      ensures Fold(log) == Summary(net.stream[..net.pos], net.output, pongPending || (err == Success && IsPingReq(wire)),
                                   true, true, sessions)
    {
      if err == Success {
        assert wire[..sent] == wire;
        FoldSnoc(log, Sent(wire));
        log := log + [Sent(wire)];
      } else {
        FoldSnoc(log, Broken(wire[..sent]));
        log := log + [Broken(wire[..sent])];
      }
    }

    /** Sends the packet in the buffer, not a ping, and enters it in the history. */
    method SendFrame(len: nat, ghost wire: seq<byte>) returns (err: Err)
      requires Valid() && len <= writeBuf.Length && wire == writeBuf[..len] && !IsPingReq(wire)
      modifies net`output, net`faults, commandTimer`remaining, commandTimer`looks, keepAliveTimer`remaining, keepAliveTimer`settings
      modifies this`log
      ensures commandTimer.remaining <= old(commandTimer.remaining)
      ensures Valid() && Excused(err) && err.Common() && Wrote(wire, err)
      ensures err == Success || err == NetworkTimeout || err == NetworkFailedWrite
    {
      ghost var sent, output := 0, net.output;
      err, sent := SendPacketInBuffer(len);
      assert writeBuf[..len][..sent] == writeBuf[..sent];
      RecordWrite(err, wire, sent, output);
    }

    /** What a write of this packet makes of the history and of the keep-alive timer: on success all of it is
        noted as sent and the interval starts again.  It fails before anything goes out when it does not fit
        the buffer, and otherwise on the way. */
    twostate predicate Wrote(wire: seq<byte>, err: Err)
      reads this, keepAliveTimer
    {
      && keepAliveTimer.remaining == (if err == Success then keepAliveInterval else old(keepAliveTimer.remaining))
      && old(log) <= log && Went(wire, |wire| <= writeBuf.Length, err, log[|old(log)|..])
    }

    method SendAck(packetType: byte, packetId: nat) returns (err: Err)
      requires Valid() && packetType < 16 && packetType != PINGREQ && packetId < U16
      modifies net`output, net`faults, commandTimer`remaining, commandTimer`looks, keepAliveTimer`remaining, keepAliveTimer`settings
      modifies writeBuf, this`log
      ensures commandTimer.remaining <= old(commandTimer.remaining)
      ensures Valid() && Excused(err) && err.Common() && Wrote(Frame(AckHeader(packetType), Num(packetId)), err)
    {
      var len: nat;
      ghost var frame := Frame(AckHeader(packetType), Num(packetId));
      AckSize(packetType, packetId);
      err, len := EncodeAck(writeBuf, packetType, packetId);
      if err != Success { return; }
      assert writeBuf[..len] == frame;
      AckHeaderFields(packetType);
      assert frame[0] == AckHeader(packetType);
      err := SendFrame(len, frame);
    }

    static lemma AckSize(packetType: byte, packetId: nat)
      requires packetId < U16
      ensures |Frame(AckHeader(packetType), Num(packetId))| == 4
    {}

    /** What became of the packet in the buffer: it is answered and delivered when it can be decoded; the
        delivery comes first. */
    twostate predicate DealtWith(f: seq<byte>, err: Err)
      requires IsPacket(f)
      reads this, keepAliveTimer
    {
      && old(log) <= log && Dealt(Setting(), f, err, log[|old(log)|..])
      && delivered == old(delivered) + (if callback && Handled(f) then Delivery(f) else [])
      && keepAliveTimer.remaining
         == if err == Success && Handled(f) && Reply(f) != [] then keepAliveInterval else old(keepAliveTimer.remaining)
    }

    method HandlePublish(ghost f: seq<byte>) returns (err: Err)
      requires Valid() && IsPacket(f) && f <= readBuf[..] && PacketType(f[0]) == PUBLISH
      modifies net`output, net`faults, commandTimer`remaining, commandTimer`looks, keepAliveTimer`remaining, keepAliveTimer`settings
      modifies writeBuf, this`log, this`delivered
      ensures commandTimer.remaining <= old(commandTimer.remaining)
      ensures Valid() && Excused(err) && err.Common() && DealtWith(f, err)
    {
      hide Fold, MeansPublish, PublishError, FrameLen, FixedHeader;
      var p: Publish;
      PublishInBuffer(f, readBuf[..]);
      err, p := DecodePublish(readBuf);
      if err != Success { return; }
      if callback { delivered := delivered + [p]; }
      if p.msg.qos == 0 { return; }
      var ackType := if p.msg.qos == 1 then PUBACK else PUBREC;
      err := SendAck(ackType, p.packetId);
    }

    /** PUBREC is answered with PUBREL, PUBREL with PUBCOMP. */
    method HandleAck(ghost f: seq<byte>, packetType: byte, answer: byte) returns (err: Err)
      requires Valid() && IsPacket(f) && f <= readBuf[..] && PacketType(f[0]) == packetType
      requires (packetType == PUBREC && answer == PUBREL) || (packetType == PUBREL && answer == PUBCOMP)
      modifies net`output, net`faults, commandTimer`remaining, commandTimer`looks, keepAliveTimer`remaining, keepAliveTimer`settings
      modifies writeBuf, this`log
      ensures commandTimer.remaining <= old(commandTimer.remaining)
      ensures Valid() && Excused(err) && err.Common() && DealtWith(f, err)
    {
      hide Fold, FrameLen, FixedHeader, Num;
      var packetId: nat;
      AckInBuffer(f, readBuf[..], packetType);
      err, packetId := DecodeAck(readBuf, packetType);
      if err != Success { return; }
      err := SendAck(answer, packetId);
    }

    /** The switch over the packet type.  The history has taken note of the packet already: after a
        PINGRESP it says that no ping is open. */
    method Dispatch(ghost f: seq<byte>, packetType: nat) returns (err: Err)
      requires Shape() && IsPacket(f) && f <= readBuf[..] && packetType == PacketType(f[0])
      requires Fold(log) == Summary(net.stream[..net.pos], net.output, pongPending && !IsPingResp(f), true, true, sessions)
      modifies net`output, net`faults, commandTimer`remaining, commandTimer`looks, keepAliveTimer`remaining, keepAliveTimer`settings
      modifies writeBuf, this`log, this`delivered, this`pongPending
      ensures commandTimer.remaining <= old(commandTimer.remaining)
      ensures Valid() && Excused(err) && err.Common() && DealtWith(f, err)
    {
      err := Success;
      if packetType == PUBLISH {
        err := HandlePublish(f);
      } else if packetType == PUBREC {
        err := HandleAck(f, PUBREC, PUBREL);
      } else if packetType == PUBREL {
        err := HandleAck(f, PUBREL, PUBCOMP);
      } else if packetType == PINGRESP {
        pongPending := false;
      }
    }

    /** The note of bytes that were read and of what came of them. */
    static ghost function Note(f: seq<byte>, err: Err, packetType: nat): seq<Event> {
      if f == [] then [] else [if err != Success then Lost(f) else if packetType == NO_PACKET then Dropped(f) else Got(f)]
    }

    /** Reads a packet and enters what was read in the history. */
    method TakePacket(read: nat) returns (err: Err, read': nat, packetType: nat)
      requires Valid()
      modifies net`pos, net`faults, commandTimer`remaining, commandTimer`looks, readBuf, this`overflowCounter, this`log
      ensures commandTimer.remaining <= old(commandTimer.remaining)
      ensures Shape() && old(net.pos) <= net.pos && Excused(err) && err.Common()
      ensures var f := net.stream[old(net.pos)..net.pos];
        && Fold(log) == Summary(net.stream[..net.pos], net.output,
                                pongPending && !(err == Success && packetType != NO_PACKET && IsPingResp(f)), true, true, sessions)
        && log == old(log) + Note(f, err, packetType)
        && (err == Success && f == [] ==>
             packetType == NO_PACKET && read' == read && overflowCounter == old(overflowCounter) && Waited())
        && (err == Success && f != [] ==>
             TookPacket(old(net.pos), read, read', packetType) && (packetType == NO_PACKET <==> |f| > readBuf.Length))
      ensures err != Success ==> overflowCounter == old(overflowCounter) && Unreadable(Setting(), old(net.pos), net.pos, err)
    {
      hide Unreadable, Fold, FrameLen, Note;
      err, read', packetType := ReadPacketInBuffer(read);
      ghost var f := net.stream[old(net.pos)..net.pos];
      assert net.stream[..net.pos] == net.stream[..old(net.pos)] + f;
      ReadNoted(log, f, err, packetType);
      log := log + Note(f, err, packetType);
    }

    /** What the note of the bytes just read changes in the history's summary. */
    static lemma ReadNoted(log: seq<Event>, f: seq<byte>, err: Err, packetType: nat)
      requires err == Success && f != [] ==> IsPacket(f)
      ensures var s, packet := Fold(log), err == Success && packetType != NO_PACKET;
        Fold(log + Note(f, err, packetType))
        == s.(taken := s.taken + f, pingOpen := s.pingOpen && !(packet && IsPingResp(f)))
    {
      hide FrameLen, Receivable;
      if f == [] {
        assert log + [] == log && Fold(log).taken + [] == Fold(log).taken;
      } else {
        FoldSnoc(log, Note(f, err, packetType)[0]);
        assert log + [Note(f, err, packetType)[0]] == log + Note(f, err, packetType);
      }
    }

    /** A successful cycle that took the packet of `t`. */
    twostate predicate Cycled(t: Taken, read: nat, read': nat, packetType: nat)
      reads this, net, readBuf, keepAliveTimer
    {
      && Faithful(t, readBuf.Length) && Now() == AfterTaken(Setting(), old(Now()), t)
      && read' == (if t.fits then read + |t.frame| else 0)
      && keepAliveTimer.remaining == (if Replied(t) then keepAliveInterval else old(keepAliveTimer.remaining))
      && if t.fits then t.frame != [] && t.frame <= readBuf[..] && packetType == PacketType(t.frame[0]) != NO_PACKET
         else dropOverflow && packetType == NO_PACKET
    }

    /** A cycle that failed. */
    twostate predicate CycleStopped(stop: Stop, err: Err)
      reads this, net, keepAliveTimer
    {
      && StoppedAt(Setting(), stop, old(net.pos), net.pos, err) && Now() == AfterStop(Setting(), old(Now()), stop)
      && keepAliveTimer.remaining == old(keepAliveTimer.remaining)
    }

    /** One cycle: at most one packet is taken off the network; it is answered as Reply says, right
        away and before anything else is read, and a PUBLISH reaches the callback once.  None is taken only
        when none comes in time, and a failure has the cause that StoppedAt tells. */
    method CycleOnce(read: nat) returns (err: Err, read': nat, packetType: nat, ghost taken: Option<Taken>, ghost stop: Stop)
      requires Valid()
      modifies net, commandTimer`remaining, commandTimer`looks, keepAliveTimer`remaining, keepAliveTimer`settings
      modifies readBuf, writeBuf, this`overflowCounter, this`log, this`delivered, this`pongPending
      ensures commandTimer.remaining <= old(commandTimer.remaining)
      ensures Valid() && old(net.pos) <= net.pos && old(log) <= log && Excused(err) && err.Common()
      ensures err == Success && taken.None? ==>
        && net.pos == old(net.pos) && Now() == old(Now()) && packetType == NO_PACKET && read' == read && Waited()
        && keepAliveTimer.remaining == old(keepAliveTimer.remaining)
      ensures err == Success && taken.Some? ==>
        taken.value.frame == net.stream[old(net.pos)..net.pos] && Cycled(taken.value, read, read', packetType)
      ensures err != Success ==> CycleStopped(stop, err)
    {
      hide Fold, Unreadable, StoppedAt, Dealt, Faithful, Replied, Answered;
      taken, stop := None, Stop([], [], [], false);
      err, read', packetType := TakePacket(read);
      ghost var f := net.stream[old(net.pos)..net.pos];
      if err != Success {
        stop := Unread(f);
        UnreadStops(Setting(), f, old(net.pos), net.pos, err);
        return;
      }
      if packetType == NO_PACKET {
        if f != [] {
          taken := Some(Skip(f));
          SkipIsFaithful(f, readBuf.Length);
        }
        return;
      }
      ghost var dealt;
      err, dealt, stop := Deal(f, packetType, old(Now()));
      if err == Success { taken := Some(dealt); }
    }

    /** The part of a cycle that follows the reading of a packet. */
    method Deal(ghost f: seq<byte>, packetType: nat, ghost m: Moment) returns (err: Err, ghost taken: Taken, ghost stop: Stop)
      requires Shape() && IsPacket(f) && f <= readBuf[..] && packetType == PacketType(f[0])
      requires Fold(log) == Summary(net.stream[..net.pos], net.output, pongPending && !IsPingResp(f), true, true, sessions)
      requires m.pos + |f| == net.pos && f == net.stream[m.pos..net.pos]
      requires Now() == Moment(net.pos, m.history + [Got(f)], m.messages, m.counter)
      modifies net`output, net`faults, commandTimer`remaining, commandTimer`looks, keepAliveTimer`remaining, keepAliveTimer`settings
      modifies writeBuf, this`log, this`delivered, this`pongPending
      ensures commandTimer.remaining <= old(commandTimer.remaining)
      ensures Valid() && old(log) <= log && Excused(err) && err.Common()
      ensures err == Success ==>
        && taken.frame == f && taken.fits && Faithful(taken, readBuf.Length) && Now() == AfterTaken(Setting(), m, taken)
        && keepAliveTimer.remaining == (if Replied(taken) then keepAliveInterval else old(keepAliveTimer.remaining))
      ensures err != Success ==>
        && StoppedAt(Setting(), stop, m.pos, net.pos, err) && Now() == AfterStop(Setting(), m, stop)
        && keepAliveTimer.remaining == old(keepAliveTimer.remaining)
    {
      hide Fold, StoppedAt, Dealt, Faithful, Replied, Answered;
      err := Dispatch(f, packetType);
      ghost var more := log[|old(log)|..];
      Assoc(m.history, [Got(f)], more);
      taken, stop := Skip(f), Undone(f, more);
      if err == Success {
        DealtIsAnswered(Setting(), f, more);
        TakingIsFaithful(f, readBuf.Length);
        taken := Taking(f);
      } else {
        UndoneStops(Setting(), f, more, m.pos, net.pos, err);
      }
    }

    ghost function Now(): Moment
      reads this, net
    {
      Moment(net.pos, log, delivered, overflowCounter)
    }

    /** From the given moment on this run took place. */
    ghost predicate RanFrom(m: Moment, run: seq<Taken>)
      reads this, net
    {
      Ran(Setting(), m, Now(), run)
    }

    /** The packet went out first; what followed is a run. */
    ghost predicate SentThenRan(m: Moment, wire: seq<byte>, run: seq<Taken>)
      reads this, net
    {
      RanFrom(m.(history := m.history + [Sent(wire)]), run)
    }

    /** The packet that ends the run, of the given type, stands in the read buffer. */
    ghost predicate EndsWith(run: seq<Taken>, packetType: nat)
      reads readBuf
    {
      run != [] && var f := run[|run| - 1].frame; f != [] && f <= readBuf[..] && packetType == PacketType(f[0])
    }

    /** The keep-alive timer, which stood at `idle`, was set again just when an answer went out. */
    ghost predicate Ticks(idle: int, run: seq<Taken>)
      reads this`keepAliveInterval, keepAliveTimer
    {
      keepAliveTimer.remaining == if Silent(run) then idle else keepAliveInterval
    }

    /** A cycle within a run. */
    method CycleInRun(read: nat, ghost from: Moment, ghost idle: int, ghost run: seq<Taken>)
      returns (err: Err, read': nat, packetType: nat, ghost run': seq<Taken>, ghost stop: Stop)
      requires Valid() && RanFrom(from, run) && read == ReadCount(run) && Ticks(idle, run)
      modifies net, commandTimer`remaining, commandTimer`looks, keepAliveTimer`remaining, keepAliveTimer`settings
      modifies readBuf, writeBuf, this`overflowCounter, this`log, this`delivered, this`pongPending
      ensures commandTimer.remaining <= old(commandTimer.remaining)
      ensures Valid() && old(log) <= log && Excused(err) && err.Common() && Ticks(idle, run')
      ensures err == Success ==> RanFrom(from, run') && read' == ReadCount(run')
      ensures err == Success ==> if packetType != NO_PACKET then OneMore(run, run') && EndsWith(run', packetType)
                                 else (run' == run && Waited()) || (OneMore(run, run') && !run'[|run|].fits)
      ensures err == Success && run' != run && packetType != NO_PACKET ==>
        run'[|run|].frame != [] && PacketType(run'[|run|].frame[0]) == packetType
      ensures err != Success ==> run' == run && RanThenStopped(Setting(), from, Now(), run, stop, err)
    {
      hide Fold, Unreadable, Dealt, Faithful, AfterRun, FrameLen, IsPacket, StoppedAt, WithinBudget;
      run' := run;
      ghost var taken;
      err, read', packetType, taken, stop := CycleOnce(read);
      if err == Success && taken.Some? {
        ghost var t := taken.value;
        AfterOneMore(Setting(), from, run, t);
        FramesGrow(net.stream, from.pos, old(net.pos), net.pos, run, t);
        RunSnoc(run, t);
        FaithfulSnoc(run, t, readBuf.Length);
        run' := run + [t];
        assert Silent(run') <==> Silent(run) && !Replied(t);
      }
    }

    /** Cycles until the awaited packet, one packet when nothing in particular is awaited, `available`
        bytes, or the end of the time. */
    method CycleUntil(available: nat, needle: nat) returns (err: Err, packetType: nat, ghost run: seq<Taken>, ghost stop: Stop)
      requires Valid()
      modifies net, commandTimer`remaining, commandTimer`looks, keepAliveTimer`remaining, keepAliveTimer`settings
      modifies readBuf, writeBuf, this`overflowCounter, this`log, this`delivered, this`pongPending
      ensures Valid() && old(log) <= log && Excused(err) && err.Common()
      ensures Ticks(old(keepAliveTimer.remaining), run)
      ensures err == Success ==> RanFrom(old(Now()), run) && Over(available, needle, packetType, run)
      ensures err != Success ==> RanThenStopped(Setting(), old(Now()), Now(), run, stop, err) && Absent(run, needle)
      ensures err == Success && packetType != NO_PACKET ==> EndsWith(run, packetType)
      ensures err == Success && (run == [] || (packetType == NO_PACKET && run[|run| - 1].fits)) ==> Waited()
      ensures err == Success && needle == NO_PACKET && available == 0 ==> |run| <= 1
      ensures err == Success && available > 0 ==> WithinBudget(run, available)
    {
      hide Fold, Ran, RanThenStopped, EndsWith, Absent;
      var read := 0;
      run := [];
      NoRun(Setting(), Now());
      NoneAbsent(needle);
      while true
        invariant Valid() && old(log) <= log && read == ReadCount(run) && Excused(Success)
        invariant RanFrom(old(Now()), run) && Ticks(old(keepAliveTimer.remaining), run)
        invariant Absent(run, needle)
        invariant available > 0 ==> read < available && WithinBudget(run, available)
        invariant needle == NO_PACKET && available == 0 ==> run == []
        decreases if commandTimer.remaining > 0 then commandTimer.remaining else 0
      {
        ghost var run0 := run;
        err, read, packetType, run, stop := CycleInRun(read, old(Now()), old(keepAliveTimer.remaining), run0);
        if err != Success { return; }
        if run != run0 && packetType != needle { AbsentStays(run0, run, needle); }
        if needle == NO_PACKET && available == 0 { return; }
        if packetType == needle { return; }
        var t := commandTimer.Get();
        if !(t > 0 && (available == 0 || read < available)) { return; }
      }
    }

    /** Why the cycles are over, all of them having succeeded: the awaited packet has come, as the last of the
        run and not before, or it is not in the run and one cycle was enough, the time is over, or all bytes
        that were announced have been counted. */
    ghost predicate Over(available: nat, needle: nat, packetType: nat, run: seq<Taken>)
      reads commandTimer
    {
      if packetType == needle then
        needle != NO_PACKET ==> run != [] && Absent(run[..|run| - 1], needle)
      else
        && (needle != NO_PACKET ==> Absent(run, needle))
        && ((needle == NO_PACKET && available == 0) || commandTimer.remaining <= 0 || (available > 0 && ReadCount(run) >= available))
    }

    /** What waiting for a packet of this type has led to: the time is over, or the packet that ends the run is
        of that type and stands in the buffer. */
    ghost predicate Waiting(needle: nat, run: seq<Taken>, how: Ending)
      reads readBuf, commandTimer
    {
      (how.Missed? ==> commandTimer.remaining <= 0) && (how.Came? ==> EndsWith(run, needle))
    }

    /** Waits for a packet of the given type, answering whatever comes before it. */
    method Await(needle: nat) returns (err: Err, ghost run: seq<Taken>, ghost how: Ending)
      requires Valid()
      modifies net, commandTimer`remaining, commandTimer`looks, keepAliveTimer`remaining, keepAliveTimer`settings
      modifies readBuf, writeBuf, this`overflowCounter, this`log, this`delivered, this`pongPending
      ensures Valid() && old(log) <= log && Excused(err) && err.Common() && Ticks(old(keepAliveTimer.remaining), run)
      ensures needle != NO_PACKET ==> Awaited(Setting(), old(Now()), Now(), needle, err, run, how) && Waiting(needle, run, how)
      ensures (err == Success <==> how.Came?) && !how.Unsent?
      ensures err == Success ==> RanFrom(old(Now()), run)
    {
      hide Fold, Ran, RanThenStopped, EndsWith, Absent;
      var packetType: nat;
      ghost var stop;
      err, packetType, run, stop := CycleUntil(0, needle);
      how := Stopped(stop);
      if err != Success { return; }
      how := Missed;
      if packetType != needle { return MissingOrWrongPacket, run, how; }
      how := Came;
    }

    /** Waits for an acknowledgement and decodes it; its packet id is not compared with anything. */
    method AwaitAck(packetType: nat) returns (err: Err, ghost run: seq<Taken>, ghost how: Ending)
      requires Valid()
      modifies net, commandTimer`remaining, commandTimer`looks, keepAliveTimer`remaining, keepAliveTimer`settings
      modifies readBuf, writeBuf, this`overflowCounter, this`log, this`delivered, this`pongPending
      ensures Valid() && old(log) <= log && Excused(err) && err.Common() && Ticks(old(keepAliveTimer.remaining), run)
      ensures packetType != NO_PACKET ==>
        Awaited(Setting(), old(Now()), Now(), packetType, err, run, how) && Waiting(packetType, run, how)
      ensures !how.Unsent? && (how.Came? ==> err == AckError(readBuf[..], packetType))
      ensures err == Success ==> RanFrom(old(Now()), run) && how.Came?
    {
      hide Fold, Ran, RanThenStopped, EndsWith, Absent, Awaited;
      err, run, how := Await(packetType);
      if err != Success { return; }
      var packetId: nat;
      err, packetId := DecodeAck(readBuf, packetType);
      if packetType != NO_PACKET { CameAnyway(Setting(), old(Now()), Now(), packetType, Success, err, run); }
    }

    /** The packet in the buffer and the payload behind it, all of it or a part and a failure. */
    method SendWithPayload(len: nat, payload: seq<byte>) returns (err: Err, ghost sent: nat)
      requires Shape() && len <= writeBuf.Length
      modifies net`output, net`faults, commandTimer`remaining, commandTimer`looks, keepAliveTimer`remaining, keepAliveTimer`settings
      ensures sent <= len + |payload| && net.output == old(net.output) + (writeBuf[..len] + payload)[..sent] && Excused(err)
      ensures err == Success ==> sent == len + |payload|
      ensures err == Success || err == NetworkTimeout || err == NetworkFailedWrite
      ensures keepAliveTimer.remaining == keepAliveInterval ||
              (err != Success && sent <= len && keepAliveTimer.remaining == old(keepAliveTimer.remaining))
    {
      ghost var head := writeBuf[..len];
      err, sent := SendPacketInBuffer(len);
      assert (head + payload)[..sent] == writeBuf[..sent];
      if err == Success && |payload| > 0 {
        ghost var more;
        err, more := WriteToNetwork(payload);
        sent := len + more;
        PartOfBoth(head, payload, more);
        Assoc(old(net.output), head, payload[..more]);
      }
    }

    static lemma PartOfBoth(head: seq<byte>, payload: seq<byte>, more: nat)
      requires more <= |payload|
      ensures (head + payload)[..|head| + more] == head + payload[..more]
    {}

    /** A failure is that of the encoder, before anything goes out, or comes on the way. */
    method SendPublish(dup: bool, packetId: nat, topic: seq<byte>, msg: Message) returns (err: Err, ghost wire: seq<byte>)
      requires Valid() && packetId < U16 && |topic| < U16 && |topic| + |msg.payload| + 4 < U32
      modifies net`output, net`faults, commandTimer`remaining, commandTimer`looks, keepAliveTimer`remaining, keepAliveTimer`settings
      modifies writeBuf, this`log
      ensures Valid() && old(log) <= log && Excused(err) && err.Common()
      ensures wire == PublishHead(dup, packetId, topic, msg) + msg.payload
      ensures PublishWent(dup, packetId, topic, msg, err, log[|old(log)|..])
      ensures err == Success ==> log == old(log) + [Sent(wire)] && (msg.qos <= 2 ==> Carries(wire, dup, packetId, topic, msg))
      ensures err == Success ==> keepAliveTimer.remaining == keepAliveInterval
      ensures err != Success ==>
        keepAliveTimer.remaining == keepAliveInterval || keepAliveTimer.remaining == old(keepAliveTimer.remaining)
    {
      hide Fold, PublishHead, PublishRem, VarnumLength, Carries, IsPingReq;
      var len: nat;
      ghost var sent, output := 0, net.output;
      wire := PublishHead(dup, packetId, topic, msg) + msg.payload;
      err, len := EncodePublish(writeBuf, dup, packetId, topic, msg);
      if err != Success { return; }
      if msg.qos <= 2 { PublishWireIsPacket(dup, packetId, topic, msg, wire); }
      NeverAPing(dup, packetId, topic, msg);
      assert writeBuf[..len] + msg.payload == wire;
      err, sent := SendWithPayload(len, msg.payload);
      RecordWrite(err, wire, sent, output);
    }

    static lemma NeverAPing(dup: bool, packetId: nat, topic: seq<byte>, msg: Message)
      requires packetId < U16 && |topic| < U16
      ensures !IsPingReq(PublishHead(dup, packetId, topic, msg) + msg.payload)
    {
      PublishNeverPings(dup, msg.qos, msg.retained);
      assert (PublishHead(dup, packetId, topic, msg) + msg.payload)[0] == PublishHeader(dup, msg.qos, msg.retained);
    }

    /** What the history says of a PUBLISH to be sent. */
    ghost predicate PublishWent(dup: bool, packetId: nat, topic: seq<byte>, msg: Message, err: Err, events: seq<Event>)
      requires packetId < U16 && |topic| < U16
    {
      var head := PublishHead(dup, packetId, topic, msg);
      if VarnumLength(PublishRem(topic, msg)).0 != Success then err == RemainingLengthOverflow && events == []
      else Went(head + msg.payload, |head| <= writeBuf.Length, err, events)
    }

    /** The packet id of a message at QoS 1 or 2: the caller's when there is one, or else the next one. */
    method ChooseId(dupId: Option<nat>, qos: byte) returns (dup: bool, id: nat)
      requires Shape() && (dupId.Some? ==> dupId.value < U16)
      modifies this`lastPacketId
      ensures Shape() && id < U16 && (NeedsId(qos) ==> id > 0)
      ensures dup == (NeedsId(qos) && dupId.Some? && dupId.value > 0)
      ensures id == if !NeedsId(qos) then 0 else if dup then dupId.value else lastPacketId
      ensures lastPacketId == if NeedsId(qos) && !dup then (if old(lastPacketId) == 65535 then 1 else old(lastPacketId) + 1)
                              else old(lastPacketId)
    {
      dup, id := false, 0;
      if qos == 1 || qos == 2 {
        if dupId.Some? && dupId.value > 0 {
          dup, id := true, dupId.value;
        } else {
          id := NextPacketId();
        }
      }
    }

    /** The acknowledgement that came for a message of level 1 or 2, in the buffer, decides. */
    ghost predicate Acknowledged(qos: byte, skipAck: bool, err: Err, run: seq<Taken>, how: Ending)
      reads readBuf, commandTimer
    {
      NeedsId(qos) && !skipAck ==>
        var t := if qos == 1 then 4 else 7;
        Waiting(t, run, how) && (how.Came? ==> err == AckError(readBuf[..], t))
    }

    method PublishAs(dup: bool, id: nat, skipAck: bool, topic: seq<byte>, msg: Message)
      returns (err: Err, ghost wire: seq<byte>, ghost run: seq<Taken>, ghost how: Ending)
      requires Valid() && id < U16 && |topic| < U16 && |topic| + |msg.payload| + 4 < U32
      modifies net, commandTimer`remaining, commandTimer`looks, keepAliveTimer`remaining, keepAliveTimer`settings
      modifies readBuf, writeBuf, this`overflowCounter, this`log, this`delivered, this`pongPending
      ensures Valid() && old(log) <= log && Excused(err) && err.Common() && wire == PublishHead(dup, id, topic, msg) + msg.payload
      ensures Published(Setting(), old(Now()), Now(), dup, id, skipAck, topic, msg, err, run, how)
      ensures Acknowledged(msg.qos, skipAck, err, run, how)
      ensures err == Success ==> SentThenRan(old(Now()), wire, run) && !how.Unsent?
      ensures err == Success && msg.qos <= 2 ==> Carries(wire, dup, id, topic, msg)
      ensures !how.Unsent? ==> keepAliveTimer.remaining == keepAliveInterval
    {
      hide Fold, Ran, RanThenStopped, EndsWith, Absent, Awaited, Carries, PublishRem, VarnumLength, PublishHead;
      run, how := [], Came;
      err, wire := SendPublish(dup, id, topic, msg);
      if err != Success {
        how := Unsent(log[|old(log)|..]);
        return;
      }
      ghost var sent := old(Now()).(history := old(log) + [Sent(wire)]);
      assert Now() == sent;
      if msg.qos == 0 || skipAck {
        NoRun(Setting(), sent);
        return;
      }
      err, run, how := AwaitAck(AckType(msg.qos));
    }

    /** `dupId` is the caller's cell for the packet id, if there is one: zero asks for a fresh id and
        receives it, another id is used again and the message flagged as a duplicate. */
    method Publish(dupId: Option<nat>, skipAck: bool, topic: seq<byte>, msg: Message, timeout: nat)
      returns (err: Err, dupId': Option<nat>, ghost dup: bool, ghost packetId: nat, ghost wire: seq<byte>,
               ghost run: seq<Taken>, ghost how: Ending)
      requires Valid() && |topic| < U16 && |topic| + |msg.payload| + 4 < U32
      requires dupId.Some? ==> dupId.value < U16
      modifies net, commandTimer, keepAliveTimer`remaining, keepAliveTimer`settings
      modifies readBuf, writeBuf, this`overflowCounter, this`log, this`delivered, this`pongPending, this`lastPacketId
      ensures Valid() && old(log) <= log && Excused(err) && err.Common() && commandTimer.settings == old(commandTimer.settings) + [timeout]
      ensures dup == (NeedsId(msg.qos) && dupId.Some? && dupId.value > 0)
      ensures lastPacketId == if NeedsId(msg.qos) && !dup then (if old(lastPacketId) == 65535 then 1 else old(lastPacketId) + 1)
                              else old(lastPacketId)
      ensures packetId == if !NeedsId(msg.qos) then 0 else if dup then dupId.value else lastPacketId
      ensures packetId < U16 && (NeedsId(msg.qos) ==> packetId > 0) && wire == PublishHead(dup, packetId, topic, msg) + msg.payload
      ensures dupId' == if NeedsId(msg.qos) && dupId.Some? then Some(packetId) else dupId
      ensures Published(Setting(), old(Now()), Now(), dup, packetId, skipAck, topic, msg, err, run, how)
      ensures Acknowledged(msg.qos, skipAck, err, run, how)
      ensures err == Success ==> SentThenRan(old(Now()), wire, run) && !how.Unsent?
      ensures err == Success && msg.qos <= 2 ==> Carries(wire, dup, packetId, topic, msg)
      ensures !how.Unsent? ==> keepAliveTimer.remaining == keepAliveInterval
    {
      commandTimer.Set(timeout);
      hide Fold, Ran, RanThenStopped, EndsWith, Absent, Awaited, Carries, Exchanged, Published, PublishHead;
      dup, packetId, wire, run := false, 0, [], [];
      var again, id := ChooseId(dupId, msg.qos);
      dup, packetId := again, id;
      dupId' := if NeedsId(msg.qos) && dupId.Some? then Some(id) else dupId;
      err, wire, run, how := PublishAs(again, id, skipAck, topic, msg);
    }

    method SendConnect(options: ConnectOptions, will: Option<Will>) returns (err: Err)
      requires Valid() && options.Short() && (will.Some? ==> will.value.Short())
      modifies net`output, net`faults, commandTimer`remaining, commandTimer`looks, keepAliveTimer`remaining, keepAliveTimer`settings
      modifies writeBuf, this`log
      ensures Valid() && Excused(err) && err.Common() && Wrote(ConnectWire(options, will), err)
    {
      var len: nat;
      ghost var wire := ConnectWire(options, will);
      err, len := EncodeConnect(writeBuf, options, will);
      if err != Success { return; }
      assert writeBuf[..len] == wire;
      assert !IsPingReq(wire) by {
        TypeField(CONNECT);
        assert wire[0] == WriteBits(0, CONNECT, 4, 4);
      }
      err := SendFrame(len, wire);
    }

    /** What a CONNACK, packet type 2, in the buffer makes of a connect; without one both answers are "none"
        and "unknown". */
    ghost predicate Connacked(err: Err, sessionPresent: bool, returnCode: nat, how: Ending)
      reads readBuf
    {
      if how.Came? && ConnackError(readBuf[..]) == Success then
        ConnackSays(readBuf[..], sessionPresent, returnCode) && err == if returnCode == 0 then Success else ConnectionDenied
      else
        !sessionPresent && returnCode == 6 && (how.Came? ==> err == ConnackError(readBuf[..]))
    }

    /** Success means that the server accepted. */
    method Connect(options: ConnectOptions, will: Option<Will>, timeout: nat)
      returns (err: Err, sessionPresent: bool, returnCode: nat, ghost run: seq<Taken>, ghost how: Ending)
      requires Valid() && options.Short() && (will.Some? ==> will.value.Short())
      modifies net, commandTimer, keepAliveTimer`remaining, keepAliveTimer`settings, readBuf, writeBuf
      modifies this`overflowCounter, this`log, this`delivered, this`pongPending, this`keepAliveInterval, this`sessions
      ensures Valid() && old(log) + [Reset] <= log && Excused(err) && (err.Common() || err == ConnectionDenied)
      ensures commandTimer.settings == old(commandTimer.settings) + [timeout]
      ensures sessions == old(sessions) + 1 && keepAliveTimer.remaining == keepAliveInterval == options.keepAlive * 1000
      ensures Connected(Setting(), old(Now()), Now(), options, will, err, run, how) && Waiting(2, run, how)
      ensures Connacked(err, sessionPresent, returnCode, how) && (err == Success <==> returnCode == 0)
      ensures err == Success ==>
        SentThenRan(old(Now()).(history := old(log) + [Reset]), ConnectWire(options, will), run)
    {
      hide Fold, Ran, RanThenStopped, EndsWith, Absent, Awaited, ConnackSays, ConnackError, ConnectWire;
      commandTimer.Set(timeout);
      sessionPresent, returnCode, run, how := false, 6, [], Came;
      err := BeginSession(options, will);
      if err != Success {
        how := Unsent(log[|old(log)| + 1..]);
        return;
      }
      assert Now() == old(Now()).(history := old(log) + [Reset] + [Sent(ConnectWire(options, will))]);
      err, sessionPresent, returnCode, run, how := AwaitConnack();
    }

    /** Everything up to the CONNECT packet. */
    method BeginSession(options: ConnectOptions, will: Option<Will>) returns (err: Err)
      requires Valid() && options.Short() && (will.Some? ==> will.value.Short())
      modifies net`output, net`faults, commandTimer`remaining, commandTimer`looks, keepAliveTimer`remaining, keepAliveTimer`settings
      modifies writeBuf, this`log, this`pongPending, this`keepAliveInterval, this`sessions
      ensures Valid() && old(log) + [Reset] <= log && sessions == old(sessions) + 1 && Excused(err) && err.Common()
      ensures keepAliveTimer.remaining == keepAliveInterval == options.keepAlive * 1000
      ensures var wire := ConnectWire(options, will); Went(wire, |wire| <= writeBuf.Length, err, log[|old(log)| + 1..])
    {
      OpenSession(options.keepAlive);
      err := SendConnect(options, will);
    }

    method AwaitConnack() returns (err: Err, sessionPresent: bool, returnCode: nat, ghost run: seq<Taken>, ghost how: Ending)
      requires Valid()
      modifies net, commandTimer`remaining, commandTimer`looks, keepAliveTimer`remaining, keepAliveTimer`settings
      modifies readBuf, writeBuf, this`overflowCounter, this`log, this`delivered, this`pongPending
      ensures Valid() && old(log) <= log && Excused(err) && (err.Common() || err == ConnectionDenied)
      ensures Ticks(old(keepAliveTimer.remaining), run)
      ensures Awaited(Setting(), old(Now()), Now(), 2, err, run, how) && Waiting(2, run, how)
      ensures !how.Unsent? && (err == Success ==> RanFrom(old(Now()), run))
      ensures Connacked(err, sessionPresent, returnCode, how)
      ensures err == Success <==> returnCode == 0
    {
      hide Fold, Ran, RanThenStopped, EndsWith, Absent, Awaited;
      sessionPresent, returnCode := false, 6;
      err, run, how := Await(CONNACK);
      if err != Success { return; }
      err, sessionPresent, returnCode := DecodeConnack(readBuf);
      CameAnyway(Setting(), old(Now()), Now(), CONNACK, Success, err, run);
      CameAnyway(Setting(), old(Now()), Now(), CONNACK, Success, ConnectionDenied, run);
      if err != Success { return; }
      if returnCode != 0 { err := ConnectionDenied; }
    }

    /** A ping of an earlier connection is forgotten before anything is sent. */
    method OpenSession(keepAlive: nat)
      requires Valid()
      modifies keepAliveTimer`remaining, keepAliveTimer`settings, this`keepAliveInterval, this`sessions, this`pongPending, this`log
      ensures Valid() && log == old(log) + [Reset] && sessions == old(sessions) + 1 && !pongPending
      ensures keepAliveTimer.remaining == keepAliveInterval == keepAlive * 1000
    {
      keepAliveInterval := keepAlive * 1000;
      keepAliveTimer.Set(keepAliveInterval);
      pongPending := false;
      FoldSnoc(log, Reset);
      log, sessions := log + [Reset], sessions + 1;
    }

    /** What the history says of a list of filters to be sent, which may be too long for any packet. */
    ghost predicate FiltersWent(packetType: byte, id: nat, filters: seq<Filter>, err: Err, events: seq<Event>)
      requires id < U16 && ShortTopics(filters)
    {
      var wire, problem := Frame(SubscribeHeader(packetType), FiltersBody(id, filters)), FiltersError(id, filters, writeBuf.Length);
      if problem == RemainingLengthOverflow then err == RemainingLengthOverflow && events == []
      else Went(wire, problem == Success, err, events)
    }

    method SendSubscribe(filters: seq<Filter>) returns (err: Err)
      requires Valid() && ShortTopics(filters) && forall f | f in filters :: f.qos.Some?
      modifies net`output, net`faults, commandTimer`remaining, commandTimer`looks, keepAliveTimer`remaining, keepAliveTimer`settings
      modifies writeBuf, this`log, this`lastPacketId
      ensures Valid() && old(log) <= log && Excused(err) && err.Common()
      ensures lastPacketId == if old(lastPacketId) == 65535 then 1 else old(lastPacketId) + 1
      ensures FiltersWent(SUBSCRIBE, lastPacketId, filters, err, log[|old(log)|..])
      ensures keepAliveTimer.remaining == if err == Success then keepAliveInterval else old(keepAliveTimer.remaining)
    {
      var id := NextPacketId();
      var len: nat;
      err, len := EncodeSubscribe(writeBuf, id, filters);
      if err != Success { return; }
      ghost var header, body := SubscribeHeader(SUBSCRIBE), FiltersBody(id, filters);
      SubscribeHeaderFields(SUBSCRIBE);
      assert writeBuf[..len] == Frame(header, body) && Frame(header, body)[0] == header;
      err := SendFrame(len, Frame(header, body));
    }

    /** Success means a QoS level for every code.  With one code more than `count` the decoder stores past the
        array of `count` cells; the loop finds that code there again. */
    method CheckSuback(count: nat) returns (err: Err, past: Option<byte>)
      ensures past.Some? <==> SubackStored(readBuf[..], count) > count
      ensures err == SubackOutcome(readBuf[..], count)
    {
      var granted := new byte[count];
      var packetId, n;
      err, packetId, n, past := DecodeSuback(readBuf, count, granted);
      if err != Success { return; }
      ghost var Good(start, rem) := FixedHeader(readBuf[..], SUBACK);
      for i := 0 to n
        invariant err == Success && forall k | start + 2 <= k < start + 2 + i :: readBuf[k] <= 2
      {
        var level := if i < count then granted[i] else past.value;
        assert level == GrantedQoS(readBuf[start + 2 + i]);
        if level == QOS_FAILURE { return FailedSubscription, past; }
      }
    }

    method AwaitSuback(count: nat) returns (err: Err, ghost run: seq<Taken>, past: Option<byte>, ghost how: Ending)
      requires Valid()
      modifies net, commandTimer`remaining, commandTimer`looks, keepAliveTimer`remaining, keepAliveTimer`settings
      modifies readBuf, writeBuf, this`overflowCounter, this`log, this`delivered, this`pongPending
      ensures Valid() && old(log) <= log && Excused(err) && Ticks(old(keepAliveTimer.remaining), run)
      ensures Awaited(Setting(), old(Now()), Now(), 9, err, run, how) && Waiting(9, run, how) && !how.Unsent?
      ensures how.Came? ==> err == SubackOutcome(readBuf[..], count)
      ensures past.Some? <==> how.Came? && SubackStored(readBuf[..], count) > count
      ensures (!how.Came? ==> err.Common()) && err != PongTimeout
      ensures err == Success ==> how.Came? && AllGranted(readBuf[..])
    {
      hide Fold, Ran, RanThenStopped, EndsWith, Absent, Awaited, SubackStored, AllGranted, SubackError;
      past := None;
      err, run, how := Await(SUBACK);
      if err != Success { return; }
      ghost var codes := readBuf[..];
      err, past := CheckSuback(count);
      OutcomeMeans(codes, count);
      CameAnyway(Setting(), old(Now()), Now(), SUBACK, Success, err, run);
    }

    static lemma OutcomeMeans(s: seq<byte>, count: nat)
      ensures SubackOutcome(s, count) == Success ==> AllGranted(s)
      ensures !SubackOutcome(s, count).FromNetwork() && SubackOutcome(s, count) != PongTimeout
    {}

    /** `past` tells of the store past the array of granted levels: it happens exactly when a SUBACK, packet
        type 9, came and holds more codes than there are filters. */
    method Subscribe(filters: seq<Filter>, timeout: nat)
      returns (err: Err, ghost run: seq<Taken>, past: Option<byte>, ghost how: Ending)
      requires Valid() && ShortTopics(filters) && forall f | f in filters :: f.qos.Some?
      modifies net, commandTimer, keepAliveTimer`remaining, keepAliveTimer`settings
      modifies readBuf, writeBuf, this`overflowCounter, this`log, this`delivered, this`pongPending, this`lastPacketId
      ensures Valid() && old(log) <= log && Excused(err) && commandTimer.settings == old(commandTimer.settings) + [timeout]
      ensures lastPacketId == if old(lastPacketId) == 65535 then 1 else old(lastPacketId) + 1
      ensures FiltersExchanged(Setting(), old(Now()), Now(), SUBSCRIBE, lastPacketId, filters, 9, err, run, how) && Waiting(9, run, how)
      ensures how.Came? ==> err == SubackOutcome(readBuf[..], |filters|)
      ensures past.Some? <==> how.Came? && SubackStored(readBuf[..], |filters|) > |filters|
      ensures (!how.Came? ==> err.Common()) && err != PongTimeout
      ensures err == Success ==> how.Came? && AllGranted(readBuf[..])
      ensures keepAliveTimer.remaining == if how.Unsent? then old(keepAliveTimer.remaining) else keepAliveInterval
    {
      hide Fold, Ran, RanThenStopped, EndsWith, Absent, Awaited, SubackOutcome, FiltersError, SubackStored, AllGranted;
      commandTimer.Set(timeout);
      run, past := [], None;
      err := SendSubscribe(filters);
      how := Unsent(log[|old(log)|..]);
      if err != Success { return; }
      assert Now() == old(Now()).(history := old(log) + [Sent(Frame(SubscribeHeader(SUBSCRIBE), FiltersBody(lastPacketId, filters)))]);
      err, run, past, how := AwaitSuback(|filters|);
    }

    method SendUnsubscribe(filters: seq<Filter>) returns (err: Err)
      requires Valid() && ShortTopics(filters) && forall f | f in filters :: f.qos.None?
      modifies net`output, net`faults, commandTimer`remaining, commandTimer`looks, keepAliveTimer`remaining, keepAliveTimer`settings
      modifies writeBuf, this`log, this`lastPacketId
      ensures Valid() && old(log) <= log && Excused(err) && err.Common()
      ensures lastPacketId == if old(lastPacketId) == 65535 then 1 else old(lastPacketId) + 1
      ensures FiltersWent(UNSUBSCRIBE, lastPacketId, filters, err, log[|old(log)|..])
      ensures keepAliveTimer.remaining == if err == Success then keepAliveInterval else old(keepAliveTimer.remaining)
    {
      var id := NextPacketId();
      var len: nat;
      err, len := EncodeUnsubscribe(writeBuf, id, filters);
      if err != Success { return; }
      ghost var header, body := SubscribeHeader(UNSUBSCRIBE), FiltersBody(id, filters);
      SubscribeHeaderFields(UNSUBSCRIBE);
      assert writeBuf[..len] == Frame(header, body) && Frame(header, body)[0] == header;
      err := SendFrame(len, Frame(header, body));
    }

    /** The answer is an UNSUBACK, packet type 11. */
    method Unsubscribe(filters: seq<Filter>, timeout: nat) returns (err: Err, ghost run: seq<Taken>, ghost how: Ending)
      requires Valid() && ShortTopics(filters) && forall f | f in filters :: f.qos.None?
      modifies net, commandTimer, keepAliveTimer`remaining, keepAliveTimer`settings
      modifies readBuf, writeBuf, this`overflowCounter, this`log, this`delivered, this`pongPending, this`lastPacketId
      ensures Valid() && old(log) <= log && Excused(err) && err.Common() && commandTimer.settings == old(commandTimer.settings) + [timeout]
      ensures lastPacketId == if old(lastPacketId) == 65535 then 1 else old(lastPacketId) + 1
      ensures FiltersExchanged(Setting(), old(Now()), Now(), UNSUBSCRIBE, lastPacketId, filters, 11, err, run, how) && Waiting(11, run, how)
      ensures how.Came? ==> err == AckError(readBuf[..], 11)
      ensures err == Success ==> how.Came?
      ensures keepAliveTimer.remaining == if how.Unsent? then old(keepAliveTimer.remaining) else keepAliveInterval
    {
      hide Fold, Ran, RanThenStopped, EndsWith, Absent, Awaited, FiltersError, Frame, FiltersBody, SubscribeHeader;
      commandTimer.Set(timeout);
      run := [];
      err := SendUnsubscribe(filters);
      how := Unsent(log[|old(log)|..]);
      if err != Success { return; }
      assert Now() == old(Now()).(history := old(log) + [Sent(Frame(SubscribeHeader(UNSUBSCRIBE), FiltersBody(lastPacketId, filters)))]);
      err, run, how := AwaitAck(UNSUBACK);
    }

    /** Two bytes go out, and nothing is waited for. */
    method Disconnect(timeout: nat) returns (err: Err)
      requires Valid()
      modifies net`output, net`faults, commandTimer, keepAliveTimer`remaining, keepAliveTimer`settings, writeBuf, this`log
      ensures Valid() && Excused(err) && err.Common() && Wrote([0xE0, 0], err)
      ensures commandTimer.settings == old(commandTimer.settings) + [timeout]
    {
      commandTimer.Set(timeout);
      EmptyFrame(DISCONNECT);
      var len: nat;
      err, len := EncodeZero(writeBuf, DISCONNECT);
      if err != Success { return; }
      assert writeBuf[..len] == [0xE0, 0];
      err := SendFrame(len, [0xE0, 0]);
    }

    /** Packets are taken while there is time, until `available` bytes have been counted; a cycle that finds
        nothing in the buffer afterwards ends it too. */
    method Yield(available: nat, timeout: nat) returns (err: Err, ghost run: seq<Taken>, ghost stop: Stop)
      requires Valid()
      modifies net, commandTimer, keepAliveTimer`remaining, keepAliveTimer`settings
      modifies readBuf, writeBuf, this`overflowCounter, this`log, this`delivered, this`pongPending
      ensures Valid() && old(log) <= log && Excused(err) && err.Common() && commandTimer.settings == old(commandTimer.settings) + [timeout]
      ensures Ticks(old(keepAliveTimer.remaining), run)
      ensures err == Success ==> RanFrom(old(Now()), run) && (run == [] ==> Waited())
      ensures err != Success ==> RanThenStopped(Setting(), old(Now()), Now(), run, stop, err)
      ensures err == Success && available > 0 ==>
        WithinBudget(run, available) && (ReadCount(run) >= available || Waited() || !run[|run| - 1].fits)
      ensures err == Success && available == 0 ==> |run| <= 1
    {
      commandTimer.Set(timeout);
      var packetType: nat;
      err, packetType, run, stop := CycleUntil(available, NO_PACKET);
    }

    static lemma EmptyFrame(packetType: byte)
      requires packetType < 16
      ensures Frame(WriteBits(0, packetType, 4, 4), []) == [16 * packetType, 0]
      ensures IsPingReq([16 * packetType, 0]) <==> packetType == PINGREQ
    {
      PlainHeader(packetType);
      TypeField(packetType);
      assert Varnum(0) == [0];
    }

    /** A ping is sent whole or not; the history says which, and the flag follows it. */
    method SendPing() returns (err: Err)
      requires Valid() && !pongPending
      modifies net`output, net`faults, commandTimer`remaining, commandTimer`looks, keepAliveTimer`remaining, keepAliveTimer`settings
      modifies writeBuf, this`log, this`pongPending
      ensures Valid() && Excused(err) && err.Common() && Wrote([0xC0, 0], err) && pongPending == (err == Success)
    {
      var len: nat;
      EmptyFrame(PINGREQ);
      err, len := EncodeZero(writeBuf, PINGREQ);
      if err != Success { return; }
      ghost var wire: seq<byte> := [0xC0, 0];
      assert writeBuf[..len] == wire;
      ghost var sent, output := 0, net.output;
      err, sent := SendPacketInBuffer(len);
      assert writeBuf[..sent] == wire[..sent];
      RecordWrite(err, wire, sent, output);
      if err != Success { return; }
      pongPending := true;
    }

    /** The timer is asked exactly when keep-alive is on.  When it says that a ping is due, the ping goes out,
        unless one is open: then the connection is given up. */
    method KeepAlive(timeout: nat) returns (err: Err, ghost due: bool, ghost said: int)
      requires Valid()
      modifies net`output, net`faults, commandTimer, keepAliveTimer, writeBuf, this`log, this`pongPending
      ensures Valid() && old(log) <= log && Excused(err) && commandTimer.settings == old(commandTimer.settings) + [timeout]
      ensures if keepAliveInterval == 0 then keepAliveTimer.looks == old(keepAliveTimer.looks) && !due
              else keepAliveTimer.looks == old(keepAliveTimer.looks) + [said] && (due <==> said <= 0)
      ensures keepAliveInterval > 0 && old(keepAliveTimer.remaining) <= 0 ==> due
      ensures !due ==> err == Success && log == old(log) && pongPending == old(pongPending)
      ensures due && old(pongPending) ==> err == PongTimeout && log == old(log) && pongPending
      ensures due && !old(pongPending) ==>
        && Went([0xC0, 0], 2 <= writeBuf.Length, err, log[|old(log)|..]) && pongPending == (err == Success)
        && (err == Success ==> keepAliveTimer.remaining == keepAliveInterval && log == old(log) + [Sent([0xC0, 0])])
    {
      due, said := false, 0;
      commandTimer.Set(timeout);
      if keepAliveInterval == 0 { return Success, due, said; }
      var t := keepAliveTimer.Get();
      said := t;
      if t > 0 { return Success, due, said; }
      due := true;
      if pongPending { return PongTimeout, due, said; }
      err := SendPing();
    }
  }
}

/** The packet encoders and decoders of lwmqtt (libraries/MQTT/packet.c), MQTT 3.1.1 chapters 2 and 3. */
module Packet {
  import opened Sequences
  import opened Helpers

  datatype Option<+T> = None | Some(value: T)

  // lwmqtt_packet_type_t (packet.h)
  const NO_PACKET: byte := 0
  const CONNECT: byte := 1
  const CONNACK: byte := 2
  const PUBLISH: byte := 3
  const PUBACK: byte := 4
  const PUBREC: byte := 5
  const PUBREL: byte := 6
  const PUBCOMP: byte := 7
  const SUBSCRIBE: byte := 8
  const SUBACK: byte := 9
  const UNSUBSCRIBE: byte := 10
  const UNSUBACK: byte := 11
  const PINGREQ: byte := 12
  const PINGRESP: byte := 13
  const DISCONNECT: byte := 14

  const QOS_FAILURE: byte := 128

  function PacketType(header: byte): nat { ReadBits(header, 4, 4) }

  /** The packet types that lwmqtt_detect_packet_type lets a client receive. */
  predicate Receivable(t: nat) {
    2 <= t <= 7 || t == 9 || t == 11 || t == 13
  }

  // ---------- Frames ----------

  /** A frame as it should be written: header, length of the body in shortest form, body. */
  function Frame(header: byte, body: seq<byte>): seq<byte> {
    [header] + Varnum(|body|) + body
  }

  /** What stands before the body: its first byte's position and its declared length. */
  datatype Head = Bad(err: Err) | Good(start: nat, rem: nat)

  function FixedHeader(s: seq<byte>, packetType: nat): (h: Head)
    ensures h.Bad? ==> h.err.Common() && !h.err.FromNetwork() && h.err != Success
  {
    if |s| < 1 then Bad(BufferTooShort)
    else if PacketType(s[0]) != packetType then Bad(MissingOrWrongPacket)
    else match ParseVarnum(s[1..])
      case TooShort => Bad(BufferTooShort)
      case Overflow => Bad(VarnumOverflow)
      case Done(rem, len) => Good(1 + len, rem)
  }

  method ReadFixedHeader(buf: array<byte>, packetType: nat) returns (err: Err, pos: nat, rem: nat)
    ensures match FixedHeader(buf[..], packetType)
            case Bad(e) => err == e && err != Success
            case Good(start, r) => err == Success && pos == start <= buf.Length && rem == r < 0x1000_0000
  {
    var header: byte;
    rem := 0;
    err, pos, header := ReadByte(buf, 0, buf.Length);
    if err != Success { return; }
    if ReadBits(header, 4, 4) != packetType { return MissingOrWrongPacket, pos, rem; }
    assert buf[..][1..] == buf[1..buf.Length];
    err, pos, rem := ReadVarnum(buf, pos, buf.Length);
  }

  /** Header and remaining length of every encoder, the length having passed lwmqtt_varnum_length. */
  method WriteFixedHeader(p: Packer, header: byte, rem: nat) returns (err: Err)
    requires p.Valid() && rem < 0x1000_0000
    modifies p, p.buf
    ensures p.Appended([header] + Varnum(rem), err)
  {
    err := Success;
    :- p.WriteByte(header);
    :- p.WriteVarnum(rem);
    Assoc(old(p.written), [header], Varnum(rem));
  }

  // ---------- CONNECT ----------

  datatype Will = Will(topic: seq<byte>, qos: byte, retained: bool, payload: seq<byte>)
  {
    predicate Short() { |topic| < U16 && |payload| < U16 }

    function Bytes(): seq<byte>
      requires Short()
    {
      Str(topic) + Str(payload)
    }
  }

  datatype ConnectOptions = ConnectOptions(
    clientId: seq<byte>, keepAlive: nat, cleanSession: bool, username: seq<byte>, password: seq<byte>)
  {
    predicate Short() {
      |clientId| < U16 && keepAlive < U16 && |username| < U16 && |password| < U16
    }

    /** The username goes out when there is a username or a password, the password only when there
        are both. */
    function Credentials(): seq<byte>
      requires Short()
    {
      (if username != [] || password != [] then Str(username) else [])
      + if username != [] && password != [] then Str(password) else []
    }
  }

  function BoolBit(b: bool): byte { if b then 1 else 0 }

  const PROTOCOL: seq<byte> := [77, 81, 84, 84] // "MQTT"

  function CleanFlag(clean: bool): byte { WriteBits(0, BoolBit(clean), 1, 1) }

  function WillFlags(flags: byte, will: Option<Will>): byte {
    if will.None? then flags
    else WriteBits(WriteBits(WriteBits(flags, 1, 2, 1), will.value.qos, 3, 2), BoolBit(will.value.retained), 5, 1)
  }

  function CredentialFlags(flags: byte, options: ConnectOptions): byte {
    var flags := if options.username == [] && options.password == [] then flags else WriteBits(flags, 1, 7, 1);
    if options.password == [] then flags else WriteBits(flags, 1, 6, 1)
  }

  function ConnectFlags(options: ConnectOptions, will: Option<Will>): byte {
    CredentialFlags(WillFlags(CleanFlag(options.cleanSession), will), options)
  }

  function ConnectHead(flags: byte, keepAlive: nat): seq<byte>
    requires keepAlive < U16
  {
    Str(PROTOCOL) + [4, flags] + Num(keepAlive)
  }

  function WillBytes(will: Option<Will>): seq<byte>
    requires will.Some? ==> will.value.Short()
  {
    if will.Some? then will.value.Bytes() else []
  }

  function ConnectFields(flags: byte, options: ConnectOptions, will: Option<Will>): seq<byte>
    requires options.Short() && (will.Some? ==> will.value.Short())
  {
    ConnectHead(flags, options.keepAlive) + Str(options.clientId) + WillBytes(will) + options.Credentials()
  }

  /** The body that is written, section 3.1. */
  function ConnectBody(options: ConnectOptions, will: Option<Will>): seq<byte>
    requires options.Short() && (will.Some? ==> will.value.Short())
  {
    ConnectFields(ConnectFlags(options, will), options, will)
  }

  /** The remaining length that is declared. */
  function ConnectRem(options: ConnectOptions, will: Option<Will>): nat {
    10 + |options.clientId| + 2
    + (if will.Some? then |will.value.topic| + 2 + |will.value.payload| + 2 else 0)
    + (if options.username != [] || options.password != [] then |options.username| + 2 else 0)
    + (if options.password != [] then |options.password| + 2 else 0)
  }

  /** The declared length is that of the body unless a password comes without a username; then it
      counts the password, which is not written. */
  lemma ConnectDeclaresItsLength(options: ConnectOptions, will: Option<Will>)
    requires options.Short() && (will.Some? ==> will.value.Short())
    ensures ConnectRem(options, will) == |ConnectBody(options, will)| <==> !(options.username == [] && options.password != [])
    ensures options.username == [] && options.password != [] ==>
              ConnectRem(options, will) == |ConnectBody(options, will)| + |options.password| + 2
  {
    assert |ConnectHead(ConnectFlags(options, will), options.keepAlive)| == 10;
  }

  method WriteConnectHead(p: Packer, flags: byte, keepAlive: nat) returns (err: Err)
    requires p.Valid() && keepAlive < U16
    modifies p, p.buf
    ensures p.Appended(ConnectHead(flags, keepAlive), err)
  {
    err := Success;
    ghost var before := p.written;
    :- p.WriteString(PROTOCOL);
    :- p.WriteByte(4);
    :- p.WriteByte(flags);
    assert p.written == before + (Str(PROTOCOL) + [4, flags]);
    :- p.WriteNum(keepAlive);
    Assoc(before, Str(PROTOCOL) + [4, flags], Num(keepAlive));
  }

  method WriteWill(p: Packer, will: Will) returns (err: Err)
    requires p.Valid() && will.Short()
    modifies p, p.buf
    ensures p.Appended(will.Bytes(), err)
  {
    err := Success;
    Assoc(p.written, Str(will.topic), Num(|will.payload|));
    Assoc(p.written, Str(will.topic) + Num(|will.payload|), will.payload);
    Assoc(Str(will.topic), Num(|will.payload|), will.payload);
    :- p.WriteString(will.topic);
    :- p.WriteNum(|will.payload|);
    :- p.WriteData(will.payload);
  }

  method WriteCredentials(p: Packer, options: ConnectOptions) returns (err: Err)
    requires p.Valid() && options.Short()
    modifies p, p.buf
    ensures p.Appended(options.Credentials(), err)
  {
    err := Success;
    Assoc(p.written, Str(options.username), Str(options.password));
    if options.username != [] || options.password != [] {
      :- p.WriteString(options.username);
    }
    if options.username != [] && options.password != [] {
      :- p.WriteString(options.password);
    }
  }

  method WriteConnectFields(p: Packer, flags: byte, options: ConnectOptions, will: Option<Will>) returns (err: Err)
    requires p.Valid() && options.Short() && (will.Some? ==> will.value.Short())
    modifies p, p.buf
    ensures p.Appended(ConnectFields(flags, options, will), err)
  {
    err := Success;
    ghost var before, head := p.written, ConnectHead(flags, options.keepAlive);
    :- WriteConnectHead(p, flags, options.keepAlive);
    :- p.WriteString(options.clientId);
    Assoc(before, head, Str(options.clientId));
    head := head + Str(options.clientId);
    if will.Some? { :- WriteWill(p, will.value); }
    Assoc(before, head, WillBytes(will));
    head := head + WillBytes(will);
    assert p.written == before + head;
    :- WriteCredentials(p, options);
    Assoc(before, head, options.Credentials());
  }

  /** No declared length is refused: five strings of 16-bit length stay far below 2^28. */
  method EncodeConnect(buf: array<byte>, options: ConnectOptions, will: Option<Will>) returns (err: Err, len: nat)
    requires options.Short() && (will.Some? ==> will.value.Short())
    modifies buf
    ensures var rem := ConnectRem(options, will);
            err == if 1 + |Varnum(rem)| + |ConnectBody(options, will)| > buf.Length then BufferTooShort else Success
    ensures err == Success ==>
      var bytes := [WriteBits(0, CONNECT, 4, 4)] + Varnum(ConnectRem(options, will)) + ConnectBody(options, will);
      len == |bytes| <= buf.Length && buf[..] == bytes + old(buf[len..])
  {
    var p := new Packer(buf);
    err, len := Success, 0;
    var rem := ConnectRem(options, will);
    var (lenErr, _) := VarnumLength(rem);
    if lenErr == VarnumOverflow { return RemainingLengthOverflow, len; }
    var header, flags := WriteBits(0, CONNECT, 4, 4), ConnectFlags(options, will);
    :- WriteFixedHeader(p, header, rem);
    assert p.written == [header] + Varnum(rem);
    :- WriteConnectFields(p, flags, options, will);
    p.Contents();
    len := p.pos;
  }

  // ---------- CONNACK ----------

  function ConnackError(s: seq<byte>): (e: Err)
    ensures e.Common() && !e.FromNetwork()
  {
    match FixedHeader(s, CONNACK)
    case Bad(e) => e
    case Good(start, rem) =>
      if rem != 2 then RemainingLengthMismatch else if |s| < start + 2 then BufferTooShort else Success
  }

  method DecodeConnack(buf: array<byte>) returns (err: Err, sessionPresent: bool, returnCode: nat)
    ensures err == ConnackError(buf[..])
    ensures err == Success ==>
      var start := FixedHeader(buf[..], CONNACK).start;
      sessionPresent == (buf[start] % 2 == 1) && returnCode == if buf[start + 1] < 6 then buf[start + 1] else 6
    ensures err != Success ==> !sessionPresent && returnCode == 6
  {
    var pos, rem: nat;
    sessionPresent, returnCode := false, 6;
    err, pos, rem := ReadFixedHeader(buf, CONNACK);
    if err != Success { return; }
    if rem != 2 { return RemainingLengthMismatch, false, 6; }
    var flags: byte, raw: byte;
    err, pos, flags := ReadByte(buf, pos, buf.Length);
    if err != Success { return; }
    err, pos, raw := ReadByte(buf, pos, buf.Length);
    if err != Success { return; }
    LowestBit(flags);
    sessionPresent := ReadBits(flags, 0, 1) == 1;
    returnCode := if raw < 6 then raw else 6;
  }

  // ---------- Acknowledgements: PUBACK, PUBREC, PUBREL, PUBCOMP, UNSUBACK ----------

  function AckError(s: seq<byte>, packetType: nat): (e: Err)
    ensures e.Common() && !e.FromNetwork()
  {
    match FixedHeader(s, packetType)
    case Bad(e) => e
    case Good(start, rem) =>
      if rem != 2 then RemainingLengthMismatch else if |s| < start + 2 then BufferTooShort else Success
  }

  method DecodeAck(buf: array<byte>, packetType: nat) returns (err: Err, packetId: nat)
    ensures err == AckError(buf[..], packetType)
    ensures err == Success ==>
      var start := FixedHeader(buf[..], packetType).start;
      packetId < U16 && buf[start..start + 2] == Num(packetId)
  {
    var pos, rem: nat;
    packetId := 0;
    err, pos, rem := ReadFixedHeader(buf, packetType);
    if err != Success { return; }
    if rem != 2 { return RemainingLengthMismatch, 0; }
    err, pos, packetId := ReadNum(buf, pos, buf.Length);
  }

  /** PUBREL carries the flags 0010 of section 3.6.1, the others 0000. */
  function AckHeader(packetType: byte): byte {
    WriteBits(WriteBits(0, packetType, 4, 4), if packetType == PUBREL then 1 else 0, 1, 2)
  }

  method EncodeAck(buf: array<byte>, packetType: byte, packetId: nat) returns (err: Err, len: nat)
    requires packetId < U16
    modifies buf
    ensures err == if buf.Length >= 4 then Success else BufferTooShort
    ensures err == Success ==> len == 4 && buf[..] == Frame(AckHeader(packetType), Num(packetId)) + old(buf[4..])
  {
    var p := new Packer(buf);
    err, len := Success, 0;
    var header := AckHeader(packetType);
    :- WriteFixedHeader(p, header, 2);
    :- p.WriteNum(packetId);
    assert |Num(packetId)| == 2 && p.written == [header] + Varnum(2) + Num(packetId);
    p.Contents();
    len := p.pos;
  }

  method EncodeZero(buf: array<byte>, packetType: byte) returns (err: Err, len: nat)
    modifies buf
    ensures err == if buf.Length >= 2 then Success else BufferTooShort
    ensures err == Success ==> len == 2 && buf[..] == Frame(WriteBits(0, packetType, 4, 4), []) + old(buf[2..])
  {
    var p := new Packer(buf);
    err, len := Success, 0;
    :- WriteFixedHeader(p, WriteBits(0, packetType, 4, 4), 0);
    p.Contents();
    len := p.pos;
  }

  // ---------- PUBLISH ----------

  datatype Message = Message(qos: byte, retained: bool, payload: seq<byte>)

  function PublishHeader(dup: bool, qos: byte, retained: bool): byte {
    WriteBits(WriteBits(WriteBits(WriteBits(0, PUBLISH, 4, 4), BoolBit(dup), 3, 1), qos, 1, 2), BoolBit(retained), 0, 1)
  }

  function PublishId(qos: byte, packetId: nat): seq<byte>
    requires packetId < U16
  {
    if qos > 0 then Num(packetId) else []
  }

  /** The whole body of a PUBLISH, section 3.3: topic, packet id from QoS 1 up, payload. */
  function PublishBody(topic: seq<byte>, qos: byte, packetId: nat, payload: seq<byte>): seq<byte>
    requires |topic| < U16 && packetId < U16
  {
    Str(topic) + PublishId(qos, packetId) + payload
  }

  /** The declared length, computed in a uint32_t. */
  function PublishRem(topic: seq<byte>, msg: Message): nat {
    (2 + |topic| + |msg.payload| + if msg.qos > 0 then 2 else 0) % U32
  }

  lemma SmallModulo(x: nat) requires x < U32 ensures x % U32 == x {}

  lemma AddModulo(x: nat, y: nat)
    ensures (x % U32 + y) % U32 == (x + y) % U32
  {
    var q := x / U32;
    assert x + y == x % U32 + y + q * U32;
    ModuloOfSum(x % U32 + y, q);
  }

  lemma {:induction false} ModuloOfSum(x: nat, q: nat)
    ensures (x + q * U32) % U32 == x % U32
    decreases q
  {
    if q > 0 { ModuloOfSum(x + U32, q - 1); }
  }

  /** The encoded part of a PUBLISH; the payload is sent from the caller's memory. */
  function PublishHead(dup: bool, packetId: nat, topic: seq<byte>, msg: Message): seq<byte>
    requires |topic| < U16 && packetId < U16
  {
    [PublishHeader(dup, msg.qos, msg.retained)] + Varnum(PublishRem(topic, msg)) + Str(topic) + PublishId(msg.qos, packetId)
  }

  method WritePublishHead(p: Packer, header: byte, rem: nat, topic: seq<byte>, id: Option<nat>) returns (err: Err)
    requires p.Valid() && p.written == [] && rem < 0x1000_0000 && |topic| < U16 && (id.Some? ==> id.value < U16)
    modifies p, p.buf
    ensures var head := [header] + Varnum(rem) + Str(topic) + if id.Some? then Num(id.value) else [];
            && err == (if |head| > p.buf.Length then BufferTooShort else Success)
            && (err == Success ==> p.Valid() && p.written == head)
  {
    err := Success;
    :- WriteFixedHeader(p, header, rem);
    assert p.written == [header] + Varnum(rem);
    :- p.WriteString(topic);
    if id.Some? {
      :- p.WriteNum(id.value);
    }
  }

  method EncodePublish(buf: array<byte>, dup: bool, packetId: nat, topic: seq<byte>, msg: Message) returns (err: Err, len: nat)
    requires |topic| < U16 && packetId < U16
    modifies buf
    ensures err == if VarnumLength(PublishRem(topic, msg)).0 != Success then RemainingLengthOverflow
                   else if |PublishHead(dup, packetId, topic, msg)| > buf.Length then BufferTooShort else Success
    ensures err == Success ==>
      var head := PublishHead(dup, packetId, topic, msg);
      len == |head| <= buf.Length && buf[..] == head + old(buf[len..])
  {
    var p := new Packer(buf);
    err, len := Success, 0;
    var rem := PublishRem(topic, msg);
    var (lenErr, _) := VarnumLength(rem);
    if lenErr == VarnumOverflow { return RemainingLengthOverflow, len; }
    :- WritePublishHead(p, PublishHeader(dup, msg.qos, msg.retained), rem, topic, if msg.qos > 0 then Some(packetId) else None);
    p.Contents();
    len := p.pos;
  }

  datatype Publish = Publish(dup: bool, packetId: nat, topic: seq<byte>, msg: Message)

  /** The reserved QoS 3 is taken for 0. */
  function QosOf(header: byte): byte {
    if ReadBits(header, 1, 2) == 3 then 0 else ReadBits(header, 1, 2)
  }

  /** Topic, packet id and payload, as far as the body reaches. */
  function PublishBodyError(body: seq<byte>, qos: byte): (e: Err)
    ensures e.Common() && !e.FromNetwork()
  {
    if !StartsWithStr(body) then BufferTooShort
    else if qos > 0 && |body| < 4 + 256 * (body[0] as int) + body[1] then BufferTooShort
    else Success
  }

  function PublishError(s: seq<byte>): (e: Err)
    ensures e.Common() && !e.FromNetwork()
  {
    match FixedHeader(s, PUBLISH)
    case Bad(e) => e
    case Good(start, rem) =>
      if rem < 2 then RemainingLengthMismatch
      else if |s| < start + rem then BufferTooShort
      else PublishBodyError(s[start..start + rem], QosOf(s[0]))
  }

  /** `s` starts with a PUBLISH frame that means `p`. */
  predicate MeansPublish(s: seq<byte>, p: Publish) {
    && FixedHeader(s, PUBLISH).Good?
    && var Good(start, rem) := FixedHeader(s, PUBLISH);
    && start + rem <= |s| && |p.topic| < U16 && p.packetId < U16
    && p.dup == (ReadBits(s[0], 3, 1) == 1)
    && p.msg.qos == QosOf(s[0])
    && p.msg.retained == (ReadBits(s[0], 0, 1) == 1)
    && (p.msg.qos == 0 ==> p.packetId == 0)
    && s[start..start + rem] == PublishBody(p.topic, p.msg.qos, p.packetId, p.msg.payload)
  }

  method DecodePublishBody(buf: array<byte>, start: nat, end: nat, qos: byte)
    returns (err: Err, packetId: nat, topic: seq<byte>, payload: seq<byte>)
    requires start <= end <= buf.Length
    ensures err == PublishBodyError(buf[start..end], qos)
    ensures err == Success ==>
      && |topic| < U16 && packetId < U16 && (qos == 0 ==> packetId == 0)
      && buf[start..end] == PublishBody(topic, qos, packetId, payload)
  {
    var pos: nat;
    packetId, topic, payload := 0, [], [];
    err, pos, topic := ReadString(buf, start, end);
    if err != Success { return; }
    assert buf[start..pos][0] == buf[start..end][0] && buf[start..pos][1] == buf[start..end][1];
    ghost var idPos := pos;
    if qos > 0 {
      err, pos, packetId := ReadNum(buf, pos, end);
      if err != Success { return; }
    }
    var last: nat;
    err, last, payload := ReadData(buf, pos, end, end - pos);
    assert buf[idPos..pos] == PublishId(qos, packetId);
    assert buf[start..end] == buf[start..idPos] + buf[idPos..pos] + buf[pos..end];
  }

  method DecodePublish(buf: array<byte>) returns (err: Err, p: Publish)
    ensures err == PublishError(buf[..])
    ensures err == Success ==> MeansPublish(buf[..], p)
  {
    p := Publish(false, 0, [], Message(0, false, []));
    var pos, rem: nat;
    err, pos, rem := ReadFixedHeader(buf, PUBLISH);
    if err != Success { return; }
    var header := buf[0];
    var dup, retained, qos := ReadBits(header, 3, 1) == 1, ReadBits(header, 0, 1) == 1, QosOf(header);
    if rem < 2 { return RemainingLengthMismatch, p; }
    if buf.Length - pos < rem { return BufferTooShort, p; }
    assert buf[pos..pos + rem] == buf[..][pos..pos + rem];
    var packetId, topic, payload;
    err, packetId, topic, payload := DecodePublishBody(buf, pos, pos + rem, qos);
    p := Publish(dup, packetId, topic, Message(qos, retained, payload));
  }

  // ---------- SUBSCRIBE, UNSUBSCRIBE, SUBACK ----------

  /** A topic filter of a SUBSCRIBE, with its QoS, or of an UNSUBSCRIBE, without. */
  datatype Filter = Filter(topic: seq<byte>, qos: Option<byte>)
  {
    function Bytes(): seq<byte>
      requires |topic| < U16
    {
      Str(topic) + if qos.Some? then [qos.value] else []
    }
  }

  ghost predicate ShortTopics(filters: seq<Filter>) { forall f | f in filters :: |f.topic| < U16 }

  function FilterBytes(filters: seq<Filter>): seq<byte>
    requires ShortTopics(filters)
  {
    if filters == [] then [] else FilterBytes(filters[..|filters| - 1]) + filters[|filters| - 1].Bytes()
  }

  /** Body of a SUBSCRIBE (section 3.8) or an UNSUBSCRIBE (section 3.10). */
  function FiltersBody(packetId: nat, filters: seq<Filter>): seq<byte>
    requires packetId < U16 && ShortTopics(filters)
  {
    Num(packetId) + FilterBytes(filters)
  }

  lemma FilterBytesStep(filters: seq<Filter>, i: nat)
    requires i < |filters| && ShortTopics(filters)
    ensures FilterBytes(filters[..i + 1]) == FilterBytes(filters[..i]) + filters[i].Bytes()
  {
    assert filters[..i + 1][..i] == filters[..i];
  }

  lemma {:induction false} FilterBytesGrow(filters: seq<Filter>, i: nat)
    requires i <= |filters| && ShortTopics(filters)
    ensures |FilterBytes(filters[..i])| <= |FilterBytes(filters)|
    decreases |filters| - i
  {
    if i < |filters| {
      FilterBytesStep(filters, i);
      FilterBytesGrow(filters, i + 1);
    } else {
      assert filters[..i] == filters;
    }
  }

  /** The remaining length, summed in a uint32_t. */
  method FiltersRem(filters: seq<Filter>) returns (rem: nat)
    requires ShortTopics(filters)
    ensures rem == (2 + |FilterBytes(filters)|) % U32
  {
    rem := 2;
    for i := 0 to |filters|
      invariant rem == (2 + |FilterBytes(filters[..i])|) % U32
    {
      FilterBytesStep(filters, i);
      var size := 2 + |filters[i].topic| + if filters[i].qos.Some? then 1 else 0;
      AddModulo(2 + |FilterBytes(filters[..i])|, size);
      rem := (rem + size) % U32;
    }
    assert filters[..|filters|] == filters;
  }

  method WriteFilter(p: Packer, filter: Filter) returns (err: Err)
    requires p.Valid() && |filter.topic| < U16
    modifies p, p.buf
    ensures p.Appended(filter.Bytes(), err)
  {
    err := Success;
    :- p.WriteString(filter.topic);
    if filter.qos.Some? {
      :- p.WriteByte(filter.qos.value);
      Assoc(old(p.written), Str(filter.topic), [filter.qos.value]);
    }
  }

  method WriteFilters(p: Packer, filters: seq<Filter>) returns (err: Err)
    requires p.Valid() && ShortTopics(filters)
    modifies p, p.buf
    ensures p.Appended(FilterBytes(filters), err)
  {
    err := Success;
    for i := 0 to |filters|
      invariant p.Valid() && p.written == old(p.written) + FilterBytes(filters[..i])
    {
      FilterBytesStep(filters, i);
      FilterBytesGrow(filters, i + 1);
      Assoc(old(p.written), FilterBytes(filters[..i]), filters[i].Bytes());
      :- WriteFilter(p, filters[i]);
    }
    assert filters[..|filters|] == filters;
  }

  /** Why a list of filters cannot be encoded into `room` bytes. */
  function FiltersError(packetId: nat, filters: seq<Filter>, room: nat): Err
    requires packetId < U16 && ShortTopics(filters)
  {
    var size := |FiltersBody(packetId, filters)|;
    if VarnumLength(size % U32).0 != Success then RemainingLengthOverflow
    else if 1 + |Varnum(size % U32)| + size > room then BufferTooShort
    else Success
  }

  /** A list too long for the length field is refused, also when its uint32_t sum wraps: what is
      written on success declares exactly its own length. */
  method EncodeFilters(buf: array<byte>, header: byte, packetId: nat, filters: seq<Filter>) returns (err: Err, len: nat)
    requires packetId < U16 && buf.Length < U32 && ShortTopics(filters)
    modifies buf
    ensures err == FiltersError(packetId, filters, buf.Length)
    ensures err == Success ==>
      var frame := Frame(header, FiltersBody(packetId, filters));
      len == |frame| <= buf.Length && buf[..] == frame + old(buf[len..])
  {
    var p := new Packer(buf);
    err, len := Success, 0;
    var rem := FiltersRem(filters);
    VarnumLengths(rem);
    var (lenErr, _) := VarnumLength(rem);
    if lenErr == VarnumOverflow { return RemainingLengthOverflow, len; }
    :- WriteFixedHeader(p, header, rem);
    ghost var head := [header] + Varnum(rem);
    assert p.written == head;
    :- p.WriteNum(packetId);
    :- WriteFilters(p, filters);
    Assoc(head, Num(packetId), FilterBytes(filters));
    SmallModulo(|FiltersBody(packetId, filters)|);
    p.Contents();
    len := p.pos;
  }

  method EncodeSubscribe(buf: array<byte>, packetId: nat, filters: seq<Filter>) returns (err: Err, len: nat)
    requires packetId < U16 && buf.Length < U32 && ShortTopics(filters)
    requires forall f | f in filters :: f.qos.Some?
    modifies buf
    ensures err == FiltersError(packetId, filters, buf.Length)
    ensures err == Success ==>
      var frame := Frame(SubscribeHeader(SUBSCRIBE), FiltersBody(packetId, filters));
      len == |frame| <= buf.Length && buf[..] == frame + old(buf[len..])
  {
    err, len := EncodeFilters(buf, SubscribeHeader(SUBSCRIBE), packetId, filters);
  }

  /** SUBSCRIBE and UNSUBSCRIBE carry the flags 0010 of sections 3.8.1 and 3.10.1. */
  function SubscribeHeader(packetType: byte): byte {
    WriteBits(WriteBits(0, packetType, 4, 4), 1, 1, 2)
  }

  method EncodeUnsubscribe(buf: array<byte>, packetId: nat, filters: seq<Filter>) returns (err: Err, len: nat)
    requires packetId < U16 && buf.Length < U32 && ShortTopics(filters)
    requires forall f | f in filters :: f.qos.None?
    modifies buf
    ensures err == FiltersError(packetId, filters, buf.Length)
    ensures err == Success ==>
      var frame := Frame(SubscribeHeader(UNSUBSCRIBE), FiltersBody(packetId, filters));
      len == |frame| <= buf.Length && buf[..] == frame + old(buf[len..])
  {
    err, len := EncodeFilters(buf, SubscribeHeader(UNSUBSCRIBE), packetId, filters);
  }

  function GrantedQoS(raw: byte): byte { if raw < 3 then raw else QOS_FAILURE }

  /** Codes are accepted until the index passes `maxCount`, so one more than `maxCount` gets in. */
  function SubackError(s: seq<byte>, maxCount: nat): Err {
    match FixedHeader(s, SUBACK)
    case Bad(e) => e
    case Good(start, rem) =>
      if rem < 3 then RemainingLengthMismatch
      else if |s| < start + 2 + (if rem - 2 <= maxCount + 1 then rem - 2 else maxCount + 1) then BufferTooShort
      else if rem - 2 > maxCount + 1 then SubackArrayOverflow
      else Success
  }

  /** How many codes are stored before the loop stops, for whatever reason. */
  function SubackStored(s: seq<byte>, maxCount: nat): nat {
    match FixedHeader(s, SUBACK)
    case Bad(_) => 0
    case Good(start, rem) =>
      if rem < 3 || |s| < start + 2 then 0
      else
        var wanted := if rem - 2 <= maxCount + 1 then rem - 2 else maxCount + 1;
        if |s| < start + 2 + wanted then |s| - start - 2 else wanted
  }

  /** What is stored in the array, or behind it, when `count` codes have been read from `start` on. */
  twostate predicate Stored(buf: array<byte>, start: nat, count: nat, granted: array<byte>, new past: Option<byte>)
    reads granted, buf
  {
    && start + count <= buf.Length
    && (forall i | 0 <= i < granted.Length :: granted[i] == if i < count then GrantedQoS(buf[start + i]) else old(granted[i]))
    && past == if count > granted.Length then Some(GrantedQoS(buf[start + granted.Length])) else None
  }

  /** `granted` is the caller's array; a code that is stored behind it is handed out as `past`. */
  method DecodeSuback(buf: array<byte>, maxCount: nat, granted: array<byte>)
    returns (err: Err, packetId: nat, count: nat, past: Option<byte>)
    requires granted.Length >= maxCount && granted != buf
    modifies granted
    ensures err == SubackError(buf[..], maxCount) && count == SubackStored(buf[..], maxCount)
    ensures count == 0 ==> past == None && granted[..] == old(granted[..])
    ensures granted.Length == maxCount ==>
      (past.Some? <==> match FixedHeader(buf[..], SUBACK)
                       case Bad(_) => false
                       case Good(start, rem) => rem >= maxCount + 3 && buf.Length >= start + maxCount + 3)
    ensures count > 0 ==>
      var start := FixedHeader(buf[..], SUBACK).start;
      packetId < U16 && buf[start..start + 2] == Num(packetId) && Stored(buf, start + 2, count, granted, past)
  {
    var pos, rem: nat;
    packetId, count, past := 0, 0, None;
    err, pos, rem := ReadFixedHeader(buf, SUBACK);
    if err != Success { return; }
    if rem < 3 { return RemainingLengthMismatch, 0, 0, None; }
    err, pos, packetId := ReadNum(buf, pos, buf.Length);
    if err != Success { return; }
    err, count, past := StoreCodes(buf, pos, rem - 2, maxCount, granted);
  }

  /** The loop over the codes. */
  method StoreCodes(buf: array<byte>, start: nat, codes: nat, maxCount: nat, granted: array<byte>)
    returns (err: Err, count: nat, past: Option<byte>)
    requires granted.Length >= maxCount && granted != buf && start <= buf.Length
    modifies granted
    ensures var wanted := if codes <= maxCount + 1 then codes else maxCount + 1;
      && count == (if buf.Length < start + wanted then buf.Length - start else wanted)
      && err == if buf.Length < start + wanted then BufferTooShort
                else if codes > maxCount + 1 then SubackArrayOverflow else Success
    ensures Stored(buf, start, count, granted, past)
  {
    err, count, past := Success, 0, None;
    while count < codes
      invariant err == Success && count <= codes && count <= maxCount + 1 && Stored(buf, start, count, granted, past)
    {
      if count > maxCount { return SubackArrayOverflow, count, past; }
      var pos, raw;
      err, pos, raw := ReadByte(buf, start + count, buf.Length);
      if err != Success { return; }
      if count < granted.Length { granted[count] := GrantedQoS(raw); } else { past := Some(GrantedQoS(raw)); }
      count := count + 1;
    }
  }
}

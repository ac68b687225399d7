/** What the encoders and decoders of lwmqtt promise each other: header fields, declared lengths,
    round trips, and decoding that looks at nothing but the framed bytes. */
module PacketProperties {
  import opened Arithmetic
  import opened Sequences
  import opened Helpers
  import opened Packet

  // ---------- Header bytes ----------

  lemma TypeField(packetType: byte)
    requires packetType < 16
    ensures ReadBits(WriteBits(0, packetType, 4, 4), 4, 4) == packetType
    ensures ReadBits(WriteBits(0, packetType, 4, 4), 0, 4) == 0
  {
    WriteBitsFields(0, packetType, 4, 4, 0, 4);
  }

  /** The type is in the upper four bits; a PUBLISH has dup in bit 3, the service level in bits 2 and 1
      (3 is taken for 0), and retained in bit 0. */
  lemma HeaderBits(h: byte)
    ensures PacketType(h) == h / 16 && ReadBits(h, 3, 1) == h / 8 % 2 && ReadBits(h, 0, 1) == h % 2
    ensures QosOf(h) == if h / 2 % 4 == 3 then 0 else h / 2 % 4
  {
    assert Pow2(0) == 1 && Pow2(1) == 2 && Pow2(2) == 4 && Pow2(3) == 8 && Pow2(4) == 16;
  }

  lemma FromBits(h: byte)
    ensures h == 16 * PacketType(h) + 8 * ReadBits(h, 3, 1) + 2 * ReadBits(h, 1, 2) + ReadBits(h, 0, 1)
  {
    HeaderBits(h);
    assert h == 2 * (h / 2) + h % 2 && h / 2 == 4 * (h / 8) + h / 2 % 4 && h / 8 == 2 * (h / 16) + h / 8 % 2;
  }

  lemma LowBitsZero(h: byte)
    requires ReadBits(h, 0, 4) == 0
    ensures h == 16 * PacketType(h) && ReadBits(h, 3, 1) == 0 && ReadBits(h, 1, 2) == 0 && ReadBits(h, 0, 1) == 0
  {
    HeaderBits(h);
    assert Pow2(0) == 1 && Pow2(4) == 16 && h % 16 == 0;
  }

  lemma PlainHeader(packetType: byte)
    requires packetType < 16
    ensures WriteBits(0, packetType, 4, 4) == 16 * packetType && ReadBits(WriteBits(0, packetType, 4, 4), 0, 4) == 0
  {
    TypeField(packetType);
    LowBitsZero(WriteBits(0, packetType, 4, 4));
  }

  /** Whatever service level is written, the header of a PUBLISH is not that of a PINGREQ. */
  lemma PublishNeverPings(dup: bool, qos: byte, retained: bool)
    ensures PacketType(PublishHeader(dup, qos, retained)) != PINGREQ
  {
    var h := WriteBits(0, PUBLISH, 4, 4);
    var h' := WriteBits(h, BoolBit(dup), 3, 1);
    WriteBitsBit(0, PUBLISH, 4, 4, 4);
    WriteBitsBit(h, BoolBit(dup), 3, 1, 4);
    WriteBitsBit(h', qos, 1, 2, 4);
    WriteBitsBit(WriteBits(h', qos, 1, 2), BoolBit(retained), 0, 1, 4);
    ReadBitsBit(PublishHeader(dup, qos, retained), 4, 4, 0);
  }

  /** PUBREL, SUBSCRIBE and UNSUBSCRIBE carry the flag bits 0010, the other acknowledgements 0000. */
  lemma AckHeaderFields(packetType: byte)
    requires packetType < 16
    ensures PacketType(AckHeader(packetType)) == packetType
    ensures ReadBits(AckHeader(packetType), 1, 2) == if packetType == PUBREL then 1 else 0
  {
    TypeField(packetType);
    WriteBitsFields(WriteBits(0, packetType, 4, 4), if packetType == PUBREL then 1 else 0, 1, 2, 4, 4);
  }

  lemma SubscribeHeaderFields(packetType: byte)
    requires packetType < 16
    ensures PacketType(SubscribeHeader(packetType)) == packetType && ReadBits(SubscribeHeader(packetType), 1, 2) == 1
  {
    TypeField(packetType);
    WriteBitsFields(WriteBits(0, packetType, 4, 4), 1, 1, 2, 4, 4);
  }

  /** Field by field, what a PUBLISH header says. */
  ghost predicate HeaderSays(h: byte, packetType: byte, dup: bool, qos: byte) {
    PacketType(h) == packetType && ReadBits(h, 3, 1) == BoolBit(dup) && ReadBits(h, 1, 2) == qos
  }

  lemma WriteDup(h: byte, dup: bool)
    ensures var w := WriteBits(h, BoolBit(dup), 3, 1);
            PacketType(w) == PacketType(h) && ReadBits(w, 3, 1) == BoolBit(dup)
  {
    WriteBitsFields(h, BoolBit(dup), 3, 1, 4, 4);
  }

  lemma WriteQoS(h: byte, qos: byte, dup: bool)
    requires qos < 4 && ReadBits(h, 3, 1) == BoolBit(dup)
    ensures HeaderSays(WriteBits(h, qos, 1, 2), PacketType(h), dup, qos)
  {
    WriteBitsFields(h, qos, 1, 2, 4, 4);
    WriteBitsFields(h, qos, 1, 2, 3, 1);
  }

  lemma WriteRetained(h: byte, retained: bool, packetType: byte, dup: bool, qos: byte)
    requires HeaderSays(h, packetType, dup, qos)
    ensures var w := WriteBits(h, BoolBit(retained), 0, 1);
            HeaderSays(w, packetType, dup, qos) && ReadBits(w, 0, 1) == BoolBit(retained)
  {
    WriteBitsFields(h, BoolBit(retained), 0, 1, 4, 4);
    WriteBitsFields(h, BoolBit(retained), 0, 1, 3, 1);
    WriteBitsFields(h, BoolBit(retained), 0, 1, 1, 2);
  }

  lemma PublishHeaderFields(dup: bool, qos: byte, retained: bool)
    requires qos < 4
    ensures var h := PublishHeader(dup, qos, retained);
            HeaderSays(h, PUBLISH, dup, qos) && ReadBits(h, 0, 1) == BoolBit(retained)
  {
    TypeField(PUBLISH);
    var h0 := WriteBits(0, PUBLISH, 4, 4);
    WriteDup(h0, dup);
    var h1 := WriteBits(h0, BoolBit(dup), 3, 1);
    WriteQoS(h1, qos, dup);
    WriteRetained(WriteBits(h1, qos, 1, 2), retained, PUBLISH, dup, qos);
  }

  // ---------- Frames ----------

  /** A frame is recognised, with its own length, whatever follows it. */
  lemma FrameHead(header: byte, body: seq<byte>, rest: seq<byte>)
    requires |body| < 0x1000_0000
    ensures var s := Frame(header, body) + rest;
      && FixedHeader(s, PacketType(header)) == Good(|Frame(header, body)| - |body|, |body|)
      && s[|Frame(header, body)| - |body|..|Frame(header, body)|] == body
  {
    var s := Frame(header, body) + rest;
    VarnumRoundTrip(|body|, body + rest);
    assert s[1..] == Varnum(|body|) + (body + rest);
  }

  lemma {:induction false} VarnumInjective(m: nat, n: nat)
    requires Varnum(m) == Varnum(n)
    ensures m == n
  {
    assert Varnum(m)[0] == Varnum(n)[0];
    if m >= 128 && n >= 128 {
      assert Varnum(m)[1..] == Varnum(m / 128) && Varnum(n)[1..] == Varnum(n / 128);
      VarnumInjective(m / 128, n / 128);
    }
  }

  /** Bytes with a length field are a frame exactly when the field is right. */
  lemma FrameIffLength(header: byte, rem: nat, body: seq<byte>)
    ensures [header] + Varnum(rem) + body == Frame(header, body) <==> rem == |body|
  {
    var s, frame := [header] + Varnum(rem) + body, Frame(header, body);
    if s == frame {
      assert s[1..|s| - |body|] == Varnum(rem) && frame[1..|frame| - |body|] == Varnum(|body|);
      VarnumInjective(rem, |body|);
    }
  }

  /** CONNECT is written as a frame unless a password comes without a username. */
  lemma ConnectIsFrame(options: ConnectOptions, will: Option<Will>)
    requires options.Short() && (will.Some? ==> will.value.Short())
    ensures [WriteBits(0, CONNECT, 4, 4)] + Varnum(ConnectRem(options, will)) + ConnectBody(options, will)
            == Frame(WriteBits(0, CONNECT, 4, 4), ConnectBody(options, will))
            <==> !(options.username == [] && options.password != [])
  {
    ConnectDeclaresItsLength(options, will);
    FrameIffLength(WriteBits(0, CONNECT, 4, 4), ConnectRem(options, will), ConnectBody(options, will));
  }

  // ---------- PUBLISH ----------

  /** The encoded head and the payload sent after it form a frame exactly when the length sum fits
      a uint32_t. */
  lemma PublishIsFrame(dup: bool, packetId: nat, topic: seq<byte>, msg: Message)
    requires |topic| < U16 && packetId < U16
    ensures PublishHead(dup, packetId, topic, msg) + msg.payload
            == Frame(PublishHeader(dup, msg.qos, msg.retained), PublishBody(topic, msg.qos, packetId, msg.payload))
            <==> |PublishBody(topic, msg.qos, packetId, msg.payload)| < U32
  {
    var header, body := PublishHeader(dup, msg.qos, msg.retained), PublishBody(topic, msg.qos, packetId, msg.payload);
    PublishRemFits(packetId, topic, msg);
    SplitBodyIsFrame(header, PublishRem(topic, msg), Str(topic), PublishId(msg.qos, packetId), msg.payload);
  }

  lemma ModuloFits(x: nat)
    ensures x % U32 == x <==> x < U32
  {}

  lemma PublishRemFits(packetId: nat, topic: seq<byte>, msg: Message)
    requires |topic| < U16 && packetId < U16
    ensures var size := |PublishBody(topic, msg.qos, packetId, msg.payload)|;
            PublishRem(topic, msg) == size <==> size < U32
  {
    ModuloFits(|PublishBody(topic, msg.qos, packetId, msg.payload)|);
  }

  lemma SplitBodyIsFrame(header: byte, rem: nat, topic: seq<byte>, id: seq<byte>, payload: seq<byte>)
    ensures [header] + Varnum(rem) + topic + id + payload == Frame(header, topic + id + payload)
            <==> rem == |topic + id + payload|
  {
    assert [header] + Varnum(rem) + topic + id + payload == [header] + Varnum(rem) + (topic + id + payload);
    FrameIffLength(header, rem, topic + id + payload);
  }

  /** What the decoder reports for a published message; the id of a QoS 0 message is not sent. */
  function Received(dup: bool, packetId: nat, topic: seq<byte>, msg: Message): Publish {
    Publish(dup, if msg.qos > 0 then packetId else 0, topic, msg)
  }

  /** A meaning is read from at most one message. */
  lemma PublishMeansOne(s: seq<byte>, p: Publish, q: Publish)
    requires MeansPublish(s, p) && MeansPublish(s, q)
    ensures p == q
  {
    var Good(start, rem) := FixedHeader(s, PUBLISH);
    BodyMeansOne(p.msg.qos, p.topic, p.packetId, p.msg.payload, q.topic, q.packetId, q.msg.payload);
  }

  lemma BodyMeansOne(qos: byte, topic: seq<byte>, id: nat, payload: seq<byte>, topic': seq<byte>, id': nat, payload': seq<byte>)
    requires |topic| < U16 && |topic'| < U16 && id < U16 && id' < U16
    requires PublishBody(topic, qos, id, payload) == PublishBody(topic', qos, id', payload')
    ensures topic == topic' && payload == payload' && (qos > 0 ==> id == id')
  {
    var s, t := PublishBody(topic, qos, id, payload), PublishBody(topic', qos, id', payload');
    assert s[0] == |topic| / 256 && t[0] == |topic'| / 256 && s[1] == |topic| % 256 && t[1] == |topic'| % 256;
    var k := 2 + |topic|;
    assert topic == s[2..k] && topic' == t[2..k];
    if qos > 0 {
      assert s[k] == id / 256 && t[k] == id' / 256 && s[k + 1] == id % 256 && t[k + 1] == id' % 256;
      assert payload == s[k + 2..] && payload' == t[k + 2..];
    } else {
      assert payload == s[k..] && payload' == t[k..];
    }
  }

  lemma PublishBodyParses(topic: seq<byte>, qos: byte, packetId: nat, payload: seq<byte>)
    requires |topic| < U16 && packetId < U16
    ensures PublishBodyError(PublishBody(topic, qos, packetId, payload), qos) == Success
  {
    var body := PublishBody(topic, qos, packetId, payload);
    assert body[0] == |topic| / 256 && body[1] == |topic| % 256;
  }

  /** A message that fits one frame comes back whole, whatever follows it in the buffer, exactly
      when its QoS is a level that MQTT defines. */
  lemma PublishRoundTrip(dup: bool, packetId: nat, topic: seq<byte>, msg: Message, rest: seq<byte>)
    requires |topic| < U16 && packetId < U16
    requires |PublishBody(topic, msg.qos, packetId, msg.payload)| < 0x1000_0000
    ensures var s := PublishHead(dup, packetId, topic, msg) + msg.payload + rest;
            PublishError(s) == Success && MeansPublish(s, Received(dup, packetId, topic, msg)) <==> msg.qos <= 2
  {
    var s := PublishHead(dup, packetId, topic, msg) + msg.payload + rest;
    if msg.qos <= 2 {
      var header, body := PublishHeader(dup, msg.qos, msg.retained), PublishBody(topic, msg.qos, packetId, msg.payload);
      PublishIsFrame(dup, packetId, topic, msg);
      PublishHeaderFields(dup, msg.qos, msg.retained);
      FrameHead(header, body, rest);
      PublishBodyParses(topic, msg.qos, packetId, msg.payload);
      assert s[0] == header;
    }
  }

  // ---------- Acknowledgements ----------

  /** An acknowledgement is decoded to its packet id, whatever follows it. */
  lemma AckRoundTrip(packetType: byte, packetId: nat, rest: seq<byte>)
    requires packetType < 16 && packetId < U16
    ensures var s := Frame(AckHeader(packetType), Num(packetId)) + rest;
      && AckError(s, packetType) == Success
      && var start := FixedHeader(s, packetType).start; s[start..start + 2] == Num(packetId)
  {
    AckHeaderFields(packetType);
    FrameHead(AckHeader(packetType), Num(packetId), rest);
  }

  // ---------- Decoding looks at the framed bytes only ----------

  /** The length of the frame that `s` starts with: header, length field, declared length. */
  function FrameLen(s: seq<byte>): Option<nat> {
    if |s| < 1 then None
    else match ParseVarnum(s[1..])
      case Done(rem, len) => Some(1 + len + rem)
      case _ => None
  }

  /** `s` and `t` start with the same frame and may differ after it. */
  predicate SameFrame(s: seq<byte>, t: seq<byte>) {
    FrameLen(s).Some? && var n := FrameLen(s).value; n <= |s| && n <= |t| && s[..n] == t[..n]
  }

  lemma SamePart(s: seq<byte>, t: seq<byte>, n: nat, i: nat, j: nat)
    requires i <= j <= n <= |s| && n <= |t| && s[..n] == t[..n]
    ensures s[i..j] == t[i..j]
  {
    SliceOfPrefix(s, n, i, j);
    SliceOfPrefix(t, n, i, j);
  }

  lemma SameFrameHead(s: seq<byte>, t: seq<byte>, packetType: nat)
    requires SameFrame(s, t)
    ensures FixedHeader(s, packetType) == FixedHeader(t, packetType) && s[0] == t[0]
    ensures FixedHeader(s, packetType).Good? ==>
      var Good(start, rem) := FixedHeader(s, packetType);
      start + rem == FrameLen(s).value && s[start..start + rem] == t[start..start + rem]
  {
    var n := FrameLen(s).value;
    var r := ParseVarnum(s[1..]);
    VarnumShortest(s[1..]);
    assert s[0] == s[..n][0] == t[0];
    SamePart(s, t, n, 1, 1 + r.len);
    DropDrop(s, 1, r.len);
    DropDrop(t, 1, r.len);
    VarnumLocal(s[1..], t[1..]);
    SamePart(s, t, n, 1 + r.len, n);
  }

  lemma SubackIsLocal(s: seq<byte>, t: seq<byte>, maxCount: nat)
    requires SameFrame(s, t)
    ensures SubackError(s, maxCount) == SubackError(t, maxCount) && SubackStored(s, maxCount) == SubackStored(t, maxCount)
  {
    SameFrameHead(s, t, SUBACK);
  }

  lemma PublishIsLocal(s: seq<byte>, t: seq<byte>)
    requires SameFrame(s, t)
    ensures PublishError(s) == PublishError(t) && forall p :: MeansPublish(s, p) <==> MeansPublish(t, p)
  {
    SameFrameHead(s, t, PUBLISH);
  }

  /** CONNACK, the acknowledgements, PUBLISH and SUBACK are decoded from the framed bytes alone: the
      error is the same whatever stale bytes follow, and so are the bytes the results are read from. */
  lemma DecodingIsLocal(s: seq<byte>, t: seq<byte>, packetType: nat, maxCount: nat)
    requires SameFrame(s, t)
    ensures ConnackError(s) == ConnackError(t)
    ensures AckError(s, packetType) == AckError(t, packetType)
    ensures PublishError(s) == PublishError(t)
    ensures SubackError(s, maxCount) == SubackError(t, maxCount) && SubackStored(s, maxCount) == SubackStored(t, maxCount)
    ensures forall p :: MeansPublish(s, p) <==> MeansPublish(t, p)
    ensures FixedHeader(s, packetType).Good? ==>
      var Good(start, rem) := FixedHeader(s, packetType);
      FixedHeader(t, packetType) == Good(start, rem) && s[start..start + rem] == t[start..start + rem]
  {
    SameFrameHead(s, t, CONNACK);
    SameFrameHead(s, t, packetType);
    PublishIsLocal(s, t);
    SubackIsLocal(s, t, maxCount);
  }

  // ---------- SUBACK ----------

  /** One code goes past an array of `maxCount` codes exactly when that many codes and one more are
      declared and that many bytes are in the buffer, whether or not the packet is accepted. */
  lemma SubackOverrunsIff(s: seq<byte>, maxCount: nat)
    ensures SubackStored(s, maxCount) <= maxCount + 1
    ensures SubackStored(s, maxCount) > maxCount <==>
      match FixedHeader(s, SUBACK)
      case Bad(_) => false
      case Good(start, rem) => rem >= maxCount + 3 && |s| >= start + maxCount + 3
  {}

  /** On a whole SUBACK: it is accepted with up to maxCount + 1 codes, and the store past the array
      happens with maxCount + 1 codes or more, so every overflow that is reported has done it too. */
  lemma SubackAcceptsOneMore(f: seq<byte>, maxCount: nat)
    requires FrameLen(f) == Some(|f|) && PacketType(f[0]) == SUBACK
    ensures var rem, err, past := FixedHeader(f, SUBACK).rem, SubackError(f, maxCount), SubackStored(f, maxCount) > maxCount;
      && (err == Success <==> 3 <= rem <= maxCount + 3)
      && (past <==> rem >= maxCount + 3)
      && (err == Success && past <==> rem == maxCount + 3)
      && (err != Success && past <==> err == SubackArrayOverflow)
  {
    SubackOverrunsIff(f, maxCount);
    VarnumShortest(f[1..]);
  }

  /** Two codes for one filter are accepted, three are refused, and both times the second is stored. */
  lemma SubackOverrunExamples()
    ensures SubackError([144, 4, 0, 1, 0, 0], 1) == Success && SubackStored([144, 4, 0, 1, 0, 0], 1) == 2
    ensures SubackError([144, 5, 0, 1, 0, 0, 0], 1) == SubackArrayOverflow && SubackStored([144, 5, 0, 1, 0, 0, 0], 1) == 2
  {
    var s: seq<byte>, t: seq<byte> := [144, 4, 0, 1, 0, 0], [144, 5, 0, 1, 0, 0, 0];
    assert s[1..][0] == 4 && t[1..][0] == 5;
    assert ReadBits(144, 4, 4) == 9;
  }
}

/** The packets byte by byte: what the functions of Packet and Client come to in the numbers that
    chapters 2 and 3 of MQTT 3.1.1 print. */
module PacketBytes {
  import opened Arithmetic
  import opened Sequences
  import opened Helpers
  import opened Packet
  import opened PacketProperties
  import opened Client
  import opened Broker

  // ---------- Numbers ----------

  /** A 16-bit number goes out with its most significant byte first. */
  lemma NumBytes(high: byte, low: byte)
    ensures Num(256 * (high as int) + low) == [high, low]
  {}

  lemma VarnumMore(n: nat)
    ensures Varnum(n) == if n < 128 then [n] else [n % 128 + 128] + Varnum(n / 128)
  {}

  lemma TwoBytes(n: nat)
    requires 128 <= n < 16384
    ensures Varnum(n) == [n % 128 + 128, n / 128]
  {
    VarnumMore(n / 128);
  }

  lemma ThreeBytes(n: nat)
    requires 16384 <= n < 2097152
    ensures Varnum(n) == [n % 128 + 128, n / 128 % 128 + 128, n / 16384]
  {
    var q := n / 128;
    assert q / 128 == n / 16384;
    VarnumMore(n);
    TwoBytes(q);
  }

  lemma FourBytes(n: nat)
    requires 2097152 <= n < 0x1000_0000
    ensures Varnum(n) == [n % 128 + 128, n / 128 % 128 + 128, n / 16384 % 128 + 128, n / 2097152]
  {
    var q := n / 128;
    assert q / 128 == n / 16384;
    assert q / 16384 == n / 2097152;
    VarnumMore(n);
    ThreeBytes(q);
  }

  /** Seven bits a byte, the least significant first, with bit 7 on all but the last. */
  lemma VarnumBytes(n: nat)
    ensures n < 128 ==> Varnum(n) == [n]
    ensures 128 <= n < 16384 ==> Varnum(n) == [n % 128 + 128, n / 128]
    ensures 16384 <= n < 2097152 ==> Varnum(n) == [n % 128 + 128, n / 128 % 128 + 128, n / 16384]
    ensures 2097152 <= n < 0x1000_0000 ==>
      Varnum(n) == [n % 128 + 128, n / 128 % 128 + 128, n / 16384 % 128 + 128, n / 2097152]
  {
    if 128 <= n < 16384 { TwoBytes(n); }
    if 16384 <= n < 2097152 { ThreeBytes(n); }
    if 2097152 <= n < 0x1000_0000 { FourBytes(n); }
  }

  /** Up to four bytes are read; a fifth is asked for before the number is called too long. */
  lemma ParseVarnumBytes(s: seq<byte>)
    ensures ParseVarnum(s) ==
      if |s| < 1 then TooShort else if s[0] < 128 then Done(s[0], 1)
      else if |s| < 2 then TooShort else if s[1] < 128 then Done(s[0] - 128 + 128 * (s[1] as int), 2)
      else if |s| < 3 then TooShort else if s[2] < 128 then Done(s[0] - 128 + 128 * (s[1] as int - 128) + 16384 * (s[2] as int), 3)
      else if |s| < 4 then TooShort
      else if s[3] < 128 then Done(s[0] - 128 + 128 * (s[1] as int - 128) + 16384 * (s[2] as int - 128) + 2097152 * (s[3] as int), 4)
      else if |s| < 5 then TooShort else Overflow
  {
    if |s| > 1 && s[0] >= 128 {
      assert VarnumAt(s, 0) == VarnumAt(s, 1).Behind(s[0] - 128, 128, 1);
      if |s| > 2 && s[1] >= 128 {
        assert VarnumAt(s, 1) == VarnumAt(s, 2).Behind(s[1] - 128, 128, 1);
        if |s| > 3 && s[2] >= 128 {
          assert VarnumAt(s, 2) == VarnumAt(s, 3).Behind(s[2] - 128, 128, 1);
          if s[3] >= 128 { assert VarnumAt(s, 3) == VarnumAt(s, 4).Behind(s[3] - 128, 128, 1); }
        }
      }
    }
  }

  // ---------- Header bytes ----------

  /** A field of value `v` in bits 2 and 1. */
  lemma AddField(h: byte, v: byte)
    requires v < 4 && ReadBits(h, 0, 4) == 0
    ensures WriteBits(h, v, 1, 2) == h + 2 * v
  {
    LowBitsZero(h);
    WriteBitsFields(h, v, 1, 2, 4, 4);
    WriteBitsFields(h, v, 1, 2, 3, 1);
    WriteBitsFields(h, v, 1, 2, 0, 1);
    FromBits(WriteBits(h, v, 1, 2));
  }

  lemma AckFirstByte(packetType: byte)
    requires packetType < 16
    ensures AckHeader(packetType) == 16 * packetType + if packetType == PUBREL then 2 else 0
  {
    PlainHeader(packetType);
    AddField(WriteBits(0, packetType, 4, 4), if packetType == PUBREL then 1 else 0);
  }

  lemma SubscribeFirstByte(packetType: byte)
    requires packetType < 16
    ensures SubscribeHeader(packetType) == 16 * packetType + 2
  {
    PlainHeader(packetType);
    AddField(WriteBits(0, packetType, 4, 4), 1);
  }

  /** The first bytes of the packets without flags of their own: CONNECT, PINGREQ, DISCONNECT, PUBACK,
      PUBREC, PUBREL, PUBCOMP, SUBSCRIBE and UNSUBSCRIBE. */
  lemma FirstBytes()
    ensures WriteBits(0, CONNECT, 4, 4) == 0x10 && WriteBits(0, PINGREQ, 4, 4) == 0xC0 && WriteBits(0, DISCONNECT, 4, 4) == 0xE0
    ensures AckHeader(PUBACK) == 0x40 && AckHeader(PUBREC) == 0x50 && AckHeader(PUBREL) == 0x62 && AckHeader(PUBCOMP) == 0x70
    ensures SubscribeHeader(SUBSCRIBE) == 0x82 && SubscribeHeader(UNSUBSCRIBE) == 0xA2
  {
    PlainHeader(CONNECT);
    PlainHeader(PINGREQ);
    PlainHeader(DISCONNECT);
    AckFirstByte(PUBACK);
    AckFirstByte(PUBREC);
    AckFirstByte(PUBREL);
    AckFirstByte(PUBCOMP);
    SubscribeFirstByte(SUBSCRIBE);
    SubscribeFirstByte(UNSUBSCRIBE);
  }

  lemma PublishFirstByte(dup: bool, qos: byte, retained: bool)
    requires qos < 4
    ensures PublishHeader(dup, qos, retained) == 0x30 + (if dup then 8 else 0) + 2 * qos + if retained then 1 else 0
  {
    PublishHeaderFields(dup, qos, retained);
    FromBits(PublishHeader(dup, qos, retained));
  }

  /** The packets a client takes: CONNACK, PUBLISH, the four of an exchange, SUBACK, UNSUBACK and PINGRESP. */
  lemma ReceivableBytes(h: byte)
    ensures Receivable(PacketType(h)) <==>
      0x20 <= h < 0x80 || 0x90 <= h < 0xA0 || 0xB0 <= h < 0xC0 || 0xD0 <= h < 0xE0
  {
    HeaderBits(h);
  }

  // ---------- What is read ----------

  /** Where the body of a packet begins. */
  function BodyAt(f: seq<byte>): nat
    requires |f| >= 2
  {
    if f[1] < 128 then 2 else if |f| < 3 || f[2] < 128 then 3 else if |f| < 4 || f[3] < 128 then 4 else 5
  }

  lemma BodyBegins(f: seq<byte>, packetType: nat)
    requires IsPacket(f) && PacketType(f[0]) == packetType
    ensures BodyAt(f) <= |f| && FixedHeader(f, packetType) == Good(BodyAt(f), |f| - BodyAt(f))
  {
    VarnumShortest(f[1..]);
    ParseVarnumBytes(f[1..]);
  }

  /** An answer in bytes. */
  lemma AckBytes(packetType: byte, h: byte, l: byte, id: nat, wire: seq<byte>)
    requires packetType < 16 && id == 256 * (h as int) + l && wire == Frame(AckHeader(packetType), Num(id))
    ensures wire == [16 * packetType + if packetType == PUBREL then 2 else 0, 2, h, l]
  {
    AckFirstByte(packetType);
    NumBytes(h, l);
    VarnumMore(2);
  }

  /** The id of an acknowledgement is its last two bytes. */
  lemma AckIdBytes(f: seq<byte>, packetType: nat)
    requires IsPacket(f) && PacketType(f[0]) == packetType && AckError(f, packetType) == Success
    ensures |f| >= 4 && AckId(f, packetType) == 256 * (f[|f| - 2] as int) + f[|f| - 1]
  {
    BodyBegins(f, packetType);
  }

  /** The service level in the first byte of a PUBLISH. */
  function Level(h: byte): byte {
    if h / 2 % 4 == 3 then 0 else h / 2 % 4
  }

  /** Where the topic ends that a PUBLISH begins with. */
  function TopicEnd(f: seq<byte>): nat
    requires |f| >= 2 && BodyAt(f) + 2 <= |f|
  {
    BodyAt(f) + 2 + 256 * (f[BodyAt(f)] as int) + f[BodyAt(f) + 1]
  }

  /** The parts of a PUBLISH: a topic behind its length, an id when the level asks for one, and the payload. */
  lemma PublishBytes(f: seq<byte>)
    requires IsPacket(f) && PacketType(f[0]) == PUBLISH && PublishError(f) == Success
    ensures BodyAt(f) + 2 <= |f| && TopicEnd(f) + (if Level(f[0]) > 0 then 2 else 0) <= |f|
    ensures var b, t, level := BodyAt(f), TopicEnd(f), Level(f[0]);
      Meaning(f) == Publish(f[0] / 8 % 2 == 1, if level > 0 then 256 * (f[t] as int) + f[t + 1] else 0, f[b + 2..t],
                            Message(level, f[0] % 2 == 1, f[if level > 0 then t + 2 else t..]))
  {
    HeaderMeans(f);
    BodyMeans(f);
  }

  lemma HeaderMeans(f: seq<byte>)
    requires IsPacket(f) && PacketType(f[0]) == PUBLISH && PublishError(f) == Success
    ensures var p := Meaning(f);
      p.dup == (f[0] / 8 % 2 == 1) && p.msg.qos == Level(f[0]) && p.msg.retained == (f[0] % 2 == 1) && (p.msg.qos == 0 ==> p.packetId == 0)
  {
    HeaderBits(f[0]);
  }

  lemma BodyMeans(f: seq<byte>)
    requires IsPacket(f) && PacketType(f[0]) == PUBLISH && PublishError(f) == Success
    ensures var p := Meaning(f);
      && BodyAt(f) + 2 <= |f| && TopicEnd(f) + (if p.msg.qos > 0 then 2 else 0) <= |f|
      && var t := TopicEnd(f);
         && p.topic == f[BodyAt(f) + 2..t]
         && p.msg.payload == f[if p.msg.qos > 0 then t + 2 else t..]
         && (p.msg.qos > 0 ==> p.packetId == 256 * (f[t] as int) + f[t + 1])
  {
    BodyBegins(f, PUBLISH);
    var b, p := BodyAt(f), Meaning(f);
    assert f[b..|f|] == f[b..];
    PartsOf(f, b, p);
  }

  lemma PartsOf(f: seq<byte>, b: nat, p: Publish)
    requires b <= |f| && |p.topic| < U16 && p.packetId < U16
    requires f[b..] == PublishBody(p.topic, p.msg.qos, p.packetId, p.msg.payload)
    ensures b + 2 <= |f|
    ensures var t := b + 2 + 256 * (f[b] as int) + f[b + 1];
      && t + (if p.msg.qos > 0 then 2 else 0) <= |f| && p.topic == f[b + 2..t]
      && p.msg.payload == f[if p.msg.qos > 0 then t + 2 else t..]
      && (p.msg.qos > 0 ==> p.packetId == 256 * (f[t] as int) + f[t + 1])
  {
    BodyParts(f[b..], p);
    PartsInPlace(f, b, p.msg.qos > 0);
  }

  /** Parts of the body are parts of the packet. */
  lemma PartsInPlace(f: seq<byte>, b: nat, withId: bool)
    requires b + 2 <= |f|
    ensures var body := f[b..]; var t := 2 + 256 * (body[0] as int) + body[1];
      && body[0] == f[b] && body[1] == f[b + 1] && (t <= |body| ==> body[2..t] == f[b + 2..b + t])
      && (withId && t + 2 <= |body| ==> body[t] == f[b + t] && body[t + 1] == f[b + t + 1] && body[t + 2..] == f[b + t + 2..])
      && (!withId && t <= |body| ==> body[t..] == f[b + t..])
  {}

  lemma BodyParts(body: seq<byte>, p: Publish)
    requires |p.topic| < U16 && p.packetId < U16 && body == PublishBody(p.topic, p.msg.qos, p.packetId, p.msg.payload)
    ensures |body| >= 2
    ensures var t := 2 + 256 * (body[0] as int) + body[1];
      && t + (if p.msg.qos > 0 then 2 else 0) <= |body| && p.topic == body[2..t]
      && (p.msg.qos > 0 ==> p.packetId == 256 * (body[t] as int) + body[t + 1])
      && p.msg.payload == body[if p.msg.qos > 0 then t + 2 else t..]
  {
    var k := 2 + |p.topic|;
    assert body[0] == |p.topic| / 256 && body[1] == |p.topic| % 256;
    assert p.topic == body[2..k];
    if p.msg.qos > 0 {
      assert body[k] == p.packetId / 256 && body[k + 1] == p.packetId % 256;
      assert p.msg.payload == body[k + 2..];
    } else {
      assert p.msg.payload == body[k..];
    }
  }

  /** Four kinds of packets are answered: a PUBLISH of level 1 with PUBACK and of level 2 with PUBREC, under
      the two bytes behind its topic, and PUBREC and PUBREL with PUBREL and PUBCOMP, under the two bytes that
      they end with. */
  lemma ReplyBytes(f: seq<byte>)
    requires IsPacket(f) && Handled(f)
    ensures f[0] / 16 == 3 ==>
      && BodyAt(f) + 2 <= |f| && (Level(f[0]) == 0 ==> Reply(f) == [])
      && var t := TopicEnd(f);
         Level(f[0]) > 0 ==> t + 2 <= |f| && Reply(f) == [if Level(f[0]) == 1 then 0x40 else 0x50, 2, f[t], f[t + 1]]
    ensures f[0] / 16 == 5 ==> |f| >= 4 && Reply(f) == [0x62, 2, f[|f| - 2], f[|f| - 1]]
    ensures f[0] / 16 == 6 ==> |f| >= 4 && Reply(f) == [0x70, 2, f[|f| - 2], f[|f| - 1]]
    ensures f[0] / 16 != 3 && f[0] / 16 != 5 && f[0] / 16 != 6 ==> Reply(f) == []
  {
    HeaderBits(f[0]);
    var t := PacketType(f[0]);
    if t == PUBLISH {
      PublishAnswered(f);
    } else if t == PUBREC || t == PUBREL {
      AckIdBytes(f, t);
      ReplyInBytes(f, AnswerType(t, 0), f[|f| - 2], f[|f| - 1]);
    }
  }

  lemma PublishAnswered(f: seq<byte>)
    requires IsPacket(f) && Handled(f) && PacketType(f[0]) == PUBLISH
    ensures BodyAt(f) + 2 <= |f| && (Level(f[0]) == 0 ==> Reply(f) == [])
    ensures var t := TopicEnd(f);
      Level(f[0]) > 0 ==> t + 2 <= |f| && Reply(f) == [if Level(f[0]) == 1 then 0x40 else 0x50, 2, f[t], f[t + 1]]
  {
    PublishBytes(f);
    var t, level := TopicEnd(f), Level(f[0]);
    if level > 0 { ReplyInBytes(f, AnswerType(PUBLISH, level), f[t], f[t + 1]); }
  }

  lemma ReplyInBytes(f: seq<byte>, answer: byte, h: byte, l: byte)
    requires IsPacket(f) && Handled(f) && NO_PACKET < answer < 16
    requires var t := PacketType(f[0]);
      && answer == AnswerType(t, if t == PUBLISH then Meaning(f).msg.qos else 0)
      && 256 * (h as int) + l == if t == PUBLISH then Meaning(f).packetId else AckId(f, t)
    ensures Reply(f) == [16 * answer + if answer == PUBREL then 2 else 0, 2, h, l]
  {
    var id := 256 * (h as int) + l;
    ReplyIs(f, answer, id);
    AckBytes(answer, h, l, id, Reply(f));
  }

  lemma ReplyIs(f: seq<byte>, answer: byte, id: nat)
    requires IsPacket(f) && Handled(f) && answer != NO_PACKET && id < U16
    requires var t := PacketType(f[0]);
      && answer == AnswerType(t, if t == PUBLISH then Meaning(f).msg.qos else 0)
      && id == if t == PUBLISH then Meaning(f).packetId else AckId(f, t)
    ensures Reply(f) == Frame(AckHeader(answer), Num(id))
  {}

  /** The callback gets one message for a PUBLISH, the one that PublishBytes reads, and none for others. */
  lemma DeliveryBytes(f: seq<byte>)
    requires IsPacket(f) && Handled(f)
    ensures Delivery(f) == if f[0] / 16 == 3 then [Meaning(f)] else []
  {
    HeaderBits(f[0]);
  }

  /** Why a whole packet of these kinds cannot be decoded: a CONNACK or an acknowledgement whose body is not
      two bytes, or a PUBLISH whose topic or id does not fit its body. */
  lemma ErrorBytes(f: seq<byte>)
    requires IsPacket(f)
    ensures PacketType(f[0]) == CONNACK ==> ConnackError(f) == if |f| - BodyAt(f) == 2 then Success else RemainingLengthMismatch
    ensures AckError(f, PacketType(f[0])) == if |f| - BodyAt(f) == 2 then Success else RemainingLengthMismatch
    ensures PacketType(f[0]) == PUBLISH ==>
      PublishError(f) == if |f| < BodyAt(f) + 2 then RemainingLengthMismatch
                         else if |f| < TopicEnd(f) + (if Level(f[0]) > 0 then 2 else 0) then BufferTooShort
                         else Success
  {
    HeaderBits(f[0]);
    BodyBegins(f, PacketType(f[0]));
    var b := BodyAt(f);
    if PacketType(f[0]) == PUBLISH { assert f[b..|f|] == f[b..]; }
  }

  /** What a cycle makes of a whole packet: only a PUBLISH, PUBREC or PUBREL is decoded, so only they can be
      found wrong. */
  lemma ComplaintBytes(f: seq<byte>)
    requires IsPacket(f)
    ensures f[0] / 16 == 3 ==>
      Complaint(f) == if |f| < BodyAt(f) + 2 then RemainingLengthMismatch
                      else if |f| < TopicEnd(f) + (if Level(f[0]) > 0 then 2 else 0) then BufferTooShort
                      else Success
    ensures f[0] / 16 == 5 || f[0] / 16 == 6 ==>
      Complaint(f) == if |f| == BodyAt(f) + 2 then Success else RemainingLengthMismatch
    ensures f[0] / 16 != 3 && f[0] / 16 != 5 && f[0] / 16 != 6 ==> Complaint(f) == Success
    ensures Handled(f) <==> Complaint(f) == Success
  {
    HeaderBits(f[0]);
    ErrorBytes(f);
  }

  /** A CONNACK ends with its flags, of which bit 0 counts, and the return code. */
  lemma ConnackBytes(f: seq<byte>, sessionPresent: bool, returnCode: nat)
    requires IsPacket(f) && f[0] / 16 == 2
    ensures ConnackSays(f, sessionPresent, returnCode) <==>
      && |f| == BodyAt(f) + 2
      && sessionPresent == (f[|f| - 2] % 2 == 1) && returnCode == if f[|f| - 1] <= 5 then f[|f| - 1] else 6
  {
    HeaderBits(f[0]);
    ErrorBytes(f);
    BodyBegins(f, CONNACK);
  }

  /** The codes of a SUBACK stand behind its id. */
  function Codes(f: seq<byte>): seq<byte>
    requires |f| >= 2
  {
    if BodyAt(f) + 2 <= |f| then f[BodyAt(f) + 2..] else []
  }

  /** Subscribing fails when there is no code, one more than two too many, or one above 2; otherwise every
      level was granted. */
  lemma SubackBytes(f: seq<byte>, count: nat)
    requires IsPacket(f) && f[0] / 16 == 9
    ensures SubackOutcome(f, count) == if Codes(f) == [] then RemainingLengthMismatch
                                       else if |Codes(f)| > count + 1 then SubackArrayOverflow
                                       else if forall i | 0 <= i < |Codes(f)| :: Codes(f)[i] <= 2 then Success
                                       else FailedSubscription
    ensures SubackStored(f, count) == if |Codes(f)| > count + 1 then count + 1 else |Codes(f)|
  {
    HeaderBits(f[0]);
    BodyBegins(f, SUBACK);
    var b := BodyAt(f);
    if Codes(f) != [] {
      assert AllGranted(f) <==> forall i | b + 2 <= i < |f| :: f[i] <= 2;
      assert forall i | 0 <= i < |Codes(f)| :: Codes(f)[i] == f[b + 2 + i];
      assert forall i | b + 2 <= i < |f| :: f[i] == Codes(f)[i - b - 2];
    }
  }

  /** A granted level is stored as it is, anything else as the failure code 0x80. */
  lemma GrantedBytes(raw: byte)
    ensures GrantedQoS(raw) == match raw case 0 => 0 case 1 => 1 case 2 => 2 case _ => 0x80
  {}

  // ---------- What is written ----------

  /** A PUBLISH of this size as it goes out, behind the first byte that PublishFirstByte tells. */
  lemma PublishWireBytes(first: byte, size: nat, dup: bool, id: nat, topic: seq<byte>, msg: Message)
    requires |topic| < U16 && id < U16 && first == PublishHeader(dup, msg.qos, msg.retained)
    requires size == 2 + |topic| + |msg.payload| + (if msg.qos > 0 then 2 else 0) < U32
    ensures PublishHead(dup, id, topic, msg)
         == [first] + Varnum(size) + [|topic| / 256, |topic| % 256] + topic + if msg.qos > 0 then [id / 256, id % 256] else []
  {
    RemIs(size, topic, msg);
    HeadParts([first] + Varnum(size), topic, msg.qos, id);
  }

  lemma RemIs(size: nat, topic: seq<byte>, msg: Message)
    requires size == 2 + |topic| + |msg.payload| + (if msg.qos > 0 then 2 else 0) < U32
    ensures PublishRem(topic, msg) == size
  {
    SmallModulo(size);
  }

  lemma HeadParts(front: seq<byte>, topic: seq<byte>, qos: byte, id: nat)
    requires |topic| < U16 && id < U16
    ensures front + Str(topic) + PublishId(qos, id)
         == front + [|topic| / 256, |topic| % 256] + topic + if qos > 0 then [id / 256, id % 256] else []
  {
    Assoc(front, Num(|topic|), topic);
  }

  /** One more topic filter: its length, its text, and in a SUBSCRIBE its level. */
  lemma FilterWireBytes(filters: seq<Filter>, f: Filter)
    requires ShortTopics(filters) && |f.topic| < U16
    ensures FilterBytes(filters + [f])
         == FilterBytes(filters) + [|f.topic| / 256, |f.topic| % 256] + f.topic + if f.qos.Some? then [f.qos.value] else []
  {
    assert (filters + [f])[..|filters|] == filters;
    Assoc(FilterBytes(filters), Num(|f.topic|), f.topic);
    Assoc(FilterBytes(filters), Str(f.topic), if f.qos.Some? then [f.qos.value] else []);
  }

  /** Why a list of filters is refused: its length is 268435455 or more, one below the bound for four bytes, or
      header, length field and list do not fit the buffer. */
  lemma FiltersErrorBytes(id: nat, filters: seq<Filter>, size: nat, room: nat)
    requires id < U16 && ShortTopics(filters) && size == |FiltersBody(id, filters)| < U32
    ensures FiltersError(id, filters, room)
         == if size >= 0x0FFF_FFFF then RemainingLengthOverflow
            else if room < size + (if size < 128 then 2 else if size < 16384 then 3 else if size < 2097152 then 4 else 5) then BufferTooShort
            else Success
  {
    SmallModulo(size);
    VarnumBytes(size);
  }

  // ---------- CONNECT ----------

  lemma FlagFields(b: byte)
    ensures ReadBits(b, 0, 1) == b % 2 && ReadBits(b, 1, 1) == b / 2 % 2 && ReadBits(b, 2, 1) == b / 4 % 2
    ensures ReadBits(b, 3, 2) == b / 8 % 4 && ReadBits(b, 5, 1) == b / 32 % 2
    ensures ReadBits(b, 6, 1) == b / 64 % 2 && ReadBits(b, 7, 1) == b / 128 % 2
  {
    assert Pow2(0) == 1 && Pow2(1) == 2 && Pow2(2) == 4 && Pow2(3) == 8 && Pow2(5) == 32 && Pow2(6) == 64 && Pow2(7) == 128;
  }

  lemma Halves(b: nat)
    ensures b == 2 * (b / 2) + b % 2 && b / 2 / 2 == b / 4
  {}

  lemma LowBits3(b: nat)
    ensures b == b % 2 + 2 * (b / 2 % 2) + 4 * (b / 4 % 2) + 8 * (b / 8)
  {
    var x, y := b / 2, b / 4;
    Halves(b);
    Halves(x);
    Halves(y);
  }

  lemma HighBits5(x: nat)
    requires x < 32
    ensures x == x % 4 + 4 * (x / 4 % 2) + 8 * (x / 8 % 2) + 16 * (x / 16 % 2)
  {
    var y, z := x / 4, x / 8;
    assert x == 4 * y + x % 4;
    Halves(x / 2);
    Halves(y);
    Halves(z);
  }

  lemma Recomposed(b: nat)
    requires b < 256
    ensures b == b % 2 + 2 * (b / 2 % 2) + 4 * (b / 4 % 2) + 8 * (b / 8 % 4) + 32 * (b / 32 % 2) + 64 * (b / 64 % 2) + 128 * (b / 128 % 2)
  {
    var x := b / 8;
    assert x / 4 == b / 32 && x / 8 == b / 64 && x / 16 == b / 128;
    LowBits3(b);
    HighBits5(x);
  }

  lemma FlagBits(b: byte)
    ensures b == ReadBits(b, 0, 1) + 2 * ReadBits(b, 1, 1) + 4 * ReadBits(b, 2, 1) + 8 * ReadBits(b, 3, 2)
              + 32 * ReadBits(b, 5, 1) + 64 * ReadBits(b, 6, 1) + 128 * ReadBits(b, 7, 1)
  {
    FlagFields(b);
    Recomposed(b);
  }

  lemma WillKeepsBit0(b: byte, will: Option<Will>)
    requires will.Some? ==> will.value.qos < 4
    ensures ReadBits(WillFlags(b, will), 0, 1) == ReadBits(b, 0, 1)
  {
    if will.Some? {
      WriteBitsFields(b, 1, 2, 1, 0, 1);
      var b1 := WriteBits(b, 1, 2, 1);
      WriteBitsFields(b1, will.value.qos, 3, 2, 0, 1);
      WriteBitsFields(WriteBits(b1, will.value.qos, 3, 2), BoolBit(will.value.retained), 5, 1, 0, 1);
    }
  }

  lemma CredentialsKeepBit0(b: byte, options: ConnectOptions)
    ensures ReadBits(CredentialFlags(b, options), 0, 1) == ReadBits(b, 0, 1)
  {
    WriteBitsFields(b, 1, 7, 1, 0, 1);
    WriteBitsFields(b, 1, 6, 1, 0, 1);
    WriteBitsFields(WriteBits(b, 1, 7, 1), 1, 6, 1, 0, 1);
  }

  lemma CleanKeepsBit0(clean: bool)
    ensures ReadBits(CleanFlag(clean), 0, 1) == 0
  {
    WriteBitsFields(0, BoolBit(clean), 1, 1, 0, 1);
  }

  /** Clean session is bit 1; a will sets bit 2, its level in bits 3 and 4, and its retained flag in bit 5;
      a password sets bit 6, and a user name or a password bit 7. */
  lemma ConnectFlagsByte(options: ConnectOptions, will: Option<Will>)
    requires will.Some? ==> will.value.qos < 4
    ensures ConnectFlags(options, will)
         == (if options.cleanSession then 2 else 0)
            + (if will.Some? then 4 + 8 * will.value.qos + (if will.value.retained then 32 else 0) else 0)
            + (if options.password != [] then 64 else 0) + if options.username != [] || options.password != [] then 128 else 0
  {
    var b := CleanFlag(options.cleanSession);
    ConnectFlagsSay(options, will);
    CleanKeepsBit0(options.cleanSession);
    WillKeepsBit0(b, will);
    CredentialsKeepBit0(WillFlags(b, will), options);
    FlagBits(ConnectFlags(options, will));
  }

  /** The body of a CONNECT: "MQTT" behind its length, level 4, the flags that ConnectFlagsByte tells, keep
      alive, client id, topic and message of the will, user name, and password. */
  lemma ConnectBytes(flags: byte, options: ConnectOptions, will: Option<Will>)
    requires options.Short() && (will.Some? ==> will.value.Short()) && flags == ConnectFlags(options, will)
    ensures ConnectBody(options, will)
         == [0, 4, 'M' as int, 'Q' as int, 'T' as int, 'T' as int, 4, flags, options.keepAlive / 256, options.keepAlive % 256]
            + ([|options.clientId| / 256, |options.clientId| % 256] + options.clientId)
            + (if will.None? then []
               else [|will.value.topic| / 256, |will.value.topic| % 256] + will.value.topic
                    + ([|will.value.payload| / 256, |will.value.payload| % 256] + will.value.payload))
            + (if options.username == [] && options.password == [] then []
               else if options.username == [] then [0, 0]
               else [|options.username| / 256, |options.username| % 256] + options.username
                    + if options.password == [] then []
                      else [|options.password| / 256, |options.password| % 256] + options.password)
  {
    HeadBytes(flags, options.keepAlive);
    WillBytesAre(will);
    CredentialBytes(options);
  }

  lemma WillBytesAre(will: Option<Will>)
    requires will.Some? ==> will.value.Short()
    ensures WillBytes(will)
         == if will.None? then []
            else [|will.value.topic| / 256, |will.value.topic| % 256] + will.value.topic
                 + ([|will.value.payload| / 256, |will.value.payload| % 256] + will.value.payload)
  {}

  lemma CredentialBytes(options: ConnectOptions)
    requires options.Short()
    ensures options.Credentials()
         == if options.username == [] && options.password == [] then []
            else if options.username == [] then [0, 0]
            else [|options.username| / 256, |options.username| % 256] + options.username
                 + if options.password == [] then []
                   else [|options.password| / 256, |options.password| % 256] + options.password
  {}

  lemma HeadBytes(flags: byte, keepAlive: nat)
    requires keepAlive < U16
    ensures ConnectHead(flags, keepAlive)
         == [0, 4, 'M' as int, 'Q' as int, 'T' as int, 'T' as int, 4, flags, keepAlive / 256, keepAlive % 256]
  {}
}

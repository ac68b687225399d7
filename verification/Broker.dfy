/** How a server reads what the client writes, after sections 3.1, 3.8 and 3.10 of MQTT 3.1.1: an
    independent reading, against which the encoders of CONNECT, SUBSCRIBE and UNSUBSCRIBE are
    checked.  A field is taken off the front of the remaining bytes, or is missing. */
module Broker {
  import opened Sequences
  import opened Helpers
  import opened Packet
  import opened PacketProperties

  function TakeByte(s: seq<byte>): Option<(byte, seq<byte>)> {
    if s == [] then None else Some((s[0], s[1..]))
  }

  function TakeNum(s: seq<byte>): Option<(nat, seq<byte>)> {
    if |s| < 2 then None else Some((256 * (s[0] as int) + s[1], s[2..]))
  }

  function TakeStr(s: seq<byte>): Option<(seq<byte>, seq<byte>)> {
    if !StartsWithStr(s) then None
    else var n := 2 + 256 * (s[0] as int) + s[1]; Some((s[2..n], s[n..]))
  }

  /** A string that is present only when its flag is set. */
  function TakeIf(flag: bool, s: seq<byte>): Option<(seq<byte>, seq<byte>)> {
    if flag then TakeStr(s) else Some(([], s))
  }

  datatype Session = Session(
    clean: bool, keepAlive: nat, clientId: seq<byte>, will: Option<Will>,
    username: Option<seq<byte>>, password: Option<seq<byte>>)

  function Present(flag: bool, s: seq<byte>): Option<seq<byte>> { if flag then Some(s) else None }

  /** The payload of a CONNECT under its flags: client id, will topic, will message, user name and
      password, each flagged field in this order and nothing after them. */
  function ReadPayload(flags: byte, keepAlive: nat, s: seq<byte>): Option<Session> {
    var willFlag, userFlag, passFlag := ReadBits(flags, 2, 1) == 1, ReadBits(flags, 7, 1) == 1, ReadBits(flags, 6, 1) == 1;
    match TakeStr(s) case None => None case Some((clientId, s1)) =>
    match TakeIf(willFlag, s1) case None => None case Some((topic, s2)) =>
    match TakeIf(willFlag, s2) case None => None case Some((message, s3)) =>
    match TakeIf(userFlag, s3) case None => None case Some((username, s4)) =>
    match TakeIf(passFlag, s4) case None => None case Some((password, s5)) =>
    if s5 != [] then None
    else Some(Session(
      ReadBits(flags, 1, 1) == 1, keepAlive, clientId,
      if willFlag then Some(Will(topic, ReadBits(flags, 3, 2), ReadBits(flags, 5, 1) == 1, message)) else None,
      Present(userFlag, username), Present(passFlag, password)))
  }

  /** Protocol name "MQTT", level 4, flags, keep alive, payload. */
  function ReadConnect(body: seq<byte>): Option<Session> {
    match TakeStr(body) case None => None case Some((name, s1)) =>
    match TakeByte(s1) case None => None case Some((level, s2)) =>
    match TakeByte(s2) case None => None case Some((flags, s3)) =>
    match TakeNum(s3) case None => None case Some((keepAlive, s4)) =>
    if name != PROTOCOL || level != 4 then None else ReadPayload(flags, keepAlive, s4)
  }

  /** The session that the client asked for. */
  function Wanted(options: ConnectOptions, will: Option<Will>): Session {
    Session(options.cleanSession, options.keepAlive, options.clientId, will,
            Present(options.username != [] || options.password != [], options.username),
            Present(options.password != [], options.password))
  }

  lemma TakeWritten(s: seq<byte>, n: nat, rest: seq<byte>)
    requires |s| < U16 && n < U16
    ensures TakeStr(Str(s) + rest) == Some((s, rest))
    ensures TakeNum(Num(n) + rest) == Some((n, rest))
  {
    var t := Str(s) + rest;
    assert t[0] == |s| / 256 && t[1] == |s| % 256;
    assert t[2..2 + |s|] == s && t[2 + |s|..] == rest;
    assert (Num(n) + rest)[2..] == rest;
  }

  // ---------- The connect flags ----------

  datatype Flags = Flags(clean: nat, will: nat, qos: nat, retained: nat, password: nat, username: nat)

  function ReadFlags(b: byte): Flags {
    Flags(ReadBits(b, 1, 1), ReadBits(b, 2, 1), ReadBits(b, 3, 2), ReadBits(b, 5, 1), ReadBits(b, 6, 1), ReadBits(b, 7, 1))
  }

  lemma WriteLow(b: byte, clean: bool)
    ensures ReadFlags(WriteBits(b, BoolBit(clean), 1, 1)) == ReadFlags(b).(clean := BoolBit(clean))
  {
    var v := BoolBit(clean);
    WriteBitsFields(b, v, 1, 1, 2, 1); WriteBitsFields(b, v, 1, 1, 3, 2); WriteBitsFields(b, v, 1, 1, 5, 1);
    WriteBitsFields(b, v, 1, 1, 6, 1); WriteBitsFields(b, v, 1, 1, 7, 1);
  }

  lemma WriteWillFlag(b: byte)
    ensures ReadFlags(WriteBits(b, 1, 2, 1)) == ReadFlags(b).(will := 1)
  {
    WriteBitsFields(b, 1, 2, 1, 1, 1); WriteBitsFields(b, 1, 2, 1, 3, 2); WriteBitsFields(b, 1, 2, 1, 5, 1);
    WriteBitsFields(b, 1, 2, 1, 6, 1); WriteBitsFields(b, 1, 2, 1, 7, 1);
  }

  lemma WriteWillQoS(b: byte, qos: byte)
    requires qos < 4
    ensures ReadFlags(WriteBits(b, qos, 3, 2)) == ReadFlags(b).(qos := qos)
  {
    WriteBitsFields(b, qos, 3, 2, 1, 1); WriteBitsFields(b, qos, 3, 2, 2, 1); WriteBitsFields(b, qos, 3, 2, 5, 1);
    WriteBitsFields(b, qos, 3, 2, 6, 1); WriteBitsFields(b, qos, 3, 2, 7, 1);
  }

  lemma WriteWillRetained(b: byte, retained: bool)
    ensures ReadFlags(WriteBits(b, BoolBit(retained), 5, 1)) == ReadFlags(b).(retained := BoolBit(retained))
  {
    var v := BoolBit(retained);
    WriteBitsFields(b, v, 5, 1, 1, 1); WriteBitsFields(b, v, 5, 1, 2, 1); WriteBitsFields(b, v, 5, 1, 3, 2);
    WriteBitsFields(b, v, 5, 1, 6, 1); WriteBitsFields(b, v, 5, 1, 7, 1);
  }

  lemma WriteHigh(b: byte)
    ensures ReadFlags(WriteBits(b, 1, 7, 1)) == ReadFlags(b).(username := 1)
    ensures ReadFlags(WriteBits(b, 1, 6, 1)) == ReadFlags(b).(password := 1)
  {
    WriteBitsFields(b, 1, 7, 1, 1, 1); WriteBitsFields(b, 1, 7, 1, 2, 1); WriteBitsFields(b, 1, 7, 1, 3, 2);
    WriteBitsFields(b, 1, 7, 1, 5, 1); WriteBitsFields(b, 1, 7, 1, 6, 1);
    WriteBitsFields(b, 1, 6, 1, 1, 1); WriteBitsFields(b, 1, 6, 1, 2, 1); WriteBitsFields(b, 1, 6, 1, 3, 2);
    WriteBitsFields(b, 1, 6, 1, 5, 1); WriteBitsFields(b, 1, 6, 1, 7, 1);
  }

  lemma WillFlagsSay(b: byte, will: Will)
    requires will.qos < 4
    ensures ReadFlags(WillFlags(b, Some(will))) == ReadFlags(b).(will := 1, qos := will.qos, retained := BoolBit(will.retained))
  {
    WriteWillFlag(b);
    var b1 := WriteBits(b, 1, 2, 1);
    WriteWillQoS(b1, will.qos);
    WriteWillRetained(WriteBits(b1, will.qos, 3, 2), will.retained);
  }

  lemma CredentialFlagsSay(b: byte, options: ConnectOptions)
    requires ReadFlags(b).username == ReadFlags(b).password == 0
    ensures ReadFlags(CredentialFlags(b, options)) == ReadFlags(b).(
      username := if options.username != [] || options.password != [] then 1 else 0,
      password := if options.password != [] then 1 else 0)
  {
    WriteHigh(b);
    WriteHigh(WriteBits(b, 1, 7, 1));
  }

  function WantedFlags(options: ConnectOptions, will: Option<Will>): Flags {
    Flags(BoolBit(options.cleanSession), BoolBit(will.Some?),
          if will.Some? then will.value.qos else 0, BoolBit(will.Some? && will.value.retained),
          BoolBit(options.password != []), BoolBit(options.username != [] || options.password != []))
  }

  lemma FlagsAfterClean(b: byte, options: ConnectOptions, will: Option<Will>)
    requires will.Some? ==> will.value.qos < 4
    requires ReadFlags(b) == Flags(BoolBit(options.cleanSession), 0, 0, 0, 0, 0)
    ensures ReadFlags(CredentialFlags(WillFlags(b, will), options)) == WantedFlags(options, will)
  {
    if will.Some? { WillFlagsSay(b, will.value); }
    CredentialFlagsSay(WillFlags(b, will), options);
  }

  lemma ConnectFlagsSay(options: ConnectOptions, will: Option<Will>)
    requires will.Some? ==> will.value.qos < 4
    ensures ReadFlags(ConnectFlags(options, will)) == WantedFlags(options, will)
  {
    CleanFlagSays(options.cleanSession);
    FlagsAfterClean(CleanFlag(options.cleanSession), options, will);
  }

  lemma CleanFlagSays(clean: bool)
    ensures ReadFlags(CleanFlag(clean)) == Flags(BoolBit(clean), 0, 0, 0, 0, 0)
  {
    assert ReadFlags(0) == Flags(0, 0, 0, 0, 0, 0);
    WriteLow(0, clean);
  }

  // ---------- CONNECT ----------

  /** Every CONNECT with a will QoS in range is read back as the session the client asked for,
      exactly when no password comes without a username. */
  lemma ConnectRoundTrip(options: ConnectOptions, will: Option<Will>)
    requires options.Short() && (will.Some? ==> will.value.Short() && will.value.qos < 4)
    ensures ReadConnect(ConnectBody(options, will)) == Some(Wanted(options, will))
            <==> !(options.username == [] && options.password != [])
  {
    ConnectFlagsSay(options, will);
    FieldsRead(ConnectFlags(options, will), options, will);
  }

  lemma FieldsRead(flags: byte, options: ConnectOptions, will: Option<Will>)
    requires options.Short() && (will.Some? ==> will.value.Short() && will.value.qos < 4)
    requires ReadFlags(flags) == WantedFlags(options, will)
    ensures ReadConnect(ConnectFields(flags, options, will))
            == if options.username == [] && options.password != [] then None else Some(Wanted(options, will))
  {
    var payload := Str(options.clientId) + (WillBytes(will) + options.Credentials());
    Assoc(ConnectHead(flags, options.keepAlive), Str(options.clientId), WillBytes(will));
    Assoc(ConnectHead(flags, options.keepAlive), Str(options.clientId) + WillBytes(will), options.Credentials());
    Assoc(Str(options.clientId), WillBytes(will), options.Credentials());
    HeadRead(flags, options.keepAlive, payload);
    PayloadRead(flags, options, will);
  }

  lemma HeadRead(flags: byte, keepAlive: nat, payload: seq<byte>)
    requires keepAlive < U16
    ensures ReadConnect(ConnectHead(flags, keepAlive) + payload) == ReadPayload(flags, keepAlive, payload)
  {
    var s3 := Num(keepAlive) + payload;
    var s2 := [flags] + s3;
    var s1 := [4] + s2;
    assert ConnectHead(flags, keepAlive) + payload == Str(PROTOCOL) + s1;
    TakeWritten(PROTOCOL, keepAlive, s1);
    assert TakeByte(s1) == Some((4, s2)) by { assert s1[1..] == s2; }
    assert TakeByte(s2) == Some((flags, s3)) by { assert s2[1..] == s3; }
    TakeWritten(PROTOCOL, keepAlive, payload);
  }

  lemma WillRead(will: Option<Will>, rest: seq<byte>)
    requires will.Some? ==> will.value.Short()
    ensures var r := TakeIf(will.Some?, WillBytes(will) + rest);
      && r.Some? && (will.Some? ==> r.value.0 == will.value.topic)
      && TakeIf(will.Some?, r.value.1) == Some((if will.Some? then will.value.payload else [], rest))
  {
    if will.Some? {
      Assoc(Str(will.value.topic), Str(will.value.payload), rest);
      TakeWritten(will.value.topic, 0, Str(will.value.payload) + rest);
      TakeWritten(will.value.payload, 0, rest);
    } else {
      assert WillBytes(will) + rest == rest;
    }
  }

  lemma CredentialsRead(options: ConnectOptions)
    requires options.Short()
    ensures var r := TakeIf(options.username != [] || options.password != [], options.Credentials());
      && r.Some? && r.value.0 == options.username
      && TakeIf(options.password != [], r.value.1)
         == if options.username == [] && options.password != [] then None else Some((options.password, []))
  {
    var tail: seq<byte> := if options.username != [] && options.password != [] then Str(options.password) else [];
    if options.username != [] || options.password != [] {
      assert options.Credentials() == Str(options.username) + tail;
      TakeWritten(options.username, 0, tail);
    } else {
      assert options.Credentials() == [];
    }
    assert tail != [] ==> tail == Str(options.password) + [];
    TakeWritten(options.password, 0, []);
  }

  lemma PayloadRead(flags: byte, options: ConnectOptions, will: Option<Will>)
    requires options.Short() && (will.Some? ==> will.value.Short() && will.value.qos < 4)
    requires ReadFlags(flags) == WantedFlags(options, will)
    ensures ReadPayload(flags, options.keepAlive, Str(options.clientId) + (WillBytes(will) + options.Credentials()))
            == if options.username == [] && options.password != [] then None else Some(Wanted(options, will))
  {
    TakeWritten(options.clientId, 0, WillBytes(will) + options.Credentials());
    WillRead(will, options.Credentials());
    CredentialsRead(options);
  }

  // ---------- SUBSCRIBE and UNSUBSCRIBE ----------

  /** Topic filters up to the end of the body, each followed by a QoS byte in a SUBSCRIBE. */
  function ReadFilters(s: seq<byte>, withQoS: bool): Option<seq<Filter>>
    decreases |s|
  {
    if s == [] then Some([])
    else match TakeStr(s) case None => None case Some((topic, s1)) =>
    if !withQoS then
      match ReadFilters(s1, withQoS) case None => None case Some(fs) => Some([Filter(topic, None)] + fs)
    else
      match TakeByte(s1) case None => None case Some((qos, s2)) =>
      match ReadFilters(s2, withQoS) case None => None case Some(fs) => Some([Filter(topic, Some(qos))] + fs)
  }

  lemma {:induction false} FilterBytesCons(filters: seq<Filter>)
    requires filters != [] && ShortTopics(filters)
    ensures FilterBytes(filters) == filters[0].Bytes() + FilterBytes(filters[1..])
  {
    var n := |filters| - 1;
    if n > 0 {
      FilterBytesCons(filters[..n]);
      var inner := filters[1..][..n - 1];
      assert filters[..n][1..] == inner && filters[1..][n - 1] == filters[n];
      assert FilterBytes(filters[1..]) == FilterBytes(inner) + filters[n].Bytes();
      Assoc(filters[0].Bytes(), FilterBytes(inner), filters[n].Bytes());
    } else {
      assert filters[..0] == [] && filters[1..] == [];
    }
  }

  lemma TakeFilter(f: Filter, rest: seq<byte>)
    requires |f.topic| < U16
    ensures var r := TakeStr(f.Bytes() + rest);
      && r.Some? && r.value.0 == f.topic
      && if f.qos.Some? then TakeByte(r.value.1) == Some((f.qos.value, rest)) else r.value.1 == rest
  {
    var tail := if f.qos.Some? then [f.qos.value] else [];
    Assoc(Str(f.topic), tail, rest);
    TakeWritten(f.topic, 0, tail + rest);
    assert f.qos.Some? ==> (tail + rest)[1..] == rest;
    assert f.qos.None? ==> tail + rest == rest;
  }

  /** The filters come back in order, with their QoS in a SUBSCRIBE and without in an UNSUBSCRIBE. */
  lemma {:induction false} FiltersRoundTrip(filters: seq<Filter>, withQoS: bool)
    requires ShortTopics(filters) && forall f | f in filters :: f.qos.Some? == withQoS
    ensures ReadFilters(FilterBytes(filters), withQoS) == Some(filters)
  {
    if filters != [] {
      FilterBytesCons(filters);
      FiltersRoundTrip(filters[1..], withQoS);
      TakeFilter(filters[0], FilterBytes(filters[1..]));
      assert filters == [filters[0]] + filters[1..];
    }
  }
}

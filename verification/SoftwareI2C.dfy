/** The bit-banged I2C master (cores/w800/SoftwareI2C.cpp). */
module SoftwareI2C {
  import opened Arithmetic
  import opened Helpers
  import opened I2cBus

  const BITS: nat := 8

  /** One shift left of a byte. */
  function Shl(u: nat): (r: nat)
    requires u < 256
    ensures r == if u >= 128 then 2 * u - 256 else 2 * u
  {
    u * 2 % 256
  }

  /** The eight bits that sendByte shifts out of `u`. */
  function Shifted(u: nat, n: nat): (bits: seq<bool>)
    requires u < 256
    ensures |bits| == n
    decreases n
  {
    if n == 0 then [] else [u >= 128] + Shifted(Shl(u), n - 1)
  }

  lemma ShiftedFirst(u: nat, done: seq<bool>, n: nat)
    requires 0 < n && u < 256
    ensures done + [u >= 128] + Shifted(Shl(u), n - 1) == done + Shifted(u, n)
  {}

  /** `v` moved to the top `n` bits of a byte. */
  function Top(v: nat, n: nat): nat
    requires n <= 8
  {
    v * Pow2(8 - n)
  }

  lemma Doubled(v: nat, w: nat)
    ensures (2 * v) * w == 2 * (v * w) == v * (2 * w)
  {}

  lemma LessTimes(v: nat, h: nat, w: nat)
    ensures v >= h ==> (v - h) * w == v * w - h * w >= 0
    ensures v < h ==> v * w + w <= h * w
  {
    if v >= h {
      Distribute(w, v - h, h);
    } else {
      Distribute(w, h - v - 1, v + 1);
      Distribute(w, v, 1);
    }
  }

  /** Taking the first bit off `v` and shifting the byte are the same thing. */
  lemma TopStep(v: nat, n: nat)
    requires 0 < n <= 8 && v < Pow2(n)
    ensures var h := Pow2(n - 1); var bit := v >= h; var rest := if bit then v - h else v;
      Top(v, n) < 256 && (Top(v, n) >= 128 <==> bit) && Shl(Top(v, n)) == Top(rest, n - 1) && rest < Pow2(n - 1)
  {
    var h, w := Pow2(n - 1), Pow2(8 - n);
    Pow2Sum(n - 1, 8 - n);
    assert Pow2(7) == 128;
    LessTimes(v, h, w);
    LessTimes(v, 2 * h, w);
    Doubled(h, w);
    Doubled(if v >= h then v - h else v, w);
  }

  lemma UpStep(v: nat, n: nat, a: nat)
    requires 0 < n <= 8 && v < Pow2(n)
    ensures var h := Pow2(n - 1); var bit := v >= h; var rest := if bit then v - h else v;
      (2 * a + if bit then 1 else 0) * Pow2(n - 1) + rest == a * Pow2(n) + v
  {
    Doubled(a, Pow2(n - 1));
    assert (2 * a + 1) * Pow2(n - 1) == 2 * a * Pow2(n - 1) + Pow2(n - 1);
  }

  /** Shifting `n` bits out spells the number that stands in the top `n` bits. */
  lemma {:induction false} ShiftedValue(acc: seq<bool>, v: nat, n: nat)
    requires 0 < n <= 8 && v < Pow2(n)
    ensures Top(v, n) < 256
    ensures Value(acc + Shifted(Top(v, n), n)) == Value(acc) * Pow2(n) + v
    decreases n
  {
    var u, bit := Top(v, n), v >= Pow2(n - 1);
    var rest := if bit then v - Pow2(n - 1) else v;
    TopStep(v, n);
    UpStep(v, n, Value(acc));
    ShiftedFirst(u, acc, n);
    ValueStep(acc, bit);
    if n == 1 {
      assert acc + [bit] + Shifted(Shl(u), 0) == acc + [bit];
    } else {
      ShiftedValue(acc + [bit], rest, n - 1);
    }
  }

  lemma ValueStep(acc: seq<bool>, bit: bool)
    ensures Value(acc + [bit]) == 2 * Value(acc) + if bit then 1 else 0
  {
    assert (acc + [bit])[..|acc|] == acc;
  }

  /** sendByte spells its byte. */
  lemma ByteSpelled(b: byte)
    ensures Value(Shifted(b, BITS)) == b
  {
    assert Pow2(0) == 1 && Pow2(8) == 256 && Value([]) == 0;
    assert [] + Shifted(b, BITS) == Shifted(b, BITS);
    ShiftedValue([], b, BITS);
  }

  /** The slave leaves SDA alone during these clocks. */
  ghost predicate Released(pulled: iset<nat>, from: nat, n: nat) {
    forall k | from <= k < from + n :: k !in pulled
  }

  /** What the slave puts on SDA during the clocks from `from` up to before `end`. */
  ghost function Given(pulled: iset<nat>, from: nat, end: nat): (bits: seq<bool>)
    requires from <= end
    ensures |bits| == end - from
    decreases end - from
  {
    if from == end then [] else Given(pulled, from, end - 1) + [end - 1 !in pulled]
  }

  /** `n` bits stay below the `n`-th power of two. */
  lemma {:induction false} ValueSmall(bits: seq<bool>)
    requires |bits| <= 8
    ensures Value(bits) < Pow2(|bits|)
    decreases |bits|
  {
    if bits != [] { ValueSmall(bits[..|bits| - 1]); }
  }

  lemma ByteSmall(bits: seq<bool>)
    requires |bits| <= 8
    ensures Value(bits) < 256 && (|bits| < 8 ==> Value(bits) < 128)
  {
    ValueSmall(bits);
    Pow2Grows(|bits|, if |bits| < 8 then 7 else 8);
    assert Pow2(7) == 128 && Pow2(8) == 256;
  }

  /** One more bit taken from the slave. */
  lemma TakeBit(pulled: iset<nat>, from: nat, i: nat)
    requires i < BITS
    ensures Value(Given(pulled, from, from + i)) < 128
    ensures Given(pulled, from, from + i + 1) == Given(pulled, from, from + i) + [from + i !in pulled]
    ensures Value(Given(pulled, from, from + i + 1))
         == 2 * Value(Given(pulled, from, from + i)) + (if from + i !in pulled then 1 else 0)
  {
    ByteSmall(Given(pulled, from, from + i));
    ValueStep(Given(pulled, from, from + i), from + i !in pulled);
  }

  class SoftwareI2C {
    const bus: Bus
    var sdaInOut: bool
    var recvLen: nat

    ghost predicate Valid()
      reads this, bus
    {
      bus.Valid() && sdaInOut == bus.sdaIsOutput
    }

    /** Nobody is using the bus: both lines are high and held by the master's pins. */
    ghost predicate Idle()
      reads this, bus
    {
      Valid() && bus.scl && bus.sdaPin && bus.sdaIsOutput && bus.Sda()
    }

    /** Within a transfer and between two frames, at a point where the next clock may begin. */
    ghost predicate Between()
      reads this, bus
    {
      Valid() && bus.Watch().active && bus.Watch().bits == [] && (bus.scl ==> !bus.sdaIsOutput || !bus.sdaPin)
    }

    constructor (bus: Bus)
      requires bus.Valid()
      ensures this.bus == bus && recvLen == 0 && sdaInOut == bus.sdaIsOutput
    {
      this.bus, sdaInOut, recvLen := bus, bus.sdaIsOutput, 0;
    }

    /** begin. */
    method Begin()
      requires bus.Valid()
      modifies this, bus
      ensures bus.clock !in bus.pulled ==> Idle()
      ensures recvLen == old(recvLen) && bus.clock == old(bus.clock)
    {
      bus.SdaMode(true);
      sdaInOut := true;
      bus.SclWrite(true);
      bus.SdaWrite(true);
    }

    /** sdaSet: while SCL is low nobody takes notice.  While it is high, an input pin that becomes an output
        shows its old level first. */
    method SdaSet(level: bool)
      requires Valid()
      modifies this`sdaInOut, bus`sdaIsOutput, bus`sdaPin, bus`trace
      ensures Valid() && bus.sdaIsOutput && bus.sdaPin == level
      ensures var first := Level(true, old(bus.sdaPin) && bus.clock !in bus.pulled);
        bus.Watch() == if !bus.scl then old(bus.Watch())
                       else ObserveAll(ObserveAll(old(bus.Watch()), Edge(Level(true, old(bus.Sda())), first)),
                                       Edge(first, Level(true, bus.Sda())))
    {
      if !sdaInOut {
        sdaInOut := true;
        bus.SdaMode(true);
      }
      bus.SdaWrite(level);
    }

    method SclSet(level: bool)
      requires Valid()
      modifies bus`scl, bus`clock, bus`trace
      ensures Valid() && bus.scl == level && bus.clock == old(bus.clock) + (if old(bus.scl) && !level then 1 else 0)
      ensures bus.Watch() == if !old(bus.scl) && level then Observe(old(bus.Watch()), Bit(bus.Sda())) else old(bus.Watch())
    {
      bus.SclWrite(level);
    }

    /** sendStart: SDA falls while SCL is high. */
    method SendStart()
      requires Idle()
      modifies this`sdaInOut, bus
      ensures Between() && bus.scl && bus.clock == old(bus.clock) && bus.sdaIsOutput
      ensures bus.Watch() == Observe(old(bus.Watch()), Start)
    {
      SdaSet(false);
      ObserveOne(old(bus.Watch()), Start);
    }

    /** sendStop: SDA rises while SCL is high, after one more clock. */
    method SendStop()
      requires Valid() && NextClock() !in bus.pulled
      modifies this`sdaInOut, bus
      ensures Idle() && bus.clock == old(NextClock())
      ensures bus.Watch() == Ended(old(bus.Watch()))
    {
      ghost var w := bus.Watch();
      SclSet(false);
      SdaSet(false);
      SclSet(true);
      ghost var w1 := bus.Watch();
      SdaSet(true);
      ObserveOne(w1, Stop);
    }

    /** One round of sendByte: a clock with this level on SDA. */
    method SendBit(bit: bool)
      requires Valid() && bus.scl && bus.clock + 1 !in bus.pulled
      modifies this`sdaInOut, bus
      ensures Valid() && bus.scl && bus.sdaIsOutput && bus.clock == old(bus.clock) + 1
      ensures bus.Watch() == Observe(old(bus.Watch()), Bit(bit))
    {
      SclSet(false);
      SdaSet(bit);
      SclSet(true);
      SdaSet(bit);
    }

    /** sendByte. */
    method SendByte(ucDta: byte)
      requires Between() && bus.scl && Released(bus.pulled, bus.clock + 1, 8)
      modifies this`sdaInOut, bus
      ensures Valid() && bus.scl && bus.clock == old(bus.clock) + 8
      ensures bus.Watch() == old(bus.Watch()).(bits := Shifted(ucDta, BITS))
    {
      var u: byte := ucDta;
      ghost var w, sent := bus.Watch(), [];
      assert sent + Shifted(u, BITS) == Shifted(u, BITS);
      var i := 0;
      while i < BITS
        invariant 0 <= i <= BITS && Valid() && bus.scl && bus.clock == old(bus.clock) + i && |sent| == i
        invariant sent + Shifted(u, BITS - i) == Shifted(ucDta, BITS)
        invariant bus.Watch() == w.(bits := sent)
      {
        ShiftedFirst(u, sent, BITS - i);
        SendBit(u >= 128);
        sent := sent + [u >= 128];
        u := Shl(u);
        i := i + 1;
      }
      assert sent + Shifted(u, BITS - i) == sent;
    }

    /** getAck: the master lets go of SDA and looks whether the slave pulls it low. */
    method GetAck() returns (ack: bool)
      requires Valid() && bus.scl
      modifies this`sdaInOut, bus
      ensures Valid() && bus.scl && !bus.sdaIsOutput && bus.clock == old(bus.clock) + 1
      ensures ack == (bus.clock in bus.pulled) && bus.Watch() == Observe(old(bus.Watch()), Bit(!ack))
    {
      SclSet(false);
      bus.SdaMode(false);
      sdaInOut := false;
      SclSet(true);
      var waited: nat := 0;
      while true
        invariant waited <= 100
        decreases 101 - waited
      {
        if !bus.Sda() { return true; }
        var now: nat :| waited < now;
        waited := now;
        if waited > 100 { return false; }
      }
    }

    /** sendByteAck: one frame on the bus. */
    method SendByteAck(ucDta: byte) returns (ack: bool)
      requires Between() && bus.scl && Released(bus.pulled, bus.clock + 1, 8)
      modifies this`sdaInOut, bus
      ensures Between() && bus.scl && !bus.sdaIsOutput && bus.clock == old(bus.clock) + 9 && ack == (bus.clock in bus.pulled)
      ensures bus.Watch() == old(bus.Watch()).(frames := old(bus.Watch()).frames + [Frame(ucDta, ack)])
    {
      SendByte(ucDta);
      ack := GetAck();
      ByteSpelled(ucDta);
    }
 
    /** beginTransmission: a start and the write address. */
    method BeginTransmission(addr: byte) returns (ack: bool)
      requires Idle() && Released(bus.pulled, bus.clock + 1, 8)
      modifies this`sdaInOut, bus
      ensures Between() && bus.scl && !bus.sdaIsOutput && bus.clock == old(bus.clock) + 9 && ack == (bus.clock in bus.pulled)
      ensures bus.Watch() == Transfer(old(bus.Watch()), [Frame(addr * 2 % 256, ack)])
    {
      SendStart();
      ack := SendByteAck(addr * 2 % 256);
    }

    /** write(uchar). */
    method Write(dta: byte) returns (ack: bool)
      requires Between() && bus.scl && Released(bus.pulled, bus.clock + 1, 8)
      modifies this`sdaInOut, bus
      ensures Between() && bus.scl && !bus.sdaIsOutput && bus.clock == old(bus.clock) + 9 && ack == (bus.clock in bus.pulled)
      ensures bus.Watch() == old(bus.Watch()).(frames := old(bus.Watch()).frames + [Frame(dta, ack)])
    {
      ack := SendByteAck(dta);
    }

    /** requestFrom: a start and the read address; `len` bytes are to be read afterwards. */
    method RequestFrom(addr: byte, len: nat) returns (ack: bool)
      requires Idle() && Released(bus.pulled, bus.clock + 1, 8)
      modifies this`sdaInOut, this`recvLen, bus
      ensures Between() && bus.scl && !bus.sdaIsOutput && bus.clock == old(bus.clock) + 9
      ensures ack == (bus.clock in bus.pulled) && recvLen == len
      ensures bus.Watch() == Transfer(old(bus.Watch()), [Frame((addr * 2 + 1) % 256, ack)])
    {
      SendStart();
      recvLen := len;
      ack := SendByteAck((addr * 2 + 1) % 256);
    }

    /** The number of the clock that comes next. */
    ghost function NextClock(): nat
      reads bus
    {
      if bus.scl then bus.clock + 1 else bus.clock
    }

    /** read: a byte from the slave.  All but the last are acknowledged; the last is refused and the
        transfer is ended. */
    method Read() returns (dta: nat)
      requires Between() && (bus.scl ==> !bus.sdaIsOutput)
      requires recvLen == 1 ==> NextClock() + 8 !in bus.pulled && NextClock() + 9 !in bus.pulled
      modifies this`sdaInOut, this`recvLen, bus
      ensures old(recvLen) == 0 ==> dta == 0 && recvLen == 0 && Between() && bus.Watch() == old(bus.Watch())
      ensures old(recvLen) > 0 ==> recvLen == old(recvLen) - 1 && dta < 256
      ensures old(recvLen) > 0 ==> dta == Value(Given(bus.pulled, old(NextClock()), old(NextClock()) + 8))
      ensures old(recvLen) > 0 ==> NextClock() == old(NextClock()) + (if recvLen > 0 then 9 else 10)
      ensures recvLen > 0 ==> Between() && !bus.scl
      ensures recvLen > 0 ==> bus.Watch() == old(bus.Watch()).(frames := old(bus.Watch()).frames + [Frame(dta, true)])
      ensures old(recvLen) == 1 ==> Idle()
      ensures var w := old(bus.Watch());
        old(recvLen) == 1 ==> bus.Watch() == Ended(w.(frames := w.frames + [Frame(dta, false)]))
    {
      if recvLen == 0 { return 0; }
      dta := ReceiveByte();
      recvLen := recvLen - 1;
      if recvLen > 0 {
        Answer(true);
      } else {
        Answer(false);
        SendStop();
      }
    }

    /** The eight clocks of read. */
    method ReceiveByte() returns (dta: nat)
      requires Between() && (bus.scl ==> !bus.sdaIsOutput)
      modifies this`sdaInOut, bus
      ensures Valid() && bus.scl && !bus.sdaIsOutput && bus.clock == old(NextClock()) + 7
      ensures dta == Value(Given(bus.pulled, old(NextClock()), old(NextClock()) + 8)) && dta < 256
      ensures bus.Watch() == old(bus.Watch()).(bits := Given(bus.pulled, old(NextClock()), old(NextClock()) + 8))
    {
      ghost var first, w := NextClock(), bus.Watch();
      LetGo();
      dta := 0;
      var i := 0;
      while i < BITS
        invariant 0 <= i <= BITS && (i > 0 ==> bus.scl) && Receiving(w, first, i, dta)
      {
        dta := ReceiveBit(dta, w, first, i);
        i := i + 1;
      }
      ByteSmall(Given(bus.pulled, first, first + 8));
    }

    /** `i` of the eight clocks are over. */
    ghost predicate Receiving(w: Watcher, first: nat, i: nat, dta: nat)
      reads this, bus
    {
      && Valid() && !bus.sdaIsOutput && NextClock() == first + i
      && dta == Value(Given(bus.pulled, first, first + i))
      && bus.Watch() == w.(bits := Given(bus.pulled, first, first + i))
    }

    /** One round of it. */
    method ReceiveBit(ucRt: nat, ghost w: Watcher, ghost first: nat, ghost i: nat) returns (dta: nat)
      requires Receiving(w, first, i, ucRt) && i < BITS && w.active
      modifies bus
      ensures Receiving(w, first, i + 1, dta) && bus.scl
    {
      ClockPulse();
      var ucBit := if bus.Sda() then 1 else 0;
      TakeBit(bus.pulled, first, i);
      dta := Shl(ucRt) + ucBit;
    }

    method ClockPulse()
      requires Valid() && !bus.sdaIsOutput
      modifies bus
      ensures Valid() && !bus.sdaIsOutput && bus.scl && bus.clock == old(NextClock())
      ensures bus.Watch() == Observe(old(bus.Watch()), Bit(bus.clock !in bus.pulled))
    {
      SclSet(false);
      SclSet(true);
    }

    /** The SDA pin becomes an input, which nobody notices. */
    method LetGo()
      requires Valid() && (bus.scl ==> !bus.sdaIsOutput)
      modifies this`sdaInOut, bus`sdaIsOutput, bus`trace
      ensures Valid() && !bus.sdaIsOutput && bus.Watch() == old(bus.Watch())
    {
      bus.SdaMode(false);
      sdaInOut := false;
    }

    /** The ninth clock of read: the master acknowledges or does not. */
    method Answer(ack: bool)
      requires Valid() && bus.scl && !bus.sdaIsOutput && bus.Watch().active && |bus.Watch().bits| == BITS
      requires !ack ==> bus.clock + 1 !in bus.pulled
      modifies this`sdaInOut, bus
      ensures Valid() && !bus.scl && bus.sdaIsOutput && bus.clock == old(bus.clock) + 2
      ensures bus.Watch() == old(bus.Watch()).(bits := [],
        frames := old(bus.Watch()).frames + [Frame(Value(old(bus.Watch()).bits), ack)])
    {
      SclSet(false);
      SdaSet(!ack);
      SclSet(true);
      SclSet(false);
    }
  }
}

/** The buffered transactions of cores/w800/Wire.cpp over the bit-banged master. */
module Wire {
  import opened Sequences
  import opened Helpers
  import opened I2cBus
  import opened SoftwareI2C

  const BUFFER_LENGTH: nat := 64

  /** These bytes, every one acknowledged. */
  function Acked(data: seq<nat>): (frames: seq<Frame>)
    ensures |frames| == |data| && forall i | 0 <= i < |data| :: frames[i] == Frame(data[i], true)
  {
    seq(|data|, i requires 0 <= i < |data| => Frame(data[i], true))
  }

  lemma AckedMore(data: seq<nat>, x: nat)
    ensures Acked(data + [x]) == Acked(data) + [Frame(x, true)]
  {}

  /** A transfer that reads these bytes: all but the last are acknowledged. */
  function ReadMessage(head: nat, data: seq<nat>): seq<Frame>
    requires data != []
  {
    [Frame(head, true)] + Acked(data[..|data| - 1]) + [Frame(data[|data| - 1], false)]
  }

  lemma ReadStep(head: nat, data: seq<nat>, x: nat)
    ensures ReadMessage(head, data + [x]) == [Frame(head, true)] + Acked(data) + [Frame(x, false)]
    ensures [Frame(head, true)] + Acked(data + [x]) == [Frame(head, true)] + Acked(data) + [Frame(x, true)]
  {
    assert (data + [x])[..|data|] == data;
    AckedMore(data, x);
  }

  /** After clock `from`, the slave leaves SDA to the master for the eight bits of each of `n` frames. */
  ghost predicate Quiet(pulled: iset<nat>, from: nat, n: nat) {
    forall i | 0 <= i < n :: Released(pulled, from + 9 * i + 1, 8)
  }

  /** Does the slave acknowledge frame number `i` after clock `from`? */
  ghost predicate Acks(pulled: iset<nat>, from: nat, i: nat) {
    from + 9 * i + 9 in pulled
  }

  /** The result of endTransmission and what was acknowledged of the address and `n` bytes. */
  ghost predicate Answers(pulled: iset<nat>, start: nat, r: nat, sent: nat, n: nat) {
    && (r == 1 <==> !Acks(pulled, start, 0))
    && (r == 0 <==> forall k | 0 <= k <= n :: Acks(pulled, start, k))
    && (r == 0 ==> sent == n)
    && (r == 4 ==> sent < n && !Acks(pulled, start, sent + 1) && forall k | 0 <= k <= sent :: Acks(pulled, start, k))
  }

  /** The frames of a transmission with this result. */
  function Attempt(head: nat, data: seq<nat>, r: nat, sent: nat): seq<Frame>
    requires sent <= |data| && (r == 4 ==> sent < |data|)
  {
    if r == 1 then [Frame(head, false)]
    else if r == 4 then [Frame(head, true)] + Acked(data[..sent]) + [Frame(data[sent], false)]
    else [Frame(head, true)] + Acked(data[..sent])
  }

  /** The bytes the slave gives after the address frame of a transfer that began after clock `start`. */
  ghost function Offered(pulled: iset<nat>, start: nat, n: nat): (data: seq<nat>)
    ensures |data| == n
    decreases n
  {
    if n == 0 then [] else Offered(pulled, start, n - 1) + [Value(Given(pulled, start + 9 * n + 1, start + 9 * n + 9))]
  }

  class TwoWire {
    var dev: SoftwareI2C?
    var isInitialized: bool
    var addr: byte
    const rxBuf: array<nat>
    var rxBufSt: nat
    var rxBufEnd: nat
    const txBuf: array<byte>
    var txBufIdx: nat

    ghost predicate Valid()
      reads this
    {
      && rxBuf.Length == txBuf.Length == BUFFER_LENGTH && rxBufSt <= rxBufEnd <= BUFFER_LENGTH && txBufIdx <= BUFFER_LENGTH
      && (isInitialized ==> dev != null)
    }

    /** The bytes stacked up to be sent. */
    ghost function Stacked(): seq<byte>
      requires Valid()
      reads this, txBuf
    {
      txBuf[..txBufIdx]
    }

    /** The bytes received and not yet read. */
    ghost function Unread(): seq<nat>
      requires Valid()
      reads this, rxBuf
    {
      rxBuf[rxBufSt..rxBufEnd]
    }

    constructor ()
      ensures Valid() && fresh(rxBuf) && fresh(txBuf) && !isInitialized && Stacked() == [] && Unread() == []
    {
      dev, isInitialized, addr, rxBufSt, rxBufEnd, txBufIdx := null, false, 0, 0, 0, 0;
      rxBuf, txBuf := new nat[BUFFER_LENGTH], new byte[BUFFER_LENGTH];
    }

    /** begin(Sda, Scl). */
    method Begin(bus: Bus)
      requires Valid() && bus.Valid()
      modifies this`dev, this`isInitialized, bus
      ensures Valid() && isInitialized && fresh(dev) && dev.bus == bus && bus.clock == old(bus.clock)
      ensures bus.clock !in bus.pulled ==> dev.Idle()
    {
      dev := new SoftwareI2C(bus);
      dev.Begin();
      isInitialized := true;
    }

    method BeginTransmission(to: byte)
      requires Valid()
      modifies this`addr, this`rxBufSt, this`rxBufEnd, this`txBufIdx
      ensures Valid() && if isInitialized then addr == to && Stacked() == [] && Unread() == []
                         else Stacked() == old(Stacked()) && Unread() == old(Unread())
    {
      if !isInitialized { return; }
      addr := to;
      rxBufSt, rxBufEnd, txBufIdx := 0, 0, 0;
    }

    /** write(uint8_t). */
    method Write(data: byte) returns (n: nat)
      requires Valid()
      modifies this`txBufIdx, txBuf
      ensures Valid() && n == (if isInitialized && |old(Stacked())| < 64 then 1 else 0)
      ensures Stacked() == old(Stacked()) + if n == 1 then [data] else []
    {
      if !isInitialized { return 0; }
      if txBufIdx == BUFFER_LENGTH { return 0; }
      txBuf[txBufIdx] := data;
      txBufIdx := txBufIdx + 1;
      n := 1;
    }

    /** write(uint8_t *, int): as much of the array as there is room for. */
    method WriteArray(data: seq<byte>) returns (n: nat)
      requires Valid()
      modifies this`txBufIdx, txBuf
      ensures Valid() && n <= |data| && Stacked() == old(Stacked()) + data[..n]
      ensures n == |data| || (!isInitialized && n == 0) || |Stacked()| == 64
    {
      var i := 0;
      while i < |data|
        invariant i <= |data| && Valid() && Stacked() == old(Stacked()) + data[..i] && (i > 0 ==> isInitialized)
      {
        var ok := Write(data[i]);
        if ok == 0 { return i; }
        assert data[..i + 1] == data[..i] + [data[i]];
        i := i + 1;
      }
      n := |data|;
    }

    /** endTransmission: the address and the stacked bytes go out as one transfer.  A byte that is not
        acknowledged ends it without a stop.  `sent` data bytes were acknowledged. */
    method EndTransmission() returns (r: nat, ghost sent: nat)
      requires Valid()
      requires isInitialized ==> dev.Idle() && Quiet(dev.bus.pulled, dev.bus.clock, txBufIdx + 1)
      requires isInitialized ==> (dev.bus.clock + 9 * (txBufIdx + 1) + 1 !in dev.bus.pulled)
      modifies this`txBufIdx, dev, if dev == null then {} else {dev.bus}
      ensures Valid() && sent <= |old(Stacked())| && (if isInitialized then r == 0 || r == 1 || r == 4 else r == 1)
      ensures isInitialized && r == 0 ==> dev.Idle()
      ensures Stacked() == if r == 1 then old(Stacked()) else []
      ensures isInitialized ==> Answers(dev.bus.pulled, old(dev.bus.clock), r, sent, |old(Stacked())|)
      ensures isInitialized ==>
        var frames := Attempt(addr * 2 % 256, old(Stacked()), r, sent);
        && Symbols(dev.bus.trace) == old(Symbols(dev.bus.trace)) + OnTheWire(frames, r == 0)
        && dev.bus.clock == old(dev.bus.clock) + 9 * |frames| + (if r == 0 then 1 else 0)
        && (r == 0 ==> dev.bus.Watch().transfers == old(dev.bus.Watch()).transfers + [frames])
    {
      sent := 0;
      if !isInitialized { return 1, 0; }
      ghost var w, data := dev.bus.Watch(), Stacked();
      dev.bus.NothingMissed();
      r, sent := Transmit(w, data);
      dev.bus.NothingMissed();
      TransferSeen(w, Attempt(addr * 2 % 256, data, r, sent), r == 0);
    }

    /** What the wires show, as a watcher takes it. */
    method Transmit(ghost w: Watcher, ghost data: seq<byte>) returns (r: nat, ghost sent: nat)
      requires Valid() && isInitialized && dev.Idle() && Quiet(dev.bus.pulled, dev.bus.clock, txBufIdx + 1)
      requires dev.bus.clock + 9 * (txBufIdx + 1) + 1 !in dev.bus.pulled
      requires w == dev.bus.Watch() && data == Stacked()
      modifies this`txBufIdx, dev, dev.bus
      ensures Valid() && sent <= |data| && (r == 0 || r == 1 || r == 4)
      ensures (r == 0 ==> dev.Idle()) && Stacked() == if r == 1 then data else []
      ensures Answers(dev.bus.pulled, old(dev.bus.clock), r, sent, |data|)
      ensures var frames := Attempt(addr * 2 % 256, data, r, sent);
        && dev.bus.Watch() == (if r == 0 then Ended(Transfer(w, frames)) else Transfer(w, frames))
        && dev.bus.clock == old(dev.bus.clock) + 9 * |frames| + (if r == 0 then 1 else 0)
    {
      ghost var start, head := dev.bus.clock, addr * 2 % 256;
      assert Released(dev.bus.pulled, start + 9 * 0 + 1, 8);
      var ack := dev.BeginTransmission(addr);
      if !ack { return 1, 0; }
      ack, sent := SendStacked(data, start, head, w);
      txBufIdx := 0;
      if !ack { return 4, sent; }
      assert data[..sent] == data;
      dev.SendStop();
      r := txBufIdx;
    }

    /** `i` of these bytes have gone out and been acknowledged. */
    ghost predicate Acknowledged(data: seq<byte>, i: nat, start: nat, head: nat, w: Watcher)
      requires dev != null && i <= |data|
      reads this`dev, dev, dev.bus
    {
      && dev.Between() && dev.bus.scl && dev.bus.clock == start + 9 * (i + 1)
      && (forall k | 0 <= k <= i :: Acks(dev.bus.pulled, start, k))
      && dev.bus.Watch() == Transfer(w, [Frame(head, true)] + Acked(data[..i]))
    }

    /** The loop of endTransmission. */
    method SendStacked(ghost data: seq<byte>, ghost start: nat, ghost head: nat, ghost w: Watcher)
      returns (ack: bool, ghost sent: nat)
      requires Valid() && isInitialized && Quiet(dev.bus.pulled, start, txBufIdx + 1) && data == Stacked()
      requires Acknowledged(data, 0, start, head, w)
      modifies dev, dev.bus
      ensures Valid() && sent <= |data| && Answers(dev.bus.pulled, start, if ack then 0 else 4, sent, |data|)
      ensures ack ==> dev.Between() && dev.bus.scl
      ensures var frames := Attempt(head, data, if ack then 0 else 4, sent);
        dev.bus.Watch() == Transfer(w, frames) && dev.bus.clock == start + 9 * |frames|
    {
      var i := 0;
      while i < txBufIdx
        invariant i <= |data| && Acknowledged(data, i, start, head, w)
      {
        ack := SendOne(txBuf[i], data, i, start, head, w);
        if !ack { return false, i; }
        i := i + 1;
      }
      return true, i;
    }

    method SendOne(x: byte, ghost data: seq<byte>, ghost i: nat, ghost start: nat, ghost head: nat, ghost w: Watcher)
      returns (ack: bool)
      requires dev != null && i < |data| && x == data[i] && Quiet(dev.bus.pulled, start, |data| + 1)
      requires Acknowledged(data, i, start, head, w)
      modifies dev, dev.bus
      ensures ack == Acks(dev.bus.pulled, start, i + 1)
      ensures if ack then Acknowledged(data, i + 1, start, head, w)
              else dev.bus.Watch() == Transfer(w, Attempt(head, data, 4, i)) && dev.bus.clock == start + 9 * (i + 2)
    {
      assert Released(dev.bus.pulled, start + 9 * (i + 1) + 1, 8);
      ack := dev.Write(x);
      AckedMore(data[..i], x);
      assert data[..i + 1] == data[..i] + [x];
      Assoc([Frame(head, true)], Acked(data[..i]), [Frame(x, ack)]);
    }

    /** requestFrom: a transfer that fills the receive buffer.  The driver has already ended it when the
        buffered layer sends its own stop, which adds one clock and one stop to what can be seen.  A negative
        length is not caught: once the address is acknowledged, the loop runs past the end of the buffer,
        which `overrun` reports instead. */
    method RequestFrom(from: byte, len: int) returns (n: nat, overrun: bool)
      requires Valid()
      requires isInitialized ==> dev.Idle() && Quiet(dev.bus.pulled, dev.bus.clock, 1)
      requires isInitialized && len >= 0 ==> var last := dev.bus.clock + 9 * (if len > BUFFER_LENGTH then BUFFER_LENGTH else len) + 9;
        last !in dev.bus.pulled && last + 1 !in dev.bus.pulled && last + 2 !in dev.bus.pulled
      modifies this`rxBufSt, this`rxBufEnd, rxBuf, dev, if dev == null then {} else {dev.bus}
      ensures Valid() && n == |Unread()|
      ensures overrun <==> isInitialized && len < 0 && Acks(dev.bus.pulled, old(dev.bus.clock), 0)
      ensures var wanted := if len > BUFFER_LENGTH then BUFFER_LENGTH else len;
        n == if isInitialized && len > 0 && Acks(dev.bus.pulled, old(dev.bus.clock), 0) then wanted else 0
      ensures n > 0 ==> Unread() == Offered(dev.bus.pulled, old(dev.bus.clock), n)
      ensures n > 0 ==>
        var frames := ReadMessage((from * 2 + 1) % 256, Unread());
        && dev.Idle() && dev.bus.clock == old(dev.bus.clock) + 9 * |frames| + 2
        && Symbols(dev.bus.trace) == old(Symbols(dev.bus.trace)) + OnTheWire(frames, true) + [Bit(false), Stop]
        && dev.bus.Watch().transfers == old(dev.bus.Watch()).transfers + [frames]
      ensures n == 0 && isInitialized && !overrun ==>
        var asked := len != 0;
        && dev.bus.clock == old(dev.bus.clock) + (if asked then 9 else 0)
        && Symbols(dev.bus.trace) == old(Symbols(dev.bus.trace))
           + if asked then OnTheWire([Frame((from * 2 + 1) % 256, false)], false) else []
    {
      var left := if len > BUFFER_LENGTH then BUFFER_LENGTH else len;
      rxBufSt, rxBufEnd := 0, 0;
      if !isInitialized || left == 0 { return 0, false; }
      if left < 0 {
        overrun := RequestNegative(from, left);
        return 0, overrun;
      }
      var result := RequestSome(from, left);
      n, overrun := rxBufEnd - rxBufSt, false;
    }

    method RequestSome(from: byte, len: nat) returns (ack: bool)
      requires Valid() && isInitialized && dev.Idle() && Quiet(dev.bus.pulled, dev.bus.clock, 1)
      requires rxBufSt == rxBufEnd == 0 && 0 < len <= BUFFER_LENGTH
      requires var last := dev.bus.clock + 9 * len + 9;
        last !in dev.bus.pulled && last + 1 !in dev.bus.pulled && last + 2 !in dev.bus.pulled
      modifies this`rxBufEnd, rxBuf, dev, dev.bus
      ensures Valid() && ack == Acks(dev.bus.pulled, old(dev.bus.clock), 0) && |Unread()| == if ack then len else 0
      ensures !ack ==>
        && dev.bus.clock == old(dev.bus.clock) + 9
        && Symbols(dev.bus.trace) == old(Symbols(dev.bus.trace)) + OnTheWire([Frame((from * 2 + 1) % 256, false)], false)
      ensures ack ==> Unread() == Offered(dev.bus.pulled, old(dev.bus.clock), len)
      ensures ack ==>
        var frames := ReadMessage((from * 2 + 1) % 256, Unread());
        && dev.Idle() && dev.bus.clock == old(dev.bus.clock) + 9 * |frames| + 2
        && Symbols(dev.bus.trace) == old(Symbols(dev.bus.trace)) + OnTheWire(frames, true) + [Bit(false), Stop]
        && dev.bus.Watch().transfers == old(dev.bus.Watch()).transfers + [frames]
    {
      ghost var w := dev.bus.Watch();
      dev.bus.NothingMissed();
      ack := Receive(from, len, w);
      dev.bus.NothingMissed();
      if ack {
        StoppedTwice(w, ReadMessage((from * 2 + 1) % 256, Unread()));
      } else {
        TransferSeen(w, [Frame((from * 2 + 1) % 256, false)], false);
      }
    }

    method RequestNegative(from: byte, len: int) returns (overrun: bool)
      requires Valid() && isInitialized && dev.Idle() && Quiet(dev.bus.pulled, dev.bus.clock, 1)
      modifies dev, dev.bus
      ensures Valid() && overrun == Acks(dev.bus.pulled, old(dev.bus.clock), 0) && dev.bus.clock == old(dev.bus.clock) + 9
      ensures !overrun ==>
        Symbols(dev.bus.trace) == old(Symbols(dev.bus.trace)) + OnTheWire([Frame((from * 2 + 1) % 256, false)], false)
    {
      ghost var w := dev.bus.Watch();
      dev.bus.NothingMissed();
      overrun := Ask(from, len % U16, w);
      dev.bus.NothingMissed();
      TransferSeen(w, [Frame((from * 2 + 1) % 256, false)], false);
    }

    /** The address frame of a read. */
    method Ask(from: byte, len: nat, ghost w: Watcher) returns (ack: bool)
      requires Valid() && isInitialized && dev.Idle() && Quiet(dev.bus.pulled, dev.bus.clock, 1) && w == dev.bus.Watch()
      modifies dev, dev.bus
      ensures Valid() && ack == Acks(dev.bus.pulled, old(dev.bus.clock), 0) && dev.bus.clock == old(dev.bus.clock) + 9
      ensures dev.Between() && dev.bus.scl && !dev.bus.sdaIsOutput && dev.recvLen == len
      ensures dev.bus.Watch() == Transfer(w, [Frame((from * 2 + 1) % 256, ack)])
    {
      assert Released(dev.bus.pulled, dev.bus.clock + 9 * 0 + 1, 8);
      ack := dev.RequestFrom(from, len);
    }

    /** What the wires show, as a watcher takes it. */
    method Receive(from: byte, len: nat, ghost w: Watcher) returns (ack: bool)
      requires Valid() && isInitialized && dev.Idle() && Quiet(dev.bus.pulled, dev.bus.clock, 1) && w == dev.bus.Watch()
      requires rxBufSt == rxBufEnd == 0 && 0 < len <= BUFFER_LENGTH
      requires var last := dev.bus.clock + 9 * len + 9;
        last !in dev.bus.pulled && last + 1 !in dev.bus.pulled && last + 2 !in dev.bus.pulled
      modifies this`rxBufEnd, rxBuf, dev, dev.bus
      ensures Valid() && ack == Acks(dev.bus.pulled, old(dev.bus.clock), 0) && |Unread()| == if ack then len else 0
      ensures !ack ==> dev.bus.Watch() == Transfer(w, [Frame((from * 2 + 1) % 256, false)]) && dev.bus.clock == old(dev.bus.clock) + 9
      ensures ack ==> dev.Idle() && Unread() == Offered(dev.bus.pulled, old(dev.bus.clock), len)
      ensures ack ==> dev.bus.Watch() == Ended(Ended(Transfer(w, ReadMessage((from * 2 + 1) % 256, Unread()))))
      ensures ack ==> dev.bus.clock == old(dev.bus.clock) + 9 * (len + 1) + 2
    {
      ghost var start, head := dev.bus.clock, (from * 2 + 1) % 256;
      ack := Open(from, len, w);
      if !ack { return; }
      Collect(len, start, head, w);
    }

    method Collect(len: nat, ghost start: nat, ghost head: nat, ghost w: Watcher)
      requires Valid() && dev != null && rxBufSt == rxBufEnd == 0 && Reading(len, len, start, head, w)
      requires start + 9 * len + 11 !in dev.bus.pulled
      modifies this`rxBufEnd, rxBuf, dev, dev.bus
      ensures Valid() && dev.Idle() && |Unread()| == len && Unread() == Offered(dev.bus.pulled, start, len)
      ensures dev.bus.Watch() == Ended(Ended(Transfer(w, ReadMessage(head, Unread())))) && dev.bus.clock == start + 9 * len + 11
    {
      Fetch(len, start, head, w);
      StopAgain(len, start, head, w);
    }

    /** The start of a read. */
    method Open(from: byte, len: nat, ghost w: Watcher) returns (ack: bool)
      requires Valid() && isInitialized && dev.Idle() && Quiet(dev.bus.pulled, dev.bus.clock, 1) && w == dev.bus.Watch()
      requires rxBufSt == rxBufEnd == 0 && 0 < len <= BUFFER_LENGTH
      requires dev.bus.clock + 9 * len + 9 !in dev.bus.pulled && dev.bus.clock + 9 * len + 10 !in dev.bus.pulled
      modifies dev, dev.bus
      ensures Valid() && ack == Acks(dev.bus.pulled, old(dev.bus.clock), 0) && dev.bus.clock == old(dev.bus.clock) + 9
      ensures if ack then Reading(len, len, old(dev.bus.clock), (from * 2 + 1) % 256, w)
              else dev.bus.Watch() == Transfer(w, [Frame((from * 2 + 1) % 256, false)])
    {
      ack := Ask(from, len, w);
      assert [Frame((from * 2 + 1) % 256, ack)] + Acked([]) == [Frame((from * 2 + 1) % 256, ack)];
    }

    /** The second stop. */
    method StopAgain(ghost len: nat, ghost start: nat, ghost head: nat, ghost w: Watcher)
      requires Valid() && dev != null && Reading(0, len, start, head, w) && rxBufSt == 0
      requires start + 9 * len + 11 !in dev.bus.pulled
      modifies dev, dev.bus
      ensures dev.Idle() && |Unread()| == len && Unread() == Offered(dev.bus.pulled, start, len)
      ensures dev.bus.Watch() == Ended(Ended(Transfer(w, ReadMessage(head, Unread())))) && dev.bus.clock == start + 9 * len + 11
    {
      dev.SendStop();
    }

    /** `left` bytes are still to be read. */
    ghost predicate Reading(left: nat, len: nat, start: nat, head: nat, w: Watcher)
      requires Valid() && dev != null
      reads this, dev, dev.bus, rxBuf
    {
      && 0 < len <= BUFFER_LENGTH && rxBufEnd + left == len
      && rxBuf[..rxBufEnd] == Offered(dev.bus.pulled, start, rxBufEnd)
      && start + 9 * len + 9 !in dev.bus.pulled && start + 9 * len + 10 !in dev.bus.pulled
      && (if left > 0 then Underway(left, rxBufEnd, start, head, w) else Finished(len, start, head, w))
    }

    /** `got` bytes have been read and `left` are still to come. */
    ghost predicate Underway(left: nat, got: nat, start: nat, head: nat, w: Watcher)
      requires dev != null
      reads this`dev, dev, dev.bus
    {
      && dev.Between() && (dev.bus.scl ==> !dev.bus.sdaIsOutput) && dev.recvLen == left
      && dev.NextClock() == start + 9 * (got + 1) + 1
      && dev.bus.Watch() == Transfer(w, [Frame(head, true)] + Acked(Offered(dev.bus.pulled, start, got)))
    }

    ghost predicate Finished(len: nat, start: nat, head: nat, w: Watcher)
      requires dev != null && 0 < len
      reads this`dev, dev, dev.bus
    {
      && dev.Idle() && dev.bus.clock == start + 9 * len + 10
      && dev.bus.Watch() == Ended(Transfer(w, ReadMessage(head, Offered(dev.bus.pulled, start, len))))
    }

    /** The reading loop. */
    method Fetch(len: nat, ghost start: nat, ghost head: nat, ghost w: Watcher)
      requires Valid() && dev != null && rxBufSt == rxBufEnd == 0 && Reading(len, len, start, head, w)
      modifies this`rxBufEnd, rxBuf, dev, dev.bus
      ensures Valid() && Reading(0, len, start, head, w)
    {
      var left := len;
      while left > 0
        invariant 0 <= left && Valid() && Reading(left, len, start, head, w)
      {
        FetchOne(left, len, start, head, w);
        left := left - 1;
      }
    }

    method FetchOne(ghost left: nat, ghost len: nat, ghost start: nat, ghost head: nat, ghost w: Watcher)
      requires Valid() && dev != null && left > 0 && Reading(left, len, start, head, w)
      modifies this`rxBufEnd, rxBuf, dev, dev.bus
      ensures Valid() && Reading(left - 1, len, start, head, w)
    {
      var dta := ReadOne(left, rxBufEnd, start, head, w);
      Put(dta);
    }

    /** One byte off the bus. */
    method ReadOne(ghost left: nat, ghost got: nat, ghost start: nat, ghost head: nat, ghost w: Watcher) returns (dta: nat)
      requires dev != null && left > 0 && Underway(left, got, start, head, w)
      requires left == 1 ==> start + 9 * got + 18 !in dev.bus.pulled && start + 9 * got + 19 !in dev.bus.pulled
      modifies dev, dev.bus
      ensures Offered(dev.bus.pulled, start, got + 1) == Offered(dev.bus.pulled, start, got) + [dta]
      ensures if left > 1 then Underway(left - 1, got + 1, start, head, w) else Finished(got + 1, start, head, w)
    {
      dta := dev.Read();
      ReadStep(head, Offered(dev.bus.pulled, start, got), dta);
    }

    method Put(dta: nat)
      requires Valid() && rxBufEnd < BUFFER_LENGTH
      modifies this`rxBufEnd, rxBuf
      ensures Valid() && rxBufEnd == old(rxBufEnd) + 1 && rxBuf[..rxBufEnd] == old(rxBuf[..rxBufEnd]) + [dta]
    {
      rxBuf[rxBufEnd] := dta;
      rxBufEnd := rxBufEnd + 1;
    }

    method Available() returns (n: nat)
      requires Valid()
      ensures n == |Unread()|
    {
      n := rxBufEnd - rxBufSt;
    }

    /** read: the next received byte, or -1. */
    method Read() returns (b: int)
      requires Valid()
      modifies this`rxBufSt
      ensures Valid()
      ensures if old(Unread()) == [] then b == -1 && Unread() == [] else [b] + Unread() == old(Unread())
    {
      var n := Available();
      if n == 0 { return -1; }
      b := rxBuf[rxBufSt];
      rxBufSt := rxBufSt + 1;
    }
  }
}

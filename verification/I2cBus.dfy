/** The two wires of an I2C bus and how anyone watching them reads them: conditions and bits
    (NXP UM10204, sections 3.1.4 to 3.1.6), then bytes and whole transfers. */
module I2cBus {
  import opened Sequences
  import opened Helpers

  /** The levels of both lines at one moment. */
  datatype Level = Level(scl: bool, sda: bool)

  datatype Symbol = Start | Stop | Bit(b: bool)

  /** What a change of levels means: a bit is sampled when SCL rises; SDA moving while SCL stays
      high is a start or a stop condition. */
  function Edge(x: Level, y: Level): seq<Symbol> {
    if !x.scl && y.scl then [Bit(y.sda)]
    else if x.scl && y.scl && x.sda && !y.sda then [Start]
    else if x.scl && y.scl && !x.sda && y.sda then [Stop]
    else []
  }

  /** On a high clock a falling SDA is a start and a rising one a stop; a rising clock samples SDA; nothing else
      means anything. */
  lemma EdgeMeans(x: Level, y: Level)
    ensures Edge(x, y) == [Start] <==> x == Level(true, true) && y == Level(true, false)
    ensures Edge(x, y) == [Stop] <==> x == Level(true, false) && y == Level(true, true)
    ensures forall b :: Edge(x, y) == [Bit(b)] <==> !x.scl && y == Level(true, b)
    ensures Edge(x, y) == [] <==> !y.scl || x == y
  {
    assert [Start] != [Stop] && forall b :: [Bit(b)] != [Start] && [Bit(b)] != [Stop];
  }

  function Symbols(trace: seq<Level>): seq<Symbol> {
    if |trace| < 2 then []
    else Symbols(trace[..|trace| - 1]) + Edge(trace[|trace| - 2], trace[|trace| - 1])
  }

  lemma SymbolsAdd(trace: seq<Level>, y: Level)
    requires trace != []
    ensures Symbols(trace + [y]) == Symbols(trace) + Edge(trace[|trace| - 1], y)
  {
    assert (trace + [y])[..|trace|] == trace;
  }

  // ---------- Bytes and transfers ----------

  /** A byte on the bus and whether the receiver acknowledged it. */
  datatype Frame = Frame(value: nat, ack: bool)

  /** A watcher: whether a transfer is going on, the bits of the frame so far, the frames of the
      transfer so far, the transfers that ended with a stop, and all that was seen before the start of
      this transfer, or so far when there is none. */
  datatype Watcher = Watcher(active: bool, bits: seq<bool>, frames: seq<Frame>, transfers: seq<seq<Frame>>, before: seq<Symbol>)

  /** Most significant bit first. */
  function Value(bits: seq<bool>): nat {
    if bits == [] then 0 else 2 * Value(bits[..|bits| - 1]) + if bits[|bits| - 1] then 1 else 0
  }

  /** The lowest `n` bits of a number, most significant first. */
  function BitsOf(v: nat, n: nat): (bits: seq<bool>)
    ensures |bits| == n
  {
    if n == 0 then [] else BitsOf(v / 2, n - 1) + [v % 2 == 1]
  }

  lemma {:induction false} BitsOfValue(bits: seq<bool>)
    ensures BitsOf(Value(bits), |bits|) == bits
  {
    if bits != [] { BitsOfValue(bits[..|bits| - 1]); }
  }

  /** The nine bits of a frame. */
  function Spelled(f: Frame): seq<Symbol> {
    Bits(BitsOf(f.value, 8)) + [Bit(!f.ack)]
  }

  /** The nine bits, one by one: the byte from its highest bit down, and a low level for an acknowledgement. */
  lemma SpelledBits(f: Frame)
    requires f.value < 256
    ensures Spelled(f) == [Bit(f.value / 128 % 2 == 1), Bit(f.value / 64 % 2 == 1), Bit(f.value / 32 % 2 == 1),
                           Bit(f.value / 16 % 2 == 1), Bit(f.value / 8 % 2 == 1), Bit(f.value / 4 % 2 == 1),
                           Bit(f.value / 2 % 2 == 1), Bit(f.value % 2 == 1), Bit(!f.ack)]
  {
    EightBits(f.value);
  }

  lemma EightBits(v: nat)
    ensures BitsOf(v, 8) == [v / 128 % 2 == 1, v / 64 % 2 == 1, v / 32 % 2 == 1, v / 16 % 2 == 1,
                             v / 8 % 2 == 1, v / 4 % 2 == 1, v / 2 % 2 == 1, v % 2 == 1]
  {
    var u := v / 16;
    Eighths(v, u);
    FourMoreBits(v, 4);
    FourMoreBits(u, 0);
    assert BitsOf(u / 16, 0) == [];
  }

  lemma Eighths(v: nat, u: nat)
    requires u == v / 16
    ensures u / 8 == v / 128 && u / 4 == v / 64 && u / 2 == v / 32
  {}

  lemma FourMoreBits(v: nat, n: nat)
    ensures BitsOf(v, n + 4) == BitsOf(v / 16, n) + [v / 8 % 2 == 1, v / 4 % 2 == 1, v / 2 % 2 == 1, v % 2 == 1]
  {
    var u := v / 4;
    assert u / 4 == v / 16 && u / 2 == v / 8;
    TwoMoreBits(v, n + 2);
    TwoMoreBits(u, n);
  }

  lemma TwoMoreBits(v: nat, n: nat)
    ensures BitsOf(v, n + 2) == BitsOf(v / 4, n) + [v / 2 % 2 == 1, v % 2 == 1]
  {
    assert v / 2 / 2 == v / 4;
    assert BitsOf(v / 2, n + 1) == BitsOf(v / 4, n) + [v / 2 % 2 == 1];
  }

  function SpelledAll(frames: seq<Frame>): seq<Symbol> {
    if frames == [] then [] else SpelledAll(frames[..|frames| - 1]) + Spelled(frames[|frames| - 1])
  }

  /** All that this watcher has seen. */
  function Seen(w: Watcher): seq<Symbol> {
    if w.active then w.before + [Start] + SpelledAll(w.frames) + Bits(w.bits) else w.before
  }

  function Observe(w: Watcher, s: Symbol): Watcher {
    match s
    case Start => Watcher(true, [], [], w.transfers, Seen(w))
    case Stop => Watcher(false, [], [], w.transfers + (if w.active then [w.frames] else []), Seen(w) + [Stop])
    case Bit(b) =>
      if !w.active then w.(before := w.before + [Bit(b)])
      else if |w.bits| < 8 then w.(bits := w.bits + [b])
      else w.(bits := [], frames := w.frames + [Frame(Value(w.bits), !b)])
  }

  /** A watcher that takes bits in eights forgets nothing. */
  lemma SeenOneMore(w: Watcher, s: Symbol)
    requires |w.bits| <= 8
    ensures Seen(Observe(w, s)) == Seen(w) + [s] && |Observe(w, s).bits| <= 8
  {
    if s.Bit? && w.active {
      if |w.bits| < 8 {
        assert Bits(w.bits + [s.b]) == Bits(w.bits) + [s];
      } else {
        var f := Frame(Value(w.bits), !s.b);
        BitsOfValue(w.bits);
        assert (w.frames + [f])[..|w.frames|] == w.frames;
        assert Spelled(f) == Bits(w.bits) + [s];
        assert Bits([]) == [];
      }
    } else if s.Start? {
      assert SpelledAll([]) == [] && Bits([]) == [];
    }
  }

  function ObserveAll(w: Watcher, s: seq<Symbol>): Watcher {
    if s == [] then w else Observe(ObserveAll(w, s[..|s| - 1]), s[|s| - 1])
  }

  lemma {:induction false} ObserveConcat(w: Watcher, a: seq<Symbol>, b: seq<Symbol>)
    ensures ObserveAll(w, a + b) == ObserveAll(ObserveAll(w, a), b)
    decreases |b|
  {
    if b == [] {
      assert a + b == a;
    } else {
      var b0 := b[..|b| - 1];
      ObserveConcat(w, a, b0);
      assert (a + b)[..|a + b| - 1] == a + b0;
    }
  }

  lemma {:induction false} SeenAll(w: Watcher, s: seq<Symbol>)
    requires |w.bits| <= 8
    ensures Seen(ObserveAll(w, s)) == Seen(w) + s && |ObserveAll(w, s).bits| <= 8
    decreases |s|
  {
    if s != [] {
      var n := |s| - 1;
      SeenAll(w, s[..n]);
      SeenOneMore(ObserveAll(w, s[..n]), s[n]);
      assert s[..n] + [s[n]] == s;
    }
  }

  lemma ObserveOne(w: Watcher, s: Symbol)
    ensures ObserveAll(w, [s]) == Observe(w, s)
  {
    assert [s][..0] == [];
    assert ObserveAll(w, []) == w;
  }

  /** The symbols of these bits. */
  function Bits(bits: seq<bool>): (s: seq<Symbol>)
    ensures |s| == |bits| && forall i | 0 <= i < |s| :: s[i] == Bit(bits[i])
  {
    seq(|bits|, i requires 0 <= i < |bits| => Bit(bits[i]))
  }

  lemma {:induction false} ObserveBits(w: Watcher, bits: seq<bool>)
    requires w.active && w.bits == [] && |bits| <= 8
    ensures ObserveAll(w, Bits(bits)) == w.(bits := bits)
  {
    if bits != [] {
      var b0 := bits[..|bits| - 1];
      ObserveBits(w, b0);
      assert Bits(bits)[..|bits| - 1] == Bits(b0);
      assert b0 + [bits[|bits| - 1]] == bits;
    }
  }

  /** Nine clocks are one frame. */
  lemma ObserveFrame(w: Watcher, bits: seq<bool>, nak: bool)
    requires w.active && w.bits == [] && |bits| == 8
    ensures ObserveAll(w, Bits(bits) + [Bit(nak)]) == w.(frames := w.frames + [Frame(Value(bits), !nak)])
  {
    ObserveBits(w, bits);
    ObserveConcat(w, Bits(bits), [Bit(nak)]);
    ObserveOne(w.(bits := bits), Bit(nak));
  }

  /** In the middle of a transfer that began where `w` stood, between two frames. */
  function Transfer(w: Watcher, frames: seq<Frame>): Watcher {
    Observe(w, Start).(frames := frames)
  }

  /** After a stop: the clock that makes room for it, then the stop itself. */
  function Ended(w: Watcher): Watcher {
    Observe(Observe(w, Bit(false)), Stop)
  }

  /** A start, these frames, and the stop if there is one. */
  function OnTheWire(frames: seq<Frame>, stopped: bool): seq<Symbol> {
    [Start] + SpelledAll(frames) + if stopped then [Bit(false), Stop] else []
  }

  lemma TransferStarts(w: Watcher, frames: seq<Frame>)
    ensures Seen(Transfer(w, frames)) == Seen(w) + OnTheWire(frames, false)
  {
    assert Bits([]) == [];
  }

  lemma TransferSeen(w: Watcher, frames: seq<Frame>, stopped: bool)
    ensures var t := if stopped then Ended(Transfer(w, frames)) else Transfer(w, frames);
      Seen(t) == Seen(w) + OnTheWire(frames, stopped) && (stopped ==> t.transfers == w.transfers + [frames] && !t.active)
  {
    TransferStarts(w, frames);
    if stopped {
      var t := Transfer(w, frames);
      SeenOneMore(t, Bit(false));
      SeenOneMore(Observe(t, Bit(false)), Stop);
      assert OnTheWire(frames, true) == OnTheWire(frames, false) + [Bit(false)] + [Stop];
      Assoc(Seen(w), OnTheWire(frames, false) + [Bit(false)], [Stop]);
      Assoc(Seen(w), OnTheWire(frames, false), [Bit(false)]);
    }
  }

  /** A second stop adds itself and nothing else. */
  lemma StoppedTwice(w: Watcher, frames: seq<Frame>)
    ensures var t := Ended(Ended(Transfer(w, frames)));
      Seen(t) == Seen(w) + OnTheWire(frames, true) + [Bit(false), Stop] && t.transfers == w.transfers + [frames]
  {
    TransferSeen(w, frames, true);
    var t := Ended(Transfer(w, frames));
    assert Seen(Ended(t)) == Seen(t) + [Bit(false), Stop];
  }

  function Fresh(): Watcher { Watcher(false, [], [], [], []) }

  // ---------- The wires ----------

  /** Both lines, as the master's two pins and the slave drive them.  The slave moves SDA only when SCL
      falls: during clock `k` it pulls SDA low when `k in pulled` and leaves it alone otherwise. */
  class Bus {
    const pulled: iset<nat>
    var scl: bool
    var sdaPin: bool
    var sdaIsOutput: bool
    var clock: nat
    ghost var trace: seq<Level>

    function Sda(): bool
      reads this
    {
      (!sdaIsOutput || sdaPin) && clock !in pulled
    }

    ghost predicate Valid()
      reads this
    {
      trace != [] && trace[|trace| - 1] == Level(scl, Sda())
    }

    /** What a watcher has made of the levels so far. */
    ghost function Watch(): Watcher
      reads this
    {
      ObserveAll(Fresh(), Symbols(trace))
    }

    /** The watcher has missed nothing that happened on the wires. */
    lemma NothingMissed()
      ensures Seen(Watch()) == Symbols(trace)
    {
      SeenAll(Fresh(), Symbols(trace));
    }

    ghost method Note()
      requires trace != []
      modifies this`trace
      ensures Valid() && Watch() == ObserveAll(old(Watch()), Edge(old(trace[|trace| - 1]), Level(scl, Sda())))
    {
      var now := Level(scl, Sda());
      SymbolsAdd(trace, now);
      ObserveConcat(Fresh(), Symbols(trace), Edge(trace[|trace| - 1], now));
      trace := trace + [now];
    }

    constructor (pulled: iset<nat>)
      ensures Valid() && this.pulled == pulled && scl && sdaPin && !sdaIsOutput && clock == 0
    {
      this.pulled, scl, sdaPin, sdaIsOutput, clock := pulled, true, true, false, 0;
      trace := [Level(true, 0 !in pulled)];
    }

    /** pinMode on the SDA pin. */
    method SdaMode(output: bool)
      requires Valid()
      modifies this`sdaIsOutput, this`trace
      ensures Valid() && sdaIsOutput == output
      ensures Watch() == ObserveAll(old(Watch()), Edge(Level(scl, old(Sda())), Level(scl, Sda())))
    {
      sdaIsOutput := output;
      Note();
    }

    /** digitalWrite on the SDA pin. */
    method SdaWrite(level: bool)
      requires Valid()
      modifies this`sdaPin, this`trace
      ensures Valid() && sdaPin == level
      ensures Watch() == ObserveAll(old(Watch()), Edge(Level(scl, old(Sda())), Level(scl, Sda())))
    {
      sdaPin := level;
      Note();
    }

    /** digitalWrite on the SCL pin; a falling edge lets the slave go on. */
    method SclWrite(level: bool)
      requires Valid()
      modifies this`scl, this`clock, this`trace
      ensures Valid() && scl == level && clock == old(clock) + (if old(scl) && !level then 1 else 0)
      ensures Watch() == if !old(scl) && level then Observe(old(Watch()), Bit(Sda())) else old(Watch())
    {
      var falls := scl && !level;
      scl := level;
      Note();
      ObserveOne(old(Watch()), Bit(Sda()));
      if falls {
        clock := clock + 1;
        Note();
      }
    }
  }
}

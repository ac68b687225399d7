/** What the history that every client operation keeps says about whole runs: pings, answers on the
    wire, packet boundaries, the byte budget of a yield, and packet ids. */
module ClientProperties {
  import opened Sequences
  import opened Helpers
  import opened Packet
  import opened PacketProperties
  import opened Client

  // ---------- Pings ----------

  predicate IsPing(e: Event) { e.Sent? && e.frame != [] && PacketType(e.frame[0]) == PINGREQ }

  /** The events after which no ping is open. */
  predicate ClosesPing(e: Event) { e.Reset? || (e.Got? && e.frame != [] && PacketType(e.frame[0]) == PINGRESP) }

  /** A ping is open exactly when one was sent whole and since then there was no PINGRESP and no new
      connection. */
  lemma {:induction false} PingOpenMeans(log: seq<Event>)
    ensures Fold(log).pingOpen <==>
      exists i :: 0 <= i < |log| && IsPing(log[i]) && forall k | i < k < |log| :: !ClosesPing(log[k])
  {
    if log != [] {
      var n := |log| - 1;
      PingOpenMeans(log[..n]);
      if Fold(log).pingOpen && !IsPing(log[n]) {
        var i :| 0 <= i < n && IsPing(log[..n][i]) && forall k | i < k < n :: !ClosesPing(log[..n][k]);
        assert IsPing(log[i]) && forall k | i < k <= n :: k < n ==> log[k] == log[..n][k];
      }
      if i :| 0 <= i < |log| && IsPing(log[i]) && forall k | i < k < |log| :: !ClosesPing(log[k]) {
        if i < n {
          assert IsPing(log[..n][i]) && forall k | i < k < n :: !ClosesPing(log[..n][k]);
        }
      }
    }
  }

  lemma {:induction false} PrefixesAlternate(log: seq<Event>, j: nat)
    requires Fold(log).pingsAlternate && j < |log|
    ensures Fold(log[..j]).pingsAlternate && (IsPing(log[j]) ==> !Fold(log[..j]).pingOpen)
  {
    var n := |log| - 1;
    if j < n {
      PrefixesAlternate(log[..n], j);
      assert log[..n][..j] == log[..j];
    }
  }

  /** Between two pings of a history there is a PINGRESP or a new connection. */
  lemma NoTwoPingsInARow(log: seq<Event>, i: nat, j: nat)
    requires Fold(log).pingsAlternate && i < j < |log| && IsPing(log[i]) && IsPing(log[j])
    ensures exists k :: i < k < j && ClosesPing(log[k])
  {
    PrefixesAlternate(log, j);
    PingOpenMeans(log[..j]);
    assert log[..j][i] == log[i];
    var k :| i < k < j && ClosesPing(log[..j][k]);
    assert ClosesPing(log[k]);
  }

  // ---------- Connections and whole packets ----------

  /** When no connection has been counted between two moments, the history has noted none. */
  lemma {:induction false} NoResetBetween(before: seq<Event>, after: seq<Event>)
    requires before <= after
    ensures Fold(before).sessions <= Fold(after).sessions
    ensures Fold(before).sessions == Fold(after).sessions <==> forall k | |before| <= k < |after| :: !after[k].Reset?
    decreases |after|
  {
    if |before| < |after| {
      var n := |after| - 1;
      NoResetBetween(before, after[..n]);
      assert forall k | |before| <= k < n :: after[..n][k] == after[k];
    } else {
      assert before == after;
    }
  }

  ghost predicate NotesPacket(e: Event) { e.Got? || e.Dropped? ==> IsPacket(e.frame) }

  /** Every packet that the history notes as read or skipped is one, also where an operation failed later. */
  lemma {:induction false} WholeMeans(log: seq<Event>)
    ensures Fold(log).whole <==> forall k | 0 <= k < |log| :: NotesPacket(log[k])
  {
    if log != [] {
      var n := |log| - 1;
      WholeMeans(log[..n]);
      assert Fold(log).whole == (Fold(log[..n]).whole && NotesPacket(log[n]));
      assert forall k | 0 <= k < n :: log[..n][k] == log[k];
    }
  }

  // ---------- Answers on the wire ----------

  /** The answers to the packets that fit the buffer, in order. */
  ghost function Replies(run: seq<Taken>, cap: nat): seq<byte>
    requires FaithfulRun(run, cap)
  {
    if run == [] then []
    else var t := run[|run| - 1];
      Replies(run[..|run| - 1], cap) + if t.fits then Reply(t.frame) else []
  }

  lemma FoldOfTwo(log: seq<Event>, e: Event, f: Event)
    ensures Fold(log + [e, f]) == Step(Step(Fold(log), e), f)
  {
    assert log + [e, f] == log + [e] + [f];
    FoldSnoc(log + [e], f);
    FoldSnoc(log, e);
  }

  lemma TakenWrites(log: seq<Event>, t: Taken, cap: nat)
    requires Faithful(t, cap)
    ensures Fold(log + t.events).output == Fold(log).output + if t.fits then Reply(t.frame) else []
    ensures Fold(log + t.events).taken == Fold(log).taken + t.frame
  {
    if !t.fits {
      FoldSnoc(log, Dropped(t.frame));
    } else if Reply(t.frame) == [] {
      assert t.events == [Got(t.frame)];
      FoldSnoc(log, Got(t.frame));
    } else {
      assert t.events == [Got(t.frame), Sent(Reply(t.frame))];
      FoldOfTwo(log, Got(t.frame), Sent(Reply(t.frame)));
    }
  }

  lemma RunWritesOneMore(log: seq<Event>, run: seq<Taken>, cap: nat)
    requires run != [] && FaithfulRun(run, cap) && Faithful(run[|run| - 1], cap) && FaithfulRun(run[..|run| - 1], cap)
    requires Fold(log + EventsOf(run[..|run| - 1])).output == Fold(log).output + Replies(run[..|run| - 1], cap)
    ensures Fold(log + EventsOf(run)).output == Fold(log).output + Replies(run, cap)
  {
    var rest, t := run[..|run| - 1], run[|run| - 1];
    TakenWrites(log + EventsOf(rest), t, cap);
    Assoc(log, EventsOf(rest), t.events);
    Assoc(Fold(log).output, Replies(rest, cap), if t.fits then Reply(t.frame) else []);
  }

  lemma RunReadsOneMore(log: seq<Event>, run: seq<Taken>, cap: nat)
    requires run != [] && Faithful(run[|run| - 1], cap)
    requires Fold(log + EventsOf(run[..|run| - 1])).taken == Fold(log).taken + FramesOf(run[..|run| - 1])
    ensures Fold(log + EventsOf(run)).taken == Fold(log).taken + FramesOf(run)
  {
    var rest, t := run[..|run| - 1], run[|run| - 1];
    TakenWrites(log + EventsOf(rest), t, cap);
    Assoc(log, EventsOf(rest), t.events);
    Assoc(Fold(log).taken, FramesOf(rest), t.frame);
  }

  /** The bytes written in a run are the answers to its packets, one after the other, and the bytes
      read are its packets. */
  lemma {:induction false} RunWrites(log: seq<Event>, run: seq<Taken>, cap: nat)
    requires FaithfulRun(run, cap)
    ensures Fold(log + EventsOf(run)).output == Fold(log).output + Replies(run, cap)
    ensures Fold(log + EventsOf(run)).taken == Fold(log).taken + FramesOf(run)
  {
    if run == [] {
      assert log + [] == log;
    } else {
      RunWrites(log, run[..|run| - 1], cap);
      assert Faithful(run[|run| - 1], cap);
      RunWritesOneMore(log, run, cap);
      RunReadsOneMore(log, run, cap);
    }
  }

  // ---------- Packet boundaries ----------

  ghost predicate ArePackets(packets: seq<seq<byte>>) { forall i | 0 <= i < |packets| :: IsPacket(packets[i]) }

  /** The packets of the run are the first of `packets`. */
  ghost predicate Follows(run: seq<Taken>, packets: seq<seq<byte>>) {
    |run| <= |packets| && forall i | 0 <= i < |run| :: run[i].frame == packets[i]
  }

  /** Of two packets that start the same bytes neither is longer. */
  lemma OnePacketInFront(f: seq<byte>, g: seq<byte>, s: seq<byte>)
    requires IsPacket(f) && IsPacket(g) && f <= s && g <= s
    ensures f == g
  {
    assert f[..|f|] == f == s[..|f|] && g[..|g|] == g == s[..|g|];
    SameFrameHead(f, s, PacketType(f[0]));
    SameFrameHead(g, s, PacketType(g[0]));
  }

  ghost function FramesInOrder(run: seq<Taken>): seq<byte> {
    if run == [] then [] else run[0].frame + FramesInOrder(run[1..])
  }

  lemma {:induction false} FramesFromTheFront(run: seq<Taken>)
    ensures FramesOf(run) == FramesInOrder(run)
  {
    if run != [] {
      var n := |run| - 1;
      FramesFromTheFront(run[..n]);
      if n > 0 {
        FramesFromTheFront(run[1..]);
        FramesFromTheFront(run[1..][..n - 1]);
        assert run[..n][1..] == run[1..][..n - 1];
        Assoc(run[0].frame, FramesInOrder(run[1..][..n - 1]), run[n].frame);
      } else {
        assert run[..0] == [] && run[1..] == [];
      }
    }
  }

  lemma {:induction false} RunFollowsPackets(run: seq<Taken>, cap: nat, packets: seq<seq<byte>>)
    requires FaithfulRun(run, cap) && ArePackets(packets) && FramesInOrder(run) <= Flat(packets)
    ensures Follows(run, packets)
  {
    if run != [] {
      assert Faithful(run[0], cap);
      assert packets != [];
      OnePacketInFront(run[0].frame, packets[0], Flat(packets));
      var k := |run[0].frame|;
      assert FramesInOrder(run)[k..] == FramesInOrder(run[1..]) && Flat(packets)[k..] == Flat(packets[1..]);
      RunFollowsPackets(run[1..], cap, packets[1..]);
      forall i | 0 <= i < |run| ensures run[i].frame == packets[i] {
        if i > 0 { assert run[i] == run[1..][i - 1] && packets[i] == packets[1..][i - 1]; }
      }
    }
  }

  lemma {:induction false} FlatOfFrames(run: seq<Taken>, packets: seq<seq<byte>>)
    requires |run| == |packets| && forall i | 0 <= i < |run| :: run[i].frame == packets[i]
    ensures FramesInOrder(run) == Flat(packets)
  {
    if run != [] { FlatOfFrames(run[1..], packets[1..]); }
  }

  lemma RunSplitsPackets(taken: seq<byte>, left: seq<byte>, run: seq<Taken>, cap: nat, packets: seq<seq<byte>>)
    requires FaithfulRun(run, cap) && FramesOf(run) == taken
    requires ArePackets(packets) && taken + left == Flat(packets)
    ensures Follows(run, packets)
    ensures left == Flat(packets[|run|..])
  {
    FramesFromTheFront(run);
    RunFollowsPackets(run, cap, packets);
    FlatSplits(packets, |run|);
    FlatOfFrames(run, packets[..|run|]);
    SameTail(taken, left, Flat(packets[|run|..]));
  }

  /** When the server sends a sequence of packets, a run takes the first of them, one by one and
      whole, and leaves the network at the start of the next. */
  lemma RunTakesPackets(stream: seq<byte>, from: nat, to: nat, run: seq<Taken>, cap: nat, packets: seq<seq<byte>>)
    requires from <= to <= |stream| && FaithfulRun(run, cap) && FramesOf(run) == stream[from..to]
    requires ArePackets(packets) && stream[from..] == Flat(packets)
    ensures Follows(run, packets)
    ensures stream[to..] == Flat(packets[|run|..])
  {
    SplitAt(stream, from, to);
    RunSplitsPackets(stream[from..to], stream[to..], run, cap, packets);
  }

  lemma SplitAt(s: seq<byte>, from: nat, to: nat)
    requires from <= to <= |s|
    ensures s[from..] == s[from..to] + s[to..]
  {}

  lemma SameTail(x: seq<byte>, y: seq<byte>, z: seq<byte>)
    requires x + y == x + z
    ensures y == z
  {
    assert y == (x + y)[|x|..] && z == (x + z)[|x|..];
  }

  // ---------- The byte budget of lwmqtt_cycle_until ----------

  predicate NoneDropped(run: seq<Taken>) {
    run == [] || (run[|run| - 1].fits && NoneDropped(run[..|run| - 1]))
  }

  /** The running count equals the bytes taken exactly when no packet was dropped. */
  lemma {:induction false} ReadCountExact(run: seq<Taken>, cap: nat)
    requires FaithfulRun(run, cap)
    ensures ReadCount(run) <= |FramesOf(run)|
    ensures ReadCount(run) == |FramesOf(run)| <==> NoneDropped(run)
  {
    if run != [] {
      assert Faithful(run[|run| - 1], cap);
      ReadCountExact(run[..|run| - 1], cap);
    }
  }

  /** How many packets of the run were skipped. */
  function Skipped(run: seq<Taken>): nat {
    if run == [] then 0 else Skipped(run[..|run| - 1]) + if run[|run| - 1].fits then 0 else 1
  }

  /** The counter of skipped packets, when there is one, has gone up by as many, in 32 bits. */
  lemma {:induction false} CountAfterIs(counter: nat, run: seq<Taken>)
    requires counter < U32
    ensures CountAfter(Some(counter), run) == Some((counter + Skipped(run)) % U32)
    ensures CountAfter(None, run) == None
  {
    if run != [] {
      var rest := run[..|run| - 1];
      CountAfterIs(counter, rest);
      OneMoreModulo(counter + Skipped(rest));
    }
  }

  lemma OneMoreModulo(n: nat)
    ensures (n % U32 + 1) % U32 == (n + 1) % U32
  {}

  /** A PINGRESP that a buffer of one byte cannot hold is skipped, and the count of bytes read stays at zero. */
  lemma SkippedExample()
    ensures var f: seq<byte> := [208, 0]; var run := [Taken(f, false, [Dropped(f)], [])];
      FaithfulRun(run, 1) && ReadCount(run) == 0 && |FramesOf(run)| == 2 && Skipped(run) == 1
  {
    var f: seq<byte> := [208, 0];
    assert f[1..] == [0];
    TypeField(PINGRESP);
    assert WriteBits(0, PINGRESP, 4, 4) == 208;
    var run := [Taken(f, false, [Dropped(f)], [])];
    assert run[..0] == [];
  }

  /** Without drops a yield asks for no packet once `available` bytes have been taken. */
  lemma YieldStaysWithinAvailable(run: seq<Taken>, cap: nat, available: nat)
    requires FaithfulRun(run, cap) && WithinBudget(run, available) && run != [] && NoneDropped(run)
    ensures |FramesOf(run[..|run| - 1])| < available
  {
    ReadCountExact(run[..|run| - 1], cap);
  }

  // ---------- Packet ids ----------

  /** The id that the n-th call of lwmqtt_get_next_packet_id from now on hands out. */
  function IdAfter(last: nat, n: nat): nat {
    if n == 0 then last
    else if IdAfter(last, n - 1) == 65535 then 1 else IdAfter(last, n - 1) + 1
  }

  lemma {:induction false} IdAfterIs(last: nat, n: nat)
    requires 1 <= last < U16
    ensures IdAfter(last, n) == (last - 1 + n) % 65535 + 1
  {
    if n > 0 { IdAfterIs(last, n - 1); }
  }

  /** Ids are never zero, and any 65535 in a row are different. */
  lemma IdsAreDistinct(last: nat, m: nat, n: nat)
    requires 1 <= last < U16 && m < n < m + 65535
    ensures 1 <= IdAfter(last, m) < U16 && IdAfter(last, m) != IdAfter(last, n)
  {
    IdAfterIs(last, m);
    IdAfterIs(last, n);
  }
}

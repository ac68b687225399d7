/** The surroundings of the MQTT client: the callbacks for the network and the timers that
    libraries/MQTT/lwmqtt.h asks for.  Both are adversaries: a read or a write moves any part of
    what is asked for and may fail halfway, and a timer runs down by any amount between two looks. */
module Network {
  import opened Helpers

  /** What has gone wrong at the network so far: reads that found nothing in time, and failures of the
      connection. */
  datatype Faults = Faults(timeouts: nat, failures: nat)
  {
    function After(err: Err): Faults {
      Faults(timeouts + (if err == NetworkTimeout then 1 else 0),
             failures + if err == NetworkFailedRead || err == NetworkFailedWrite then 1 else 0)
    }
  }

  /** Between two moments the connection failed just when this error says so, and a timeout is reported only
      when a read found nothing in time or the time is over. */
  predicate Excuses(before: Faults, after: Faults, remaining: int, err: Err) {
    && after.failures == before.After(err).failures && before.timeouts <= after.timeouts
    && (err == NetworkTimeout ==> remaining <= 0 || before.timeouts < after.timeouts)
  }

  class Net {
    /** All that the server ever sends, and how much of it has been read. */
    const stream: seq<byte>
    var pos: nat
    /** What has been written to the server. */
    var output: seq<byte>
    ghost var faults: Faults

    ghost predicate Valid()
      reads this
    {
      pos <= |stream|
    }

    constructor (stream: seq<byte>)
      ensures Valid() && this.stream == stream && pos == 0 && output == [] && faults == Faults(0, 0)
    {
      this.stream, pos, output, faults := stream, 0, [], Faults(0, 0);
    }

    /** Takes up to `len` bytes into `buf`.  A timeout has read nothing; a failed connection may
        have delivered some bytes first (libraries/MQTT/MQTTClient.cpp:53-93). */
    method Read(buf: array<byte>, offset: nat, len: nat) returns (err: Err, got: nat)
      requires Valid() && offset + len <= buf.Length
      modifies this`pos, this`faults, buf
      ensures faults == old(faults).After(err)
      ensures Valid() && pos == old(pos) + got && got <= len
      ensures (err == Success || err == NetworkTimeout || err == NetworkFailedRead) && (err == NetworkTimeout ==> got == 0)
      ensures forall i | 0 <= i < buf.Length ::
                buf[i] == if offset <= i < offset + got then stream[old(pos) + i - offset] else old(buf[i])
    {
      if * {
        faults := faults.After(NetworkTimeout);
        return NetworkTimeout, 0;
      }
      got :| 0 <= got <= len && pos + got <= |stream|;
      forall i | 0 <= i < got { buf[offset + i] := stream[pos + i]; }
      pos := pos + got;
      err := Success;
      if * { err := NetworkFailedRead; }
      faults := faults.After(err);
    }

    /** Sends the first bytes of `data`, all of them, some, or none. */
    method Write(data: seq<byte>) returns (err: Err, sent: nat)
      modifies this`output, this`faults
      ensures faults == old(faults).After(err)
      ensures err == Success || err == NetworkFailedWrite
      ensures sent <= |data| && output == old(output) + data[..sent]
    {
      sent :| 0 <= sent <= |data|;
      output := output + data[..sent];
      err := Success;
      if * { err := NetworkFailedWrite; }
      faults := faults.After(err);
    }
  }

  class Timer {
    var remaining: int
    /** The times it has been set to, and what it has said when it was looked at. */
    ghost var settings: seq<nat>
    ghost var looks: seq<int>

    constructor ()
      ensures remaining == 0 && settings == [] && looks == []
    {
      remaining, settings, looks := 0, [], [];
    }

    method Set(timeout: nat)
      modifies this`remaining, this`settings
      ensures remaining == timeout && settings == old(settings) + [timeout]
    {
      remaining, settings := timeout, settings + [timeout];
    }

    /** The time left; by the next look some time has passed. */
    method Get() returns (t: int)
      modifies this`remaining, this`looks
      ensures remaining < t <= old(remaining) && looks == old(looks) + [t]
    {
      t :| t <= remaining;
      var left: int :| left < t;
      remaining, looks := left, looks + [t];
    }
  }
}

/** Where ClientContext takes the bytes it sends from (libraries/W600WiFi/DataSource.h).  A source
    hands out a view of its next bytes and later releases some of them; both kinds must behave like
    one sequence of bytes that is consumed from the front. */
module DataSources {
  import opened Sequences
  import opened Helpers

  /** A plain block of memory. */
  class BufferDataSource {
    const data: array<byte>
    const size: nat
    var pos: nat

    ghost predicate Valid()
      reads this
    {
      pos <= size <= data.Length
    }

    /** The bytes not yet released. */
    ghost function Rest(): (r: seq<byte>)
      requires Valid()
      reads this, data
      ensures |r| == size - pos
    {
      data[pos..size]
    }

    constructor (data: array<byte>, size: nat)
      requires size <= data.Length
      ensures Valid() && Rest() == data[..size] && this.data == data && pos == 0
    {
      this.data, this.size, pos := data, size, 0;
    }

    method Available() returns (n: nat)
      requires Valid()
      ensures n == |Rest()|
    {
      n := size - pos;
    }

    method GetBuffer(n: nat) returns (buf: array<byte>, at: nat)
      requires Valid() && n <= |Rest()|
      ensures buf == data && at + n <= buf.Length && buf[at..at + n] == Rest()[..n]
    {
      return data, pos;
    }

    method ReleaseBuffer(n: nat)
      requires Valid() && n <= |Rest()|
      modifies this
      ensures Valid() && Rest() == old(Rest())[n..] && pos == old(pos) + n
    {
      pos := pos + n;
    }
  }

  /** memcpy to a place in an array. */
  method MemCpy(dst: array<byte>, at: nat, chunk: seq<byte>)
    requires at + |chunk| <= dst.Length
    modifies dst
    ensures dst[..at] == old(dst[..at]) && dst[at..at + |chunk|] == chunk
    ensures dst[at + |chunk|..] == old(dst[at + |chunk|..])
  {
    forall k | 0 <= k < |chunk| { dst[at + k] := chunk[k]; }
  }

  lemma Slices(a: seq<byte>, from: nat, to: nat, n: nat)
    requires from + n <= to <= |a|
    ensures a[from..to][..n] == a[from..from + n] && a[from..to][n..] == a[from + n..to]
  {}

  /** A reader over a block of memory. */
  class ProgmemStream {
    const buf: array<byte>
    const size: nat
    var left: nat

    ghost predicate Valid()
      reads this
    {
      left <= size <= buf.Length
    }

    ghost function Rest(): seq<byte>
      requires Valid()
      reads this, buf
    {
      buf[size - left..size]
    }

    constructor (buf: array<byte>, size: nat)
      requires size <= buf.Length
      ensures Valid() && Rest() == buf[..size] && this.buf == buf && this.size == size
    {
      this.buf, this.size, left := buf, size, size;
    }

    method ReadBytes(dst: array<byte>, at: nat, n: nat) returns (willRead: nat)
      requires Valid() && at + n <= dst.Length && dst != buf
      modifies this, dst
      ensures Valid() && willRead == if old(left) < n then old(left) else n
      ensures left == old(left) - willRead
      ensures Rest() == old(Rest())[willRead..]
      ensures dst[..at] == old(dst[..at]) && dst[at + willRead..] == old(dst[at + willRead..])
      ensures dst[at..at + willRead] == old(Rest())[..willRead]
    {
      willRead := if left < n then left else n;
      var from := size - left;
      ghost var block := buf[..];
      MemCpy(dst, at, buf[from..from + willRead]);
      assert buf[..] == block;
      left := left - willRead;
      Slices(block, from, size, willRead);
    }
  }

  /** A source that reads ahead from a stream into a buffer of its own. */
  class BufferedStreamDataSource {
    const stream: ProgmemStream
    const size: nat
    var buffer: array?<byte>
    var bufferSize: nat
    var pos: nat
    var streamPos: nat
    /** Everything the stream had to give. */
    ghost const source: seq<byte>

    /** The buffer holds exactly the bytes read from the stream and not yet released. */
    ghost predicate Valid()
      reads this, stream, stream.buf, buffer
    {
      && pos <= streamPos <= size == |source|
      && stream.Valid() && stream.Rest() == source[streamPos..]
      && bufferSize == (if buffer == null then 0 else buffer.Length)
      && streamPos - pos <= bufferSize
      && (buffer != null ==> buffer != stream.buf && buffer[..streamPos - pos] == source[pos..streamPos])
    }

    ghost function Rest(): (r: seq<byte>)
      requires Valid()
      reads this, stream, stream.buf, buffer
      ensures |r| == size - pos
    {
      source[pos..]
    }

    constructor (stream: ProgmemStream, size: nat)
      requires stream.Valid() && |stream.Rest()| == size
      ensures Valid() && source == stream.Rest() && buffer == null && this.stream == stream && pos == 0
    {
      this.stream, this.size, buffer, bufferSize, pos, streamPos, source := stream, size, null, 0, 0, 0, stream.Rest();
    }

    method Available() returns (n: nat)
      requires Valid()
      ensures n == |Rest()|
    {
      n := size - pos;
    }

    /** Makes the buffer large enough, then reads what is missing. */
    method GetBuffer(n: nat) returns (buf: array?<byte>)
      requires Valid() && n <= |Rest()|
      modifies this, stream, buffer
      ensures Valid() && Rest() == old(Rest()) && pos == old(pos) && n <= streamPos - pos
      ensures buf == buffer && (buf == old(buffer) || fresh(buf)) && (n > 0 ==> buf != null && n <= buf.Length && buf[..n] == Rest()[..n])
    {
      var streamRead := streamPos - pos;
      var minBufferSize := if n > streamRead then n else streamRead;
      if bufferSize < minBufferSize { Grow(minBufferSize); }
      if n > streamRead { Fetch(n); }
      buf := buffer;
      DropDrop(source, pos, n);
      if n > 0 { assert buf[..n] == buf[..streamPos - pos][..n] == source[pos..streamPos][..n]; }
    }

    method Grow(newSize: nat)
      requires Valid() && bufferSize < newSize && streamPos - pos <= newSize
      modifies this`buffer, this`bufferSize
      ensures Valid() && bufferSize == newSize && fresh(buffer)
    {
      var streamRead := streamPos - pos;
      var newBuffer := new byte[newSize];
      if buffer != null && streamRead > 0 {
        forall k | 0 <= k < streamRead { newBuffer[k] := buffer[k]; }
        assert newBuffer[..streamRead] == buffer[..streamRead];
      }
      buffer, bufferSize := newBuffer, newSize;
    }

    method Fetch(n: nat)
      requires Valid() && streamPos - pos < n <= bufferSize && n <= |Rest()| && buffer != null
      modifies this`streamPos, stream, buffer
      ensures Valid() && streamPos == pos + n
    {
      var streamRead := streamPos - pos;
      var rem := n - streamRead;
      var cb := stream.ReadBytes(buffer, streamRead, rem);
      assert cb == rem;
      JoinParts(buffer[..], streamRead, rem, source, pos, streamPos);
      streamPos := streamPos + rem;
    }

    method ReleaseBuffer(n: nat)
      requires Valid() && n <= streamPos - pos
      modifies this`pos, buffer
      ensures Valid() && Rest() == old(Rest())[n..] && pos == old(pos) + n && streamPos == old(streamPos)
    {
      if n == 0 { return; }
      ghost var held := buffer[..streamPos - pos];
      pos := pos + n;
      if pos < streamPos {
        var ahead := buffer[n..n + (streamPos - pos)];
        forall k | 0 <= k < streamPos - pos { buffer[k] := ahead[k]; }
        assert buffer[..streamPos - pos] == held[n..];
      }
    }
  }

  lemma JoinParts(buf: seq<byte>, k: nat, n: nat, source: seq<byte>, from: nat, mid: nat)
    requires k + n <= |buf| && from + k == mid && mid + n <= |source|
    requires buf[..k] == source[from..mid] && buf[k..k + n] == source[mid..][..n]
    ensures buf[..k + n] == source[from..mid + n]
  {
    assert buf[..k + n] == buf[..k] + buf[k..k + n];
    assert source[from..mid + n] == source[from..mid] + source[mid..][..n];
  }

  /** The base class: one contract for both kinds, which is the refinement between them. */
  class DataSource {
    const plain: BufferDataSource?
    const buffered: BufferedStreamDataSource?
    /** All the bytes the source started with. */
    ghost const all: seq<byte>
    /** What the source itself writes to. */
    ghost var own: set<object>

    ghost predicate Valid()
      reads this, own, Given()
    {
      && (plain == null <==> buffered != null) && this in own
      && (plain != null ==> plain in own && (forall p | p in own :: p == this || p == plain)
                            && plain.Valid() && plain.pos <= |all| && plain.Rest() == all[plain.pos..])
      && (buffered != null ==> buffered in own && buffered.stream in own && (buffered.buffer != null ==> buffered.buffer in own)
                               && (forall p | p in own :: p == this || p == buffered || p == buffered.stream || p == buffered.buffer)
                               && buffered.Valid() && buffered.pos <= |all| && buffered.Rest() == all[buffered.pos..])
    }

    /** What the source only reads. */
    ghost function Given(): set<object> {
      (if plain != null then {plain.data} else {}) + if buffered != null then {buffered, buffered.stream.buf} else {}
    }

    /** How many bytes have been released. */
    ghost function Taken(): (n: nat)
      requires Valid()
      reads this, own, Given()
      ensures n <= |all|
    {
      if plain != null then plain.pos else buffered.pos
    }

    /** How many more may be released now. */
    ghost function Held(): nat
      requires Valid()
      reads this, own, Given()
    {
      if plain != null then plain.size - plain.pos else buffered.streamPos - buffered.pos
    }

    constructor Plain(source: BufferDataSource)
      requires source.Valid() && source.pos == 0
      ensures Valid() && plain == source && all == source.Rest() && Taken() == 0
    {
      plain, buffered, all := source, null, source.Rest();
      own := {this, source};
      new;
      assert all[0..] == all;
    }

    constructor Buffered(source: BufferedStreamDataSource)
      requires source.Valid() && source.pos == 0 && source.buffer == null
      ensures Valid() && buffered == source && source.buffer == null && all == source.source && Taken() == 0
    {
      plain, buffered, all := null, source, source.source;
      own := {this, source, source.stream};
    }

    /** Nothing but byte arrays and objects of these classes belongs to a source. */
    lemma OwnKinds(p: object)
      requires Valid() && !(p is DataSource) && !(p is BufferDataSource) && !(p is BufferedStreamDataSource)
      requires !(p is ProgmemStream) && !(p is array<byte>)
      ensures p !in own
    {}

    method Available() returns (n: nat)
      requires Valid()
      ensures n == |all| - Taken()
    {
      if plain != null { n := plain.Available(); } else { n := buffered.Available(); }
    }

    /** The next `n` bytes, as a place in memory; nothing is consumed. */
    method GetBuffer(n: nat) returns (buf: array<byte>, at: nat)
      requires Valid() && 0 < n <= |all| - Taken()
      modifies own
      ensures Valid() && Taken() == old(Taken()) && fresh(own - old(own)) && n <= Held()
      ensures at + n <= buf.Length && buf[at..at + n] == all[Taken()..Taken() + n]
    {
      DropDrop(all, Taken(), n);
      if plain != null {
        buf, at := plain.GetBuffer(n);
      } else {
        buf := GetBuffered(n);
        at := 0;
      }
    }

    /** From the source that reads ahead, whose buffer may be a new one afterwards. */
    method GetBuffered(n: nat) returns (buf: array<byte>)
      requires Valid() && buffered != null && 0 < n <= |all| - Taken()
      modifies own
      ensures Valid() && Taken() == old(Taken()) && fresh(own - old(own)) && n <= Held()
      ensures n <= buf.Length && buf[..n] == all[Taken()..][..n]
    {
      var b := buffered.GetBuffer(n);
      buf := b;
      own := {this, buffered, buffered.stream, b};
    }

    method ReleaseBuffer(n: nat)
      requires Valid() && n <= Held()
      modifies own
      ensures Valid() && Taken() == old(Taken()) + n && own == old(own)
    {
      DropDrop(all, Taken(), n);
      if plain != null { plain.ReleaseBuffer(n); } else { buffered.ReleaseBuffer(n); }
    }
  }

  /** The source that write(data, size) makes. */
  method BlockSource(data: array<byte>, size: nat) returns (ds: DataSource)
    requires size <= data.Length
    ensures fresh(ds.own) && ds.Valid() && ds.Taken() == 0 && ds.all == data[..size]
  {
    var source := new BufferDataSource(data, size);
    ds := new DataSource.Plain(source);
  }

  method BufferedProgmem(data: array<byte>, size: nat, ghost bytes: seq<byte>) returns (source: BufferedStreamDataSource)
    requires size <= data.Length && bytes == data[..size]
    ensures fresh(source) && fresh(source.stream) && source.Valid() && source.pos == 0 && source.buffer == null
    ensures source.source == bytes
  {
    var stream := new ProgmemStream(data, size);
    source := new BufferedStreamDataSource(stream, size);
  }

  /** The source that write_P(data, size) makes. */
  method ProgmemSource(data: array<byte>, size: nat, ghost bytes: seq<byte>) returns (ds: DataSource)
    requires size <= data.Length && bytes == data[..size]
    ensures fresh(ds.own) && ds.Valid() && ds.Taken() == 0 && ds.all == bytes
  {
    var source := BufferedProgmem(data, size, bytes);
    ds := new DataSource.Buffered(source);
  }
}

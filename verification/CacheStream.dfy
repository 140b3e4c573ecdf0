/** `cCacheStream`: a write buffer and a read buffer in front of a device. */
module Caches {
  import opened Bits
  import opened Common

  /** One call of the device's `read`: the bytes asked for, and how many came. */
  datatype Call = Call(asked: nat, given: nat)

  /** The stream below. It takes all bytes it is given, and may return fewer than asked for: an
      eager one returns at least one while it has any, another one may return none. */
  class Device {
    const eager: bool
    var written: seq<byte>
    var unread: seq<byte>
    ghost var calls: seq<Call>

    constructor (unread: seq<byte>, eager: bool)
      ensures written == [] && this.unread == unread && this.eager == eager && calls == []
    {
      written, this.unread, this.eager, calls := [], unread, eager, [];
    }

    method PipeWrite(buffer: seq<byte>)
      modifies this`written
      ensures written == old(written) + buffer
    {
      written := written + buffer;
    }

    method Read(length: nat) returns (buffer: seq<byte>)
      modifies this`unread, this`calls
      ensures |buffer| <= length && buffer + unread == old(unread)
      ensures eager && length > 0 && old(unread) != [] ==> buffer != []
      ensures calls == old(calls) + [Call(length, |buffer|)]
    {
      var most := Min(length, |unread|);
      var n: nat :| n <= most && (eager && most > 0 ==> n > 0);
      buffer, unread := unread[..n], unread[n..];
      calls := calls + [Call(length, n)];
    }
  }

  class CacheStream {
    const stream: Device
    const readCache: array<byte>
    const writeCache: array<byte>
    var writePosition: nat
    var readPosition: nat
    var readUse: nat

    ghost predicate Valid()
      reads this
    {
      && readCache != writeCache
      && writePosition <= writeCache.Length
      && readPosition <= readUse <= readCache.Length
    }

    /** All bytes accepted: those the device has and those still in the buffer. */
    ghost function Accepted(): seq<byte>
      requires Valid()
      reads this, stream, writeCache
    {
      stream.written + writeCache[..writePosition]
    }

    /** All bytes still to come: those in the buffer and those the device has. */
    ghost function Pending(): seq<byte>
      requires Valid()
      reads this, stream, readCache
    {
      readCache[readPosition..readUse] + stream.unread
    }

    constructor (stream: Device, readSize: nat, writeSize: nat)
      ensures Valid() && this.stream == stream && fresh(readCache) && fresh(writeCache)
      ensures readCache.Length == readSize && writeCache.Length == writeSize
      ensures Accepted() == stream.written && Pending() == stream.unread
      ensures writePosition == readPosition == readUse == 0
    {
      this.stream := stream;
      readCache := new byte[readSize];
      writeCache := new byte[writeSize];
      writePosition, readPosition, readUse := 0, 0, 0;
    }

    /** `memcpy` into a buffer. */
    static method CopyIn(cache: array<byte>, at: nat, bytes: seq<byte>)
      requires at + |bytes| <= cache.Length
      modifies cache
      ensures cache[..at] == old(cache[..at]) && cache[at..at + |bytes|] == bytes
    {
      for i := 0 to |bytes|
        invariant cache[..at] == old(cache[..at]) && cache[at..at + i] == bytes[..i]
      {
        cache[at + i] := bytes[i];
        assert cache[at..at + i + 1] == cache[at..at + i] + [bytes[i]];
      }
      assert bytes[..|bytes|] == bytes;
    }

    /** Takes what fits behind the buffered bytes, after emptying a full buffer. */
    method Write(buffer: seq<byte>) returns (written: nat)
      requires Valid()
      modifies this`writePosition, stream`written, writeCache
      ensures Valid() && written == Min(|buffer|, old(if writePosition == writeCache.Length then writeCache.Length
                                                      else writeCache.Length - writePosition))
      ensures stream.written == if old(writePosition == writeCache.Length) then old(Accepted()) else old(stream.written)
      ensures Accepted() == old(Accepted()) + buffer[..written]
      ensures written == 0 <==> buffer == [] || writeCache.Length == 0
    {
      if writePosition == writeCache.Length {
        stream.PipeWrite(writeCache[..writePosition]);
        writePosition := 0;
      }
      ghost var down, before := stream.written, writeCache[..writePosition];
      assert down + before == old(Accepted());
      written := Min(|buffer|, writeCache.Length - writePosition);
      CopyIn(writeCache, writePosition, buffer[..written]);
      writePosition := writePosition + written;
      assert writeCache[..writePosition] == before + buffer[..written];
      assert down + (before + buffer[..written]) == (down + before) + buffer[..written];
    }

    /** `pipeWrite` above the cache. */
    method PipeWrite(buffer: seq<byte>)
      requires Valid() && writeCache.Length >= 1
      modifies this`writePosition, stream`written, writeCache
      ensures Valid() && Accepted() == old(Accepted()) + buffer
    {
      hide Accepted;
      var done := 0;
      while done != |buffer|
        invariant Valid() && done <= |buffer|
        invariant Accepted() == old(Accepted()) + buffer[..done]
        decreases |buffer| - done
      {
        var n := Write(buffer[done..]);
        assert buffer[..done + n] == buffer[..done] + buffer[done..][..n];
        done := done + n;
      }
    }

    /** Sends the buffered bytes down and forgets the read ones. */
    method Flush()
      requires Valid()
      modifies this, stream`written
      ensures Valid() && stream.written == old(Accepted()) == Accepted()
      ensures Pending() == stream.unread
      ensures Pending() == old(Pending()) <==> old(readPosition == readUse)
    {
      stream.PipeWrite(writeCache[..writePosition]);
      writePosition, readPosition, readUse := 0, 0, 0;
      assert |old(Pending())| == |stream.unread| + old(readUse - readPosition);
    }

    /** Returns buffered bytes, as many as there are. When there are none it first asks the
        device, once and for a whole buffer. */
    method Read(length: nat) returns (buffer: seq<byte>)
      requires Valid()
      modifies this`readPosition, this`readUse, stream`unread, stream`calls, readCache
      ensures Valid() && buffer + Pending() == old(Pending())
      ensures |buffer| < length ==> readPosition == readUse
      ensures old(readPosition < readUse) ==>
                && |buffer| == Min(length, old(readUse - readPosition))
                && stream.calls == old(stream.calls) && stream.unread == old(stream.unread)
      ensures old(readPosition == readUse) ==>
                && |stream.calls| == old(|stream.calls|) + 1
                && var call := stream.calls[old(|stream.calls|)];
                   && stream.calls == old(stream.calls) + [call]
                   && call.asked == readCache.Length && |buffer| == Min(length, call.given)
                   && call.given <= |old(stream.unread)| && stream.unread == old(stream.unread)[call.given..]
      ensures stream.eager && length > 0 && readCache.Length > 0 && old(Pending()) != [] ==> buffer != []
    {
      if readPosition == readUse {
        var piece := stream.Read(readCache.Length);
        CopyIn(readCache, 0, piece);
        readUse, readPosition := |piece|, 0;
        assert readCache[readPosition..readUse] == piece;
      }
      ghost var cached := readCache[readPosition..readUse];
      assert cached + stream.unread == old(Pending());
      var lread := Min(length, readUse - readPosition);
      buffer := readCache[readPosition..readPosition + lread];
      readPosition := readPosition + lread;
      assert buffer + readCache[readPosition..readUse] == cached;
    }
  }

  /** Whatever the buffer size and the chunks, the device gets the bytes in order, and all of
      them after the flush. */
  method WriteThrough(chunks: seq<seq<byte>>, writeSize: nat) returns (written: seq<byte>)
    requires writeSize >= 1
    ensures written == Concat(chunks)
  {
    hide CacheStream.Accepted, CacheStream.Pending;
    var device := new Device([], true);
    var cache := new CacheStream(device, 0, writeSize);
    assert chunks[..0] == [];
    for i := 0 to |chunks|
      invariant cache.Valid() && cache.Accepted() == Concat(chunks[..i])
      invariant fresh(cache) && fresh(cache.stream) && fresh(cache.writeCache)
    {
      assert chunks[..i + 1][..i] == chunks[..i];
      cache.PipeWrite(chunks[i]);
    }
    assert chunks[..|chunks|] == chunks;
    cache.Flush();
    written := device.written;
  }

  /** How many requests ask for anything. */
  ghost function Demands(requests: seq<nat>): nat {
    if requests == [] then 0
    else Demands(requests[..|requests| - 1]) + if requests[|requests| - 1] > 0 then 1 else 0
  }

  /** Whatever the buffer size, the requests and the device's short reads, no byte read is
      lost, repeated or out of place; and with an eager device enough requests get them all. */
  method ReadThrough(data: seq<byte>, requests: seq<nat>, readSize: nat, eager: bool)
    returns (pieces: seq<seq<byte>>)
    ensures |pieces| == |requests| && Concat(pieces) <= data
    ensures forall i :: 0 <= i < |pieces| ==> |pieces[i]| <= requests[i]
    ensures eager && readSize >= 1 && Demands(requests) >= |data| ==> Concat(pieces) == data
  {
    hide CacheStream.Accepted, CacheStream.Pending;
    var device := new Device(data, eager);
    var cache := new CacheStream(device, readSize, 0);
    pieces := [];
    for i := 0 to |requests|
      invariant cache.Valid() && |pieces| == i
      invariant fresh(cache) && fresh(cache.stream) && fresh(cache.readCache)
      invariant Concat(pieces) + cache.Pending() == data
      invariant cache.stream == device && cache.readCache.Length == readSize && device.eager == eager
      invariant forall k :: 0 <= k < i ==> |pieces[k]| <= requests[k]
      invariant eager && readSize >= 1 ==> |Concat(pieces)| >= Min(Demands(requests[..i]), |data|)
    {
      var piece := cache.Read(requests[i]);
      assert (pieces + [piece])[..i] == pieces && requests[..i + 1][..i] == requests[..i];
      pieces := pieces + [piece];
    }
    assert requests[..|requests|] == requests;
  }
}

/** `cQueueFifo`: a ring of bytes whose two pointers may rest at the very end, and whose flag
    tells a full ring from an empty one when they meet. */
module Queues {
  import opened Bits

  /** The bytes a ring holds, oldest first. */
  ghost function Ring(q: seq<byte>, r: nat, w: nat, full: bool): seq<byte>
    requires r <= |q| && w <= |q|
  {
    if r < w then q[r..w]
    else if r == w && !full then []
    else q[r..] + q[..w]
  }

  /** `q` with `bytes` copied to position `at`. */
  ghost function Copied(q: seq<byte>, at: nat, bytes: seq<byte>): (c: seq<byte>)
    requires at + |bytes| <= |q|
    ensures |c| == |q|
  {
    q[..at] + bytes + q[at + |bytes|..]
  }

  /** Room in front of the read pointer. */
  lemma AppendInside(q: seq<byte>, r: nat, w: nat, full: bool, bytes: seq<byte>)
    requires w < r <= |q| && w + |bytes| <= r
    ensures Ring(Copied(q, w, bytes), r, w + |bytes|, full || w + |bytes| == r) == Ring(q, r, w, full) + bytes
  {
    var c := Copied(q, w, bytes);
    assert c[r..] == q[r..] && c[..w + |bytes|] == q[..w] + bytes;
    assert q[r..] + (q[..w] + bytes) == (q[r..] + q[..w]) + bytes;
  }

  /** The flag matters only where the pointers meet. */
  lemma RingFlag(q: seq<byte>, r: nat, w: nat, full: bool, nowFull: bool)
    requires r <= |q| && w <= |q| && (r == w ==> nowFull)
    ensures Ring(q, r, w, full || w == r) == Ring(q, r, w, nowFull)
  {
  }

  /** Room behind the write pointer. */
  lemma AppendBehind(q: seq<byte>, r: nat, w: nat, full: bool, bytes: seq<byte>, nowFull: bool)
    requires r <= w && w + |bytes| <= |q| && (r == w ==> !full) && bytes != []
    ensures Ring(Copied(q, w, bytes), r, w + |bytes|, nowFull) == Ring(q, r, w, full) + bytes
  {
    var c := Copied(q, w, bytes);
    assert c[r..w + |bytes|] == q[r..w] + bytes;
  }

  lemma CopiedNothing(q: seq<byte>, w: nat)
    requires w <= |q|
    ensures Copied(q, w, []) == q
  {
  }

  /** Room behind the write pointer and at the start. */
  lemma AppendAround(q: seq<byte>, r: nat, w: nat, full: bool, tail: seq<byte>, head: seq<byte>)
    requires r <= w <= |q| && w + |tail| == |q| && 0 < |head| <= r && (r == w ==> !full)
    ensures Ring(Copied(Copied(q, w, tail), 0, head), r, |head|, |head| == r) == Ring(q, r, w, full) + (tail + head)
  {
    var c := Copied(Copied(q, w, tail), 0, head);
    assert c[r..] == q[r..w] + tail && c[..|head|] == head;
    assert (q[r..w] + tail) + head == q[r..w] + (tail + head);
  }

  /** A ring without room may be marked full. */
  lemma FullSame(q: seq<byte>, r: nat, w: nat, full: bool)
    requires r <= |q| && w <= |q| && |Ring(q, r, w, full)| == |q|
    ensures Ring(q, r, w, true) == Ring(q, r, w, full)
  {
  }

  /** Taking bytes off the front of a stretch that does not wrap. */
  lemma TakeStraight(q: seq<byte>, r: nat, w: nat, full: bool, n: nat)
    requires r < w <= |q| && 0 < n <= w - r
    ensures Ring(q, r, w, full) == q[r..r + n] + Ring(q, r + n, w, false)
  {
  }

  /** Taking bytes off the tail end of a stretch that wraps. */
  lemma TakeTail(q: seq<byte>, r: nat, w: nat, full: bool, n: nat)
    requires w <= r <= |q| && (r == w ==> full) && 0 < n <= |q| - r
    ensures Ring(q, r, w, full) == q[r..r + n] + Ring(q, r + n, w, false)
  {
    var front, rest, head := q[r..r + n], q[r + n..], q[..w];
    assert q[r..] == front + rest;
    assert (front + rest) + head == front + (rest + head);
  }

  /** Taking the whole tail end and some bytes from the start. */
  lemma TakeAround(q: seq<byte>, r: nat, w: nat, full: bool, n: nat)
    requires w <= r <= |q| && (r == w ==> full) && |q| - r < n <= |q| - r + w
    ensures Ring(q, r, w, full) == q[r..] + q[..n - (|q| - r)] + Ring(q, n - (|q| - r), w, false)
  {
    var k := n - (|q| - r);
    assert q[..w] == q[..k] + q[k..w];
  }

  lemma RingLength(q: seq<byte>, r: nat, w: nat, full: bool)
    requires r <= |q| && w <= |q|
    ensures |Ring(q, r, w, full)|
         == if r < w then w - r else if r == w && !full then 0 else |q| - r + w
  {
  }

  class QueueFifo {
    const queue: array<byte>
    var readPointer: nat
    var writePointer: nat
    var isFull: bool
    const queueSize: nat

    ghost predicate Valid()
      reads this, queue
    {
      && queue.Length == queueSize
      && readPointer <= queueSize && writePointer <= queueSize
      && (isFull ==> |Contents()| == queueSize)
    }

    /** The bytes in the queue, oldest first. */
    ghost function Contents(): seq<byte>
      requires queue.Length == queueSize && readPointer <= queueSize && writePointer <= queueSize
      reads this, queue
    {
      Ring(queue[..], readPointer, writePointer, isFull)
    }

    constructor (size: nat)
      ensures Valid() && Contents() == [] && queueSize == size && fresh(queue)
    {
      queue := new byte[size];
      queueSize := size;
      readPointer, writePointer, isFull := 0, 0, false;
    }

    /** `getFreespace`. */
    function FreeSpace(): (space: nat)
      requires Valid()
      reads this, queue
      ensures space == queueSize - |Contents()|
    {
      if readPointer == writePointer then
        if isFull then 0 else queueSize
      else if readPointer <= writePointer then queueSize - writePointer + readPointer
      else readPointer - writePointer
    }

    /** `getOccupyspace`. */
    function OccupySpace(): (space: nat)
      requires Valid()
      reads this, queue
      ensures space == |Contents()|
    {
      queueSize - FreeSpace()
    }

    /** `memcpy` into the ring. */
    method CopyIn(at: nat, bytes: seq<byte>)
      requires at + |bytes| <= queue.Length
      modifies queue
      ensures queue[..] == Copied(old(queue[..]), at, bytes)
    {
      for i := 0 to |bytes|
        invariant forall k :: 0 <= k < queue.Length ==>
                    queue[k] == if at <= k < at + i then bytes[k - at] else old(queue[k])
      {
        queue[at + i] := bytes[i];
      }
    }

    /** `memcpy` out of the ring. */
    method CopyOut(at: nat, n: nat) returns (bytes: seq<byte>)
      requires at + n <= queue.Length
      ensures bytes == queue[..][at..at + n]
    {
      bytes := queue[at..at + n];
    }

    /** The copies in `write`. `full` is the flag before the call. */
    method PutIn(bytes: seq<byte>, ghost full: bool)
      requires queue.Length == queueSize && readPointer <= queueSize && writePointer <= queueSize
      requires |Ring(queue[..], readPointer, writePointer, full)| + |bytes| <= queueSize
      modifies this`writePointer, queue
      ensures writePointer <= queueSize
      ensures bytes == [] ==> queue[..] == old(queue[..]) && writePointer == old(writePointer)
      ensures bytes != [] ==>
                var before := old(Ring(queue[..], readPointer, writePointer, full));
                Ring(queue[..], readPointer, writePointer, |before| + |bytes| == queueSize) == before + bytes
    {
      hide Ring, Copied;
      ghost var q, before := queue[..], Ring(queue[..], readPointer, writePointer, full);
      ghost var nowFull := |before| + |bytes| == queueSize;
      RingLength(q, readPointer, writePointer, full);
      var count := |bytes|;
      if count == 0 {
        CopiedNothing(q, writePointer);
      }
      if writePointer < readPointer {
        AppendInside(q, readPointer, writePointer, full, bytes);
        CopyIn(writePointer, bytes);
        writePointer := writePointer + count;
        RingFlag(queue[..], readPointer, writePointer, full, nowFull);
      } else {
        var count1 := queueSize - writePointer;
        if count > count1 {
          var count2 := count - count1;
          AppendAround(q, readPointer, writePointer, full, bytes[..count1], bytes[count1..]);
          assert bytes[..count1] + bytes[count1..] == bytes;
          CopyIn(writePointer, bytes[..count1]);
          CopyIn(0, bytes[count1..]);
          writePointer := count2;
        } else {
          if count > 0 {
            AppendBehind(q, readPointer, writePointer, full, bytes, nowFull);
          }
          CopyIn(writePointer, bytes);
          writePointer := writePointer + count;
        }
      }
    }

    /** Appends as many bytes as there is room for. */
    method Write(buffer: seq<byte>) returns (count: nat)
      requires Valid()
      modifies this`writePointer, this`isFull, queue
      ensures Valid()
      ensures count == Min(|buffer|, queueSize - old(|Contents()|))
      ensures Contents() == old(Contents()) + buffer[..count]
    {
      hide Ring;
      ghost var q, full := queue[..], isFull;
      var freespace := FreeSpace();
      if freespace == 0 {
        FullSame(q, readPointer, writePointer, full);
      }
      count := |buffer|;
      if count >= freespace {
        count := freespace;
        isFull := true;
      }
      PutIn(buffer[..count], full);
      assert count > 0 ==> !full;
    }

    /** The copies in `read`: with the flag cleared, the rest is what follows them. */
    method TakeOut(count: nat) returns (buffer: seq<byte>)
      requires Valid() && count <= |Contents()|
      modifies this`readPointer
      ensures readPointer <= queueSize && |buffer| == count
      ensures count == 0 ==> readPointer == old(readPointer)
      ensures count > 0 ==>
                old(Contents()) == buffer + Ring(queue[..], readPointer, writePointer, false)
    {
      hide Ring;
      ghost var q, r := queue[..], readPointer;
      RingLength(q, r, writePointer, isFull);
      if writePointer > readPointer {
        if count > 0 {
          TakeStraight(q, r, writePointer, isFull, count);
        }
        buffer := CopyOut(readPointer, count);
        readPointer := readPointer + count;
      } else {
        var count1 := queueSize - readPointer;
        if count > count1 {
          var count2 := count - count1;
          TakeAround(q, r, writePointer, isFull, count);
          var tail := CopyOut(readPointer, count1);
          var head := CopyOut(0, count2);
          assert q[r..r + count1] == q[r..] && q[0..count2] == q[..count2];
          buffer := tail + head;
          readPointer := count2;
        } else {
          if count > 0 {
            TakeTail(q, r, writePointer, isFull, count);
          }
          buffer := CopyOut(readPointer, count);
          readPointer := readPointer + count;
        }
      }
    }

    /** Removes at most `request` bytes from the front. */
    method Read(request: nat) returns (buffer: seq<byte>)
      requires Valid()
      modifies this`readPointer, this`isFull
      ensures Valid()
      ensures |buffer| == Min(request, old(|Contents()|))
      ensures old(Contents()) == buffer + Contents()
    {
      hide Ring;
      var count := request;
      if count > OccupySpace() {
        count := OccupySpace();
      }
      buffer := TakeOut(count);
      if count > 0 {
        isFull := false;
      }
    }
  }

  // ----- runs -----

  datatype Request = Offer(bytes: seq<byte>) | Demand(n: nat)

  /** A plain bounded queue: what it holds, all bytes it let in, all bytes it gave out. */
  datatype Fifo = Fifo(held: seq<byte>, entered: seq<byte>, left: seq<byte>)

  ghost function FifoStep(capacity: nat, f: Fifo, request: Request): Fifo
    requires |f.held| <= capacity
  {
    match request
    case Offer(bytes) =>
      var n := Min(|bytes|, capacity - |f.held|);
      Fifo(f.held + bytes[..n], f.entered + bytes[..n], f.left)
    case Demand(n) =>
      var m := Min(n, |f.held|);
      Fifo(f.held[m..], f.entered, f.left + f.held[..m])
  }

  /** Over every run bytes leave in the order they entered, none is lost or made up, and the
      capacity is kept. */
  ghost function FifoRun(capacity: nat, requests: seq<Request>): (f: Fifo)
    ensures |f.held| <= capacity && f.left + f.held == f.entered
  {
    if requests == [] then Fifo([], [], [])
    else FifoStep(capacity, FifoRun(capacity, requests[..|requests| - 1]), requests[|requests| - 1])
  }

  /** Every run of the ring is a run of the plain queue. */
  method Run(size: nat, requests: seq<Request>) returns (entered: seq<byte>, left: seq<byte>, held: nat)
    ensures var f := FifoRun(size, requests);
            entered == f.entered && left == f.left && held == |f.held|
  {
    var q := new QueueFifo(size);
    entered, left := [], [];
    for i := 0 to |requests|
      invariant q.Valid() && q.queueSize == size && fresh(q.queue)
      invariant FifoRun(size, requests[..i]) == Fifo(q.Contents(), entered, left)
    {
      hide Ring;
      assert requests[..i + 1][..i] == requests[..i];
      match requests[i] {
        case Offer(bytes) =>
          var n := q.Write(bytes);
          entered := entered + bytes[..n];
        case Demand(n) =>
          ghost var before := q.Contents();
          var out := q.Read(n);
          assert before[..|out|] == out && before[|out|..] == q.Contents();
          left := left + out;
      }
    }
    assert requests[..|requests|] == requests;
    held := q.OccupySpace();
  }
}

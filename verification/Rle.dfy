/** `cRLEcompression`: run-length coding with an escape flag, over a byte stream. */
module Rle {
  import opened Bits
  import opened MemoryStreams
  import opened Common

  ghost function Repeat(b: byte, n: nat): (bytes: seq<byte>)
    ensures |bytes| == n
  {
    seq(n, _ => b)
  }

  // ----- the format -----

  /** What an encoded stream stands for: the bytes it yields, and whether it ends between
      two items or inside an escape. */
  datatype Plain = Plain(bytes: seq<byte>, clean: bool)

  ghost function Prepend(head: seq<byte>, rest: Plain): Plain {
    Plain(head + rest.bytes, rest.clean)
  }

  /** How often a run yields its byte. The reader keeps `length - 1` in 32 bits and counts it
      down before testing for zero, so the lengths 0 and 1, which the writer never sends, wrap. */
  function RunLength(length: byte): nat {
    if length >= 2 then length as nat else UINT + length as nat
  }

  /** How many bytes the first item takes; 0 when the stream ends inside it. */
  ghost function ItemSize(flag: byte, code: seq<byte>): (size: nat)
    requires code != []
    ensures size <= |code|
  {
    if code[0] != flag then 1
    else if |code| < 2 then 0
    else if code[1] == flag then 2
    else if |code| < 3 then 0
    else 3
  }

  /** What the first item stands for. */
  ghost function Item(flag: byte, code: seq<byte>): (bytes: seq<byte>)
    requires code != [] && ItemSize(flag, code) > 0
    ensures bytes != []
  {
    if code[0] != flag then [code[0]]
    else if code[1] == flag then [flag]
    else Repeat(code[2], RunLength(code[1]))
  }

  ghost function Decode(flag: byte, code: seq<byte>): Plain
    decreases |code|
  {
    if code == [] then Plain([], true)
    else
      var n := ItemSize(flag, code);
      if n == 0 then Plain([], false)
      else Prepend(Item(flag, code), Decode(flag, code[n..]))
  }

  lemma ItemAppend(flag: byte, a: seq<byte>, b: seq<byte>)
    requires a != [] && ItemSize(flag, a) > 0
    ensures ItemSize(flag, a + b) == ItemSize(flag, a) && Item(flag, a + b) == Item(flag, a)
  {
  }

  lemma PrependTwice(head: seq<byte>, mid: seq<byte>, rest: Plain)
    ensures Prepend(head, Prepend(mid, rest)) == Prepend(head + mid, rest)
  {
  }

  lemma {:induction false} DecodeAppend(flag: byte, a: seq<byte>, b: seq<byte>)
    requires Decode(flag, a).clean
    ensures Decode(flag, a + b) == Prepend(Decode(flag, a).bytes, Decode(flag, b))
    decreases |a|
  {
    hide Item, ItemSize;
    if a == [] {
      assert a + b == b;
    } else {
      var n := ItemSize(flag, a);
      ItemAppend(flag, a, b);
      assert (a + b)[n..] == a[n..] + b;
      DecodeAppend(flag, a[n..], b);
      PrependTwice(Item(flag, a), Decode(flag, a[n..]).bytes, Decode(flag, b));
    }
  }

  /** What `rleWriteFlush` sends for a pending run. */
  ghost function RunCode(flag: byte, b: byte, count: nat): seq<byte>
    requires count < 256
  {
    if count < 3 then
      if b == flag then Repeat(flag, 2 * count) else Repeat(b, count)
    else if count as byte == flag then
      [flag, (count - 1) as byte, b] + (if b == flag then [b, b] else [b])
    else
      [flag, count as byte, b]
  }

  /** For every flag the code of a run decodes to the run and takes at most twice its length. */
  lemma RunCodeDecodes(flag: byte, b: byte, count: nat)
    requires count < 256
    ensures Decode(flag, RunCode(flag, b, count)) == Plain(Repeat(b, count), true)
    ensures |RunCode(flag, b, count)| <= 2 * count
  {
    hide Decode;
    DecodeNothing(flag);
    var code := RunCode(flag, b, count);
    if count == 0 {
      assert code == [] && Repeat(b, count) == [];
    } else if count < 3 && b != flag {
      DecodeLiteral(flag, b, []);
      DecodeLiteral(flag, b, [b]);
      assert [b] + [] == [b];
      assert code == if count == 1 then [b] + [] else [b] + ([b] + []);
    } else if count < 3 {
      DecodeFlag(flag, []);
      DecodeFlag(flag, [flag, flag]);
      assert [flag, flag] + [] == [flag, flag];
      assert code == if count == 1 then [flag, flag] + [] else [flag, flag] + ([flag, flag] + []);
    } else if count as byte != flag {
      DecodeRun(flag, count as byte, b, []);
      assert code == [flag, count as byte, b] + [];
    } else {
      var tail := if b == flag then [b, b] else [b];
      DecodeRun(flag, (count - 1) as byte, b, tail);
      if b == flag {
        DecodeFlag(flag, []);
        assert tail == [flag, flag] + [];
      } else {
        DecodeLiteral(flag, b, []);
        assert tail == [b] + [];
      }
    }
  }

  // ----- the compressor -----

  /** What has gone out, and the pending run. */
  datatype Packer = Packer(code: seq<byte>, b: byte, count: nat)

  ghost predicate Pending(p: Packer) {
    p.count < 255
  }

  /** Sends the pending run. */
  ghost function Sent(flag: byte, p: Packer): Packer
    requires p.count < 256
  {
    Packer(p.code + RunCode(flag, p.b, p.count), p.b, 0)
  }

  /** One byte of input: a run goes out when it reaches 255 bytes or another byte comes. */
  ghost function PackOne(flag: byte, p: Packer, b: byte): (n: Packer)
    requires Pending(p)
    ensures Pending(n)
  {
    if b != p.b then Packer(Sent(flag, p).code, b, 1)
    else if p.count + 1 == 255 then Sent(flag, p.(count := 255))
    else p.(count := p.count + 1)
  }

  ghost function PackAll(flag: byte, p: Packer, data: seq<byte>): (n: Packer)
    requires Pending(p)
    ensures Pending(n)
  {
    if data == [] then p else PackOne(flag, PackAll(flag, p, data[..|data| - 1]), data[|data| - 1])
  }

  // ----- how small the code is -----

  /** How often neighbours differ. */
  ghost function Changes(data: seq<byte>): nat {
    if |data| < 2 then 0
    else Changes(data[..|data| - 1]) + if data[|data| - 2] != data[|data| - 1] then 1 else 0
  }

  /** A run costs at most five bytes, and a run of none nothing. */
  lemma RunCost(flag: byte, b: byte, count: nat)
    requires count < 256
    ensures |RunCode(flag, b, count)| <= if count == 0 then 0 else 5
  {
  }

  /** Each run sent was full, ended by a change or by a flush. */
  ghost predicate Thrifty(p: Packer, data: seq<byte>, full: nat, syncs: nat) {
    && |p.code| <= 5 * (Changes(data) + full + syncs)
    && 255 * full + p.count <= |data|
    && (p.count > 0 ==> data != [] && data[|data| - 1] == p.b)
  }

  lemma ChangesSnoc(data: seq<byte>, b: byte)
    ensures Changes(data + [b])
         == Changes(data) + if data != [] && data[|data| - 1] != b then 1 else 0
  {
    assert (data + [b])[..|data|] == data;
  }

  lemma ThriftyOne(flag: byte, p: Packer, data: seq<byte>, full: nat, syncs: nat, b: byte) returns (now: nat)
    requires Pending(p) && Thrifty(p, data, full, syncs)
    ensures Thrifty(PackOne(flag, p, b), data + [b], now, syncs)
  {
    hide RunCode, Changes;
    ChangesSnoc(data, b);
    RunCost(flag, p.b, p.count);
    RunCost(flag, p.b, 255);
    now := if b == p.b && p.count + 1 == 255 then full + 1 else full;
  }

  lemma {:induction false} ThriftyAll(
    flag: byte, p: Packer, data: seq<byte>, full: nat, syncs: nat, more: seq<byte>) returns (now: nat)
    requires Pending(p) && Thrifty(p, data, full, syncs)
    ensures Thrifty(PackAll(flag, p, more), data + more, now, syncs)
    decreases |more|
  {
    hide Thrifty, PackOne;
    if more == [] {
      assert data + more == data;
      now := full;
    } else {
      var n := |more| - 1;
      var before := ThriftyAll(flag, p, data, full, syncs, more[..n]);
      assert data + more == (data + more[..n]) + [more[n]];
      now := ThriftyOne(flag, PackAll(flag, p, more[..n]), data + more[..n], before, syncs, more[n]);
    }
  }

  lemma ThriftySync(flag: byte, p: Packer, data: seq<byte>, full: nat, syncs: nat)
    requires Pending(p) && Thrifty(p, data, full, syncs)
    ensures Thrifty(Sent(flag, p), data, full, syncs + 1)
  {
    hide RunCode, Changes;
    RunCost(flag, p.b, p.count);
  }

  lemma {:induction false} RunPending(flag: byte, b: byte, n: nat)
    requires 1 <= n < 255
    ensures PackAll(flag, Packer([], 0, 0), Repeat(b, n)) == Packer([], b, n)
  {
    hide Repeat;
    var before := RepeatLess(b, n);
    RunCost(flag, 0, 0);
    if n > 1 {
      RunPending(flag, b, n - 1);
    } else {
      assert before == [];
    }
  }

  lemma RepeatLess(b: byte, n: nat) returns (before: seq<byte>)
    requires n >= 1
    ensures Repeat(b, n)[..n - 1] == Repeat(b, n - 1) == before && Repeat(b, n)[n - 1] == b
  {
    before := Repeat(b, n - 1);
  }

  /** Up to 255 equal bytes go out as one run. */
  lemma RunPacked(flag: byte, b: byte, n: nat)
    requires n <= 255
    ensures Sent(flag, PackAll(flag, Packer([], 0, 0), Repeat(b, n))).code == RunCode(flag, b, n)
  {
    hide PackAll, RunCode;
    RunCost(flag, b, 0);
    RunCost(flag, 0, 0);
    var start := Packer([], 0, 0);
    if n == 0 {
      NothingPacked(flag, start);
      assert Repeat(b, 0) == [];
    } else if n < 255 {
      RunPending(flag, b, n);
      assert [] + RunCode(flag, b, n) == RunCode(flag, b, n);
    } else {
      var before := RepeatLess(b, n);
      RunPending(flag, b, 254);
      PackedSnoc(flag, start, Repeat(b, n));
      assert [] + RunCode(flag, b, n) + [] == RunCode(flag, b, n);
    }
  }

  lemma NothingPacked(flag: byte, p: Packer)
    requires Pending(p)
    ensures PackAll(flag, p, []) == p
  {
  }

  lemma PackedSnoc(flag: byte, p: Packer, data: seq<byte>)
    requires Pending(p) && data != []
    ensures PackAll(flag, p, data) == PackOne(flag, PackAll(flag, p, data[..|data| - 1]), data[|data| - 1])
  {
  }

  lemma DecodeNothing(flag: byte)
    ensures Decode(flag, []) == Plain([], true)
  {
  }

  lemma DecodeLiteral(flag: byte, b: byte, rest: seq<byte>)
    requires b != flag
    ensures Decode(flag, [b] + rest) == Prepend([b], Decode(flag, rest))
  {
    assert ([b] + rest)[1..] == rest;
  }

  lemma DecodeFlag(flag: byte, rest: seq<byte>)
    ensures Decode(flag, [flag, flag] + rest) == Prepend([flag], Decode(flag, rest))
  {
    assert ([flag, flag] + rest)[2..] == rest;
  }

  lemma DecodeRun(flag: byte, length: byte, b: byte, rest: seq<byte>)
    requires length != flag
    ensures Decode(flag, [flag, length, b] + rest) == Prepend(Repeat(b, RunLength(length)), Decode(flag, rest))
  {
    assert ([flag, length, b] + rest)[3..] == rest;
  }

  /** Decoding looked at from its first item. */
  lemma DecodeHead(flag: byte, code: seq<byte>)
    ensures code == [] ==> Decode(flag, code) == Plain([], true)
    ensures code != [] && ItemSize(flag, code) == 0 ==> Decode(flag, code) == Plain([], false)
    ensures code != [] && code[0] != flag ==>
              Decode(flag, code) == Prepend([code[0]], Decode(flag, code[1..]))
    ensures |code| >= 2 && code[0] == flag && code[1] == flag ==>
              Decode(flag, code) == Prepend([flag], Decode(flag, code[2..]))
    ensures |code| >= 3 && code[0] == flag && code[1] != flag ==>
              Decode(flag, code) == Prepend(Repeat(code[2], RunLength(code[1])), Decode(flag, code[3..]))
  {
  }

  lemma PrependNothing(p: Plain)
    ensures Prepend([], p) == p
  {
  }

  lemma TakeFirst(data: seq<byte>, now: Plain)
    requires now.bytes != []
    ensures Prepend(data + [now.bytes[0]], Plain(now.bytes[1..], now.clean)) == Prepend(data, now)
  {
    assert now.bytes == [now.bytes[0]] + now.bytes[1..];
  }

  /** What a read that took `data` leaves. */
  lemma Taken(before: Plain, data: seq<byte>, rest: Plain)
    requires before == Prepend(data, rest)
    ensures |data| <= |before.bytes| && before.clean == rest.clean
    ensures before.bytes[..|data|] == data && before.bytes[|data|..] == rest.bytes
  {
  }

  lemma RunTurns(b: byte, n: nat, rest: Plain)
    requires n > 0
    ensures var p := Prepend(Repeat(b, n), rest);
            p.bytes[0] == b && p.bytes[1..] == Repeat(b, n - 1) + rest.bytes
  {
  }

  lemma RunOver(b: byte, rest: Plain)
    ensures Prepend(Repeat(b, 0), rest) == rest
  {
    assert Repeat(b, 0) == [];
  }

  // ----- the class -----

  /** `Truncated` is the "end of pipe" exception. */
  datatype RleRead = Data(bytes: seq<byte>) | Truncated

  datatype RleByte = One(b: byte) | EndOfData | Broken

  class RleStream {
    const stream: MemoryStream
    const flag: byte
    var writeByte: byte
    var writeCount: nat
    var isCompress: bool
    var readByte: byte
    var readCount: nat
    /** Where the encoded bytes of this object start. */
    ghost const base: nat

    constructor (stream: MemoryStream, flag: byte)
      requires stream.Valid()
      ensures this.stream == stream && this.flag == flag && base == stream.position
      ensures stream.IsEOS() && !stream.fixedSize ==> Writing() && Accepted() == []
      ensures stream.Valid() ==> Packing() == Packer([], 0, 0)
      ensures Reading() && Available() == Decode(flag, stream.Ahead())
    {
      this.stream, this.flag := stream, flag;
      writeByte, writeCount := 0, 0;
      isCompress, readCount, readByte := false, 0, *;
      base := stream.position;
    }

    // ----- writing -----

    ghost function Code(): seq<byte>
      requires stream.Valid() && base <= stream.position
      reads stream
    {
      stream.data[base..stream.position]
    }

    /** The encoded bytes are whole items, and at most twice as many as what they stand for. */
    ghost predicate Writing()
      reads this, stream
    {
      && stream.Valid() && stream.IsEOS() && !stream.fixedSize && base <= stream.position
      && writeCount < 255
      && Decode(flag, Code()).clean
      && |Code()| <= 2 * |Decode(flag, Code()).bytes|
    }

    /** All bytes written so far: those the encoded bytes stand for and the pending run. */
    ghost function Accepted(): seq<byte>
      requires Writing()
      reads this, stream
    {
      Decode(flag, Code()).bytes + Repeat(writeByte, writeCount)
    }

    /** The writing side as a value. */
    ghost function Packing(): Packer
      requires stream.Valid() && base <= stream.position
      reads this, stream
    {
      Packer(Code(), writeByte, writeCount)
    }

    method PutByte(b: byte)
      requires stream.Valid() && stream.IsEOS() && !stream.fixedSize && base <= stream.position
      modifies stream`data, stream`position
      ensures stream.Valid() && stream.IsEOS() && base <= stream.position
      ensures Code() == old(Code()) + [b]
    {
      ghost var before := stream.data;
      stream.PipeWrite([b]);
      assert stream.data == stream.Behind() == before + [b];
    }

    /** A byte several times over. */
    method PutTimes(b: byte, n: nat)
      requires stream.Valid() && stream.IsEOS() && !stream.fixedSize && base <= stream.position
      modifies stream`data, stream`position
      ensures stream.Valid() && stream.IsEOS() && base <= stream.position
      ensures Code() == old(Code()) + Repeat(b, n)
    {
      ghost var before := Code();
      for i := 0 to n
        invariant stream.Valid() && stream.IsEOS() && base <= stream.position
        invariant Code() == before + Repeat(b, i)
      {
        PutByte(b);
        assert Repeat(b, i + 1) == Repeat(b, i) + [b];
      }
    }

    /** `rleWriteFlush`: sends the pending run. */
    method WriteFlush()
      requires stream.Valid() && stream.IsEOS() && !stream.fixedSize && base <= stream.position
      requires writeCount < 256
      modifies this`writeCount, stream`data, stream`position
      ensures stream.Valid() && stream.IsEOS() && base <= stream.position && writeCount == 0
      ensures Code() == old(Code()) + RunCode(flag, writeByte, old(writeCount))
    {
      hide Code, Repeat;
      if writeCount < 3 {
        if writeByte == flag {
          PutTimes(flag, 2 * writeCount);
        } else {
          PutTimes(writeByte, writeCount);
        }
      } else {
        PutByte(flag);
        if writeCount == flag as nat {
          PutByte((writeCount - 1) as byte);
        } else {
          PutByte(writeCount as byte);
        }
        PutByte(writeByte);
        if writeCount == flag as nat {
          PutByte(writeByte);
          if writeByte == flag {
            PutByte(writeByte);
          }
        }
      }
      writeCount := 0;
    }

    /** The code of the pending run joins the encoded bytes. */
    lemma RunJoins(before: seq<byte>, b: byte, count: nat)
      requires count < 256 && Decode(flag, before).clean
      requires |before| <= 2 * |Decode(flag, before).bytes|
      ensures var d := Decode(flag, before + RunCode(flag, b, count));
              && d == Plain(Decode(flag, before).bytes + Repeat(b, count), true)
              && |before + RunCode(flag, b, count)| <= 2 * |d.bytes|
    {
      hide Decode, RunCode, Repeat;
      RunCodeDecodes(flag, b, count);
      DecodeAppend(flag, before, RunCode(flag, b, count));
    }

    /** One turn of the loop in `write`. */
    method WriteOne(b: byte)
      requires Writing()
      modifies this`writeByte, this`writeCount, stream`data, stream`position
      ensures Writing() && Accepted() == old(Accepted()) + [b]
      ensures Packing() == PackOne(flag, old(Packing()), b)
    {
      hide Decode, RunCode;
      ghost var before := Code();
      if b == writeByte {
        writeCount := writeCount + 1;
        if writeCount == 255 {
          RunJoins(before, writeByte, 255);
          WriteFlush();
        }
      } else {
        RunJoins(before, writeByte, writeCount);
        WriteFlush();
        writeByte := b;
        writeCount := 1;
      }
    }

    method Write(buffer: seq<byte>) returns (length: nat)
      requires Writing()
      modifies this`writeByte, this`writeCount, stream`data, stream`position
      ensures Writing() && Accepted() == old(Accepted()) + buffer && length == |buffer|
      ensures Packing() == PackAll(flag, old(Packing()), buffer)
    {
      hide Decode, Accepted, PackOne;
      for i := 0 to |buffer|
        invariant Writing() && Accepted() == old(Accepted()) + buffer[..i]
        invariant Packing() == PackAll(flag, old(Packing()), buffer[..i])
      {
        assert buffer[..i + 1][..i] == buffer[..i];
        WriteOne(buffer[i]);
      }
      assert buffer[..|buffer|] == buffer;
      length := |buffer|;
    }

    /** After a flush the encoded bytes alone stand for everything written. */
    method Flush()
      requires Writing()
      modifies this`writeCount, stream`data, stream`position
      ensures Writing() && Accepted() == old(Accepted()) && writeCount == 0
      ensures Decode(flag, Code()) == Plain(Accepted(), true)
      ensures Packing() == Sent(flag, old(Packing()))
    {
      hide Decode, RunCode;
      RunJoins(Code(), writeByte, writeCount);
      WriteFlush();
    }

    // ----- reading -----

    ghost predicate Reading()
      reads this, stream
    {
      stream.Valid() && readCount < UINT
    }

    /** What is left of the current run: a count of zero has yet to wrap. */
    ghost function Left(): nat
      reads this
    {
      if !isCompress then 0 else if readCount == 0 then UINT else readCount
    }

    /** What is still to be read. */
    ghost function Available(): Plain
      requires Reading()
      reads this, stream
    {
      Prepend(Repeat(readByte, Left()), Decode(flag, stream.Ahead()))
    }

    /** The stream is over exactly when nothing is left and the last escape was complete. */
    predicate IsEOS()
      requires Reading()
      reads this, stream
      ensures IsEOS() <==> Available() == Plain([], true)
    {
      assert !isCompress ==> Available() == Decode(flag, stream.Ahead());
      assert isCompress ==> |Available().bytes| >= 1;
      assert stream.Ahead() != [] && Decode(flag, stream.Ahead()).clean ==> Decode(flag, stream.Ahead()).bytes != [];
      !isCompress && stream.IsEOS()
    }

    /** One turn of the loop in `read`. */
    method ReadOne() returns (r: RleByte)
      requires Reading()
      modifies this`isCompress, this`readByte, this`readCount, stream`position
      ensures Reading()
      ensures var before := old(Available());
              && (before.bytes != [] ==> r == One(before.bytes[0])
                                         && Available() == Plain(before.bytes[1..], before.clean))
              && (before == Plain([], true) ==> r.EndOfData? && Available() == before)
              && (before == Plain([], false) ==> r.Broken?)
    {
      hide Decode, Repeat;
      ghost var code := stream.Ahead();
      if isCompress {
        RunTurns(readByte, Left(), Decode(flag, code));
        readCount := if readCount == 0 then UINT - 1 else readCount - 1;
        if readCount == 0 {
          isCompress := false;
        }
        return One(readByte);
      }
      RunOver(readByte, Decode(flag, code));
      DecodeHead(flag, code);
      var next := stream.PipeRead(1);
      if |next| != 1 {
        return EndOfData;
      }
      assert stream.Ahead() == code[1..];
      if next[0] != flag {
        return One(next[0]);
      }
      var length := stream.PipeRead(1);
      if |length| != 1 {
        return Broken;
      }
      assert stream.Ahead() == code[2..];
      if length[0] == flag {
        return One(flag);
      }
      var value := stream.PipeRead(1);
      if |value| != 1 {
        return Broken;
      }
      assert stream.Ahead() == code[3..];
      readByte := value[0];
      readCount := if length[0] == 0 then UINT - 1 else length[0] as nat - 1;
      isCompress := true;
      RunTurns(readByte, RunLength(length[0]), Decode(flag, code[3..]));
      return One(readByte);
    }

    method Read(length: nat) returns (r: RleRead)
      requires Reading()
      modifies this`isCompress, this`readByte, this`readCount, stream`position
      ensures Reading()
      ensures var before := old(Available());
              && (length <= |before.bytes| ==>
                    r == Data(before.bytes[..length])
                    && Available() == Plain(before.bytes[length..], before.clean))
              && (length > |before.bytes| && before.clean ==>
                    r == Data(before.bytes) && Available() == Plain([], true))
              && (length > |before.bytes| && !before.clean ==> r.Truncated?)
    {
      hide Available, Decode, Prepend, Reading;
      var data := [];
      PrependNothing(Available());
      ghost var before := Available();
      while |data| != length
        invariant Reading() && |data| <= length
        invariant before == Prepend(data, Available())
        decreases length - |data|
      {
        ghost var now := Available();
        Taken(before, data, now);
        var one := ReadOne();
        if one.EndOfData? {
          return Data(data);
        }
        if one.Broken? {
          return Truncated;
        }
        TakeFirst(data, now);
        data := data + [one.b];
      }
      Taken(before, data, Available());
      return Data(data);
    }
  }

  // ----- whole runs -----

  datatype Step = Put(bytes: seq<byte>) | Sync

  ghost function Written(steps: seq<Step>): seq<byte> {
    if steps == [] then []
    else
      Written(steps[..|steps| - 1])
      + match steps[|steps| - 1] { case Put(bytes) => bytes case Sync => [] }
  }

  ghost function Syncs(steps: seq<Step>): nat {
    if steps == [] then 0 else Syncs(steps[..|steps| - 1]) + if steps[|steps| - 1].Sync? then 1 else 0
  }

  /** Encodes any writes and flushes. The code stands for the data, is at most twice as long,
      and takes at most five bytes for each run of equal bytes. */
  method Compress(flag: byte, steps: seq<Step>) returns (code: seq<byte>)
    ensures Decode(flag, code) == Plain(Written(steps), true)
    ensures |code| <= 2 * |Written(steps)|
    ensures |code| <= 5 * (Changes(Written(steps)) + |Written(steps)| / 255 + Syncs(steps) + 1)
  {
    hide Decode, Changes, PackAll, Sent, Thrifty, RleStream.Accepted;
    var store := new MemoryStream([], false);
    var rle := new RleStream(store, flag);
    assert steps[..0] == [];
    ghost var full: nat := 0;
    ThriftyStart(rle.Packing());
    for i := 0 to |steps|
      invariant rle.Writing() && rle.Accepted() == Written(steps[..i])
      invariant Thrifty(rle.Packing(), Written(steps[..i]), full, Syncs(steps[..i]))
    {
      assert steps[..i + 1][..i] == steps[..i];
      ghost var p, data := rle.Packing(), Written(steps[..i]);
      match steps[i]
      case Put(bytes) =>
        full := ThriftyAll(flag, p, data, full, Syncs(steps[..i]), bytes);
        var length := rle.Write(bytes);
      case Sync =>
        ThriftySync(flag, p, data, full, Syncs(steps[..i]));
        rle.Flush();
        assert data + [] == data;
    }
    assert steps[..|steps|] == steps;
    ThriftySync(flag, rle.Packing(), Written(steps), full, Syncs(steps));
    rle.Flush();
    code := store.data;
    assert rle.Code() == code;
    ThriftySize(rle.Packing(), Written(steps), full, Syncs(steps) + 1);
  }

  lemma ThriftyStart(p: Packer)
    requires p.code == [] && p.count == 0
    ensures Thrifty(p, [], 0, 0)
  {
  }

  lemma ThriftySize(p: Packer, data: seq<byte>, full: nat, syncs: nat)
    requires Thrifty(p, data, full, syncs)
    ensures |p.code| <= 5 * (Changes(data) + |data| / 255 + syncs)
  {
    hide Changes;
  }

  /** The bytes of a single run, flushed: three of them from three to 255 equal bytes, but for
      the count that would look like the flag. */
  method PackRun(flag: byte, b: byte, n: nat) returns (code: seq<byte>)
    ensures n < 3 && b != flag ==> code == seq(n, _ => b)
    ensures n < 3 && b == flag ==> code == seq(2 * n, _ => flag)
    ensures 3 <= n <= 255 && n != flag as nat ==> code == [flag, n as byte, b]
    ensures 3 <= n <= 255 && n == flag as nat ==>
              code == [flag, (n - 1) as byte, b] + if b == flag then [flag, flag] else [b]
    ensures |code| <= 5 * (n / 255 + 1)
  {
    hide Decode, Changes, PackAll, Thrifty, RleStream.Accepted;
    var store := new MemoryStream([], false);
    var rle := new RleStream(store, flag);
    ghost var p := rle.Packing();
    assert p == Packer([], 0, 0);
    ThriftyStart(p);
    var bytes := seq(n, _ => b);
    assert bytes == Repeat(b, n) && [] + bytes == bytes;
    ghost var full := ThriftyAll(flag, p, [], 0, 0, bytes);
    var length := rle.Write(bytes);
    ThriftySync(flag, rle.Packing(), bytes, full, 0);
    rle.Flush();
    code := store.data;
    assert rle.Code() == code;
    ThriftySize(rle.Packing(), bytes, full, 1);
    NoChanges(b, n);
    if n <= 255 {
      RunPacked(flag, b, n);
    }
  }

  lemma {:induction false} NoChanges(b: byte, n: nat)
    ensures Changes(seq(n, _ => b)) == 0
  {
    if n > 1 {
      NoChanges(b, n - 1);
      assert seq(n, _ => b)[..n - 1] == seq(n - 1, _ => b);
    }
  }

  /** The piece of `data` that request `i` gets. */
  ghost function Piece(data: seq<byte>, requests: seq<nat>, i: nat): seq<byte>
    requires i < |requests|
  {
    var from := Min(Sum(requests[..i]), |data|);
    data[from..Min(from + requests[i], |data|)]
  }

  ghost function Sum(requests: seq<nat>): nat {
    if requests == [] then 0 else Sum(requests[..|requests| - 1]) + requests[|requests| - 1]
  }

  lemma SumSnoc(requests: seq<nat>, i: nat)
    requires i < |requests|
    ensures Sum(requests[..i + 1]) == Sum(requests[..i]) + requests[i]
  {
    assert requests[..i + 1][..i] == requests[..i];
  }

  /** For every flag, however the data is cut into writes, flushes and reads, each read gets
      its piece of the data, and the stream is over exactly when all of it has been read. */
  method RoundTrip(flag: byte, steps: seq<Step>, requests: seq<nat>)
    returns (pieces: seq<seq<byte>>, eos: bool)
    ensures |pieces| == |requests|
    ensures forall i :: 0 <= i < |requests| ==> pieces[i] == Piece(Written(steps), requests, i)
    ensures eos <==> Sum(requests) >= |Written(steps)|
  {
    hide Decode, Written, Sum, Piece, Unread, RleStream.Available;
    var code := Compress(flag, steps);
    ghost var data := Written(steps);
    var store := new MemoryStream(code, true);
    var rle := new RleStream(store, flag);
    assert store.Ahead() == code;
    pieces := [];
    StartUnread(data, requests);
    for i := 0 to |requests|
      invariant rle.Reading() && |pieces| == i
      invariant rle.Available() == Plain(Unread(data, requests, i), true)
      invariant forall k :: 0 <= k < i ==> pieces[k] == Piece(data, requests, k)
    {
      NextPiece(data, requests, i);
      var r := rle.Read(requests[i]);
      pieces := pieces + [r.bytes];
    }
    EndUnread(data, requests);
    eos := rle.IsEOS();
  }

  /** What is left for request `i`. */
  ghost function Unread(data: seq<byte>, requests: seq<nat>, i: nat): seq<byte>
    requires i <= |requests|
  {
    data[Min(Sum(requests[..i]), |data|)..]
  }

  lemma StartUnread(data: seq<byte>, requests: seq<nat>)
    ensures Unread(data, requests, 0) == data
  {
    assert requests[..0] == [];
  }

  lemma NextPiece(data: seq<byte>, requests: seq<nat>, i: nat)
    requires i < |requests|
    ensures var left, n := Unread(data, requests, i), requests[i];
            && (n <= |left| ==> left[..n] == Piece(data, requests, i) && left[n..] == Unread(data, requests, i + 1))
            && (n > |left| ==> left == Piece(data, requests, i) && Unread(data, requests, i + 1) == [])
  {
    SumSnoc(requests, i);
    hide Sum;
    var left, from := Unread(data, requests, i), Min(Sum(requests[..i]), |data|);
    if requests[i] <= |left| {
      assert left[requests[i]..] == data[from + requests[i]..];
    }
  }

  lemma EndUnread(data: seq<byte>, requests: seq<nat>)
    ensures Unread(data, requests, |requests|) == [] <==> Sum(requests) >= |data|
  {
    assert requests[..|requests|] == requests;
  }
}

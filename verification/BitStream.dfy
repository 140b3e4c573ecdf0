/** `cBitStream`: moves single bits through a byte stream, least significant bit first,
    with a partly filled byte on each side. */
module BitStreams {
  import opened Bits
  import opened MemoryStreams

  datatype ReadResult = Bits(number: nat) | ReadError

  class BitStream {
    const stream: MemoryStream
    /** Where the stream stood when this object got it. */
    ghost const start: nat
    var readBitPosition: nat
    var writeBitPosition: nat
    var writeByte: byte
    var readByte: byte

    ghost predicate Valid()
      reads this, stream
    {
      stream.Valid() && readBitPosition <= 8 && writeBitPosition < 8
    }

    /** All bits written so far. */
    ghost function Sent(): (bits: seq<bool>)
      requires Valid()
      reads this, stream
      ensures |bits| == 8 * stream.position + writeBitPosition
    {
      BytesBits(stream.Behind()) + ByteBits(writeByte)[..writeBitPosition]
    }

    /** All bits still to be read. */
    ghost function Unread(): seq<bool>
      requires Valid()
      reads this, stream
    {
      ByteBits(readByte)[readBitPosition..] + BytesBits(stream.Ahead())
    }

    /** `n` more bits can be written without the byte stream running full. */
    predicate Room(n: nat)
      reads this, stream
    {
      stream.fixedSize ==> (8 * stream.position + writeBitPosition + n) / 8 <= |stream.data|
    }

    /** Once a byte has been sent, the partial byte still holds its bits behind those written since. */
    ghost predicate Carries()
      reads this, stream
    {
      Valid() && (start < stream.position ==> ByteBits(writeByte)[writeBitPosition..] == LastBits(Sent()))
    }

    /** The constructor leaves both partial bytes unset. */
    constructor (stream: MemoryStream)
      requires stream.Valid()
      ensures Valid() && this.stream == stream
      ensures Sent() == BytesBits(stream.Behind()) && Unread() == BytesBits(stream.Ahead())
      ensures readBitPosition == 8 && writeBitPosition == 0
      ensures start == stream.position && Carries()
    {
      this.stream := stream;
      start := stream.position;
      readBitPosition, writeBitPosition := 8, 0;
      writeByte, readByte := *, *;
    }

    /** One turn of the loop in `write`. */
    method WriteBit(on: bool)
      requires Valid() && Room(1)
      modifies this`writeBitPosition, this`writeByte, stream`data, stream`position
      ensures Valid()
      ensures Sent() == old(Sent()) + [on]
      ensures old(Carries()) ==> Carries()
      ensures stream.fixedSize ==> |stream.data| == old(|stream.data|)
      ensures old(stream.IsEOS()) ==> stream.IsEOS()
    {
      hide BytesBits, ByteBits, LastBits;
      ghost var bytes := stream.Behind();
      ghost var bits, behind := ByteBits(writeByte)[..writeBitPosition], ByteBits(writeByte)[writeBitPosition..];
      writeByte := WithBit(writeByte, writeBitPosition, on);
      assert ByteBits(writeByte)[..writeBitPosition + 1] == bits + [on];
      writeBitPosition := writeBitPosition + 1;
      if writeBitPosition == 8 {
        stream.PipeWrite([writeByte]);
        BytesBitsAppend(bytes, [writeByte]);
        BytesBitsOne(writeByte);
        assert ByteBits(writeByte) == bits + [on];
        writeBitPosition := 0;
        LastByte(BytesBits(bytes), ByteBits(writeByte));
        assert ByteBits(writeByte)[..0] == [] && ByteBits(writeByte)[0..] == ByteBits(writeByte);
        assert Sent() == BytesBits(bytes) + ByteBits(writeByte) + [];
      } else {
        assert ByteBits(writeByte)[writeBitPosition..] == behind[1..];
        if start < stream.position {
          LastBitsStep(old(Sent()), on);
        }
      }
    }

    /** Each byte of the buffer is one bit: zero or not zero. */
    method Write(buffer: seq<byte>) returns (length: nat)
      requires Valid() && Room(|buffer|)
      modifies this`writeBitPosition, this`writeByte, stream`data, stream`position
      ensures Valid() && length == |buffer|
      ensures Sent() == old(Sent()) + Flags(buffer)
      ensures old(Carries()) ==> Carries()
      ensures stream.fixedSize ==> |stream.data| == old(|stream.data|)
      ensures old(stream.IsEOS()) ==> stream.IsEOS()
    {
      hide Carries;
      for i := 0 to |buffer|
        invariant Valid()
        invariant Sent() == old(Sent()) + Flags(buffer[..i])
        invariant old(Carries()) ==> Carries()
        invariant stream.fixedSize ==> |stream.data| == old(|stream.data|)
        invariant old(stream.IsEOS()) ==> stream.IsEOS()
      {
        assert |Sent()| == old(|Sent()|) + i;
        WriteBit(buffer[i] != 0);
        FlagsSnoc(buffer, i);
      }
      assert buffer[..|buffer|] == buffer;
      length := |buffer|;
    }

    /** One turn of the loop in `read`. */
    method ReadBit() returns (bit: seq<byte>)
      requires Valid()
      modifies this`readBitPosition, this`readByte, stream`position
      ensures Valid()
      ensures bit == [] || bit == [0] || bit == [1]
      ensures bit == [] ==> old(Unread()) == [] == Unread()
      ensures bit != [] ==> old(Unread()) == [bit[0] != 0] + Unread()
    {
      if readBitPosition == 8 {
        ghost var ahead := stream.Ahead();
        var piece := stream.PipeRead(1);
        if piece == [] {
          return [];
        }
        assert ahead == piece + stream.Ahead();
        assert piece == [piece[0]];
        BytesBitsAppend(piece, stream.Ahead());
        BytesBitsOne(piece[0]);
        readByte, readBitPosition := piece[0], 0;
        assert ByteBits(readByte)[0..] == ByteBits(readByte);
      }
      assert ByteBits(readByte)[readBitPosition..]
          == [ByteBits(readByte)[readBitPosition]] + ByteBits(readByte)[readBitPosition + 1..];
      bit := if BitAt(readByte, readBitPosition) then [1] else [0];
      readBitPosition := readBitPosition + 1;
    }

    /** Reads at most `length` bits as zeros and ones; fewer only at the end of the stream. */
    method Read(length: nat) returns (buffer: seq<byte>)
      requires Valid()
      modifies this`readBitPosition, this`readByte, stream`position
      ensures Valid()
      ensures Flags(buffer) + Unread() == old(Unread())
      ensures |buffer| == Min(length, old(|Unread()|))
      ensures forall i :: 0 <= i < |buffer| ==> buffer[i] <= 1
    {
      buffer := [];
      while |buffer| < length
        invariant Valid() && |buffer| <= length
        invariant Flags(buffer) + Unread() == old(Unread())
        invariant forall i :: 0 <= i < |buffer| ==> buffer[i] <= 1
      {
        ghost var unread := Unread();
        var bit := ReadBit();
        if bit == [] {
          return;
        }
        TakeFlag(buffer, bit[0], unread, Unread());
        assert bit == [bit[0]];
        buffer := buffer + bit;
      }
    }

    /** The `numberOfBits` low bits of `number`, low bit first. */
    method WriteBits(number: nat, numberOfBits: nat)
      requires Valid() && numberOfBits <= 32 && Room(numberOfBits)
      modifies this`writeBitPosition, this`writeByte, stream`data, stream`position
      ensures Valid()
      ensures Sent() == old(Sent()) + ToBits(number, numberOfBits)
      ensures old(Carries()) ==> Carries()
      ensures stream.fixedSize ==> |stream.data| == old(|stream.data|)
      ensures old(stream.IsEOS()) ==> stream.IsEOS()
    {
      hide Carries;
      var left := number;
      for i := 0 to numberOfBits
        invariant Valid()
        invariant Sent() + ToBits(left, numberOfBits - i) == old(Sent()) + ToBits(number, numberOfBits)
        invariant old(Carries()) ==> Carries()
        invariant stream.fixedSize ==> |stream.data| == old(|stream.data|)
        invariant old(stream.IsEOS()) ==> stream.IsEOS()
      {
        ghost var before := Sent();
        var bit := (left % 2) as byte;
        assert |Sent()| == old(|Sent()|) + i;
        var written := Write([bit]);
        FlagsOne(bit);
        assert Sent() + ToBits(left / 2, numberOfBits - i - 1) == before + ToBits(left, numberOfBits - i);
        left := left / 2;
      }
    }

    /** The next `numberOfBits` bits as a number. At the end of the stream the bits
        already taken are lost. */
    method ReadBits(numberOfBits: nat) returns (r: ReadResult)
      requires Valid() && numberOfBits <= 32
      modifies this`readBitPosition, this`readByte, stream`position
      ensures Valid()
      ensures r.Bits? <==> numberOfBits <= old(|Unread()|)
      ensures r.Bits? ==> r.number == FromBits(old(Unread())[..numberOfBits])
                          && Unread() == old(Unread())[numberOfBits..]
      ensures r.ReadError? ==> Unread() == []
    {
      ghost var bits: seq<bool> := [];
      var readed: nat := 0;
      for i := 0 to numberOfBits
        invariant Valid() && |bits| == i
        invariant bits + Unread() == old(Unread())
        invariant readed == FromBits(bits)
      {
        ghost var before := Unread();
        var bit := Read(1);
        if |bit| != 1 {
          return ReadError;
        }
        ghost var on := [bit[0] != 0];
        assert Flags(bit) == on;
        assert bits + (on + Unread()) == (bits + on) + Unread();
        FromBitsSnoc(bits, bit[0] != 0);
        readed := readed + if bit[0] == 1 then Pow2(i) else 0;
        bits := bits + on;
      }
      assert old(Unread())[..numberOfBits] == bits;
      return Bits(readed);
    }

    /** Sends the partial byte. Its unused bits are whatever they were before: those of the
        byte sent last, if there is one. */
    method Flush()
      requires Valid() && stream.Room(1)
      modifies this`writeBitPosition, stream`data, stream`position
      ensures Valid() && writeBitPosition == 0
      ensures Sent() == BytesBits(stream.Behind())
      ensures Sent() == old(Sent()) + if old(writeBitPosition) == 0 then []
                                      else old(ByteBits(writeByte)[writeBitPosition..])
      ensures old(Sent()) <= Sent() && |Sent()| == old(|Sent()|) + Unused(old(|Sent()|))
      ensures old(Carries()) && start == 0 ==> Flushed(old(Sent()), Sent())
      ensures old(stream.IsEOS()) ==> stream.IsEOS()
    {
      hide ByteBits, BytesBits, LastBits, Unused, Flushed;
      ghost var sent, rest := Sent(), ByteBits(writeByte)[writeBitPosition..];
      Padded(sent, rest);
      if writeBitPosition > 0 {
        ghost var bytes := stream.Behind();
        var written := stream.Write([writeByte]);
        assert [writeByte][..1] == [writeByte];
        BytesBitsAppend(bytes, [writeByte]);
        BytesBitsOne(writeByte);
        assert ByteBits(writeByte) == ByteBits(writeByte)[..writeBitPosition] + ByteBits(writeByte)[writeBitPosition..];
        writeBitPosition := 0;
      }
    }
  }

  /** Padding with the bits a byte holds behind those written. */
  lemma Padded(sent: seq<bool>, rest: seq<bool>)
    requires |rest| == 8 - |sent| % 8
    ensures |sent| % 8 == 0 ==> Unused(|sent|) == 0 && Flushed(sent, sent)
    ensures |sent| % 8 != 0 ==> Unused(|sent|) == |rest|
    ensures |sent| % 8 != 0 && (|sent| >= 8 ==> rest == LastBits(sent)) ==> Flushed(sent, sent + rest)
  {
    hide LastBits;
    if |sent| % 8 == 0 {
      assert sent + [] == sent;
    }
  }

  /** How many bits of the last byte a bit string leaves unused. */
  function Unused(length: nat): (n: nat)
    ensures n < 8 && (length + n) % 8 == 0
  {
    (8 - length % 8) % 8
  }

  /** The bits that stand eight places before the unused ones, when bytes are filled in order. */
  ghost function LastBits(bits: seq<bool>): (last: seq<bool>)
    requires |bits| >= 8
    ensures |last| == 8 - |bits| % 8
  {
    bits[|bits| - 8..|bits| - |bits| % 8]
  }

  lemma LastByte(bits: seq<bool>, last: seq<bool>)
    requires |bits| % 8 == 0 && |last| == 8
    ensures LastBits(bits + last + []) == last
  {
    assert bits + last + [] == bits + last;
  }

  lemma LastBitsStep(bits: seq<bool>, on: bool)
    requires |bits| >= 8 && |bits| % 8 != 7
    ensures LastBits(bits + [on]) == LastBits(bits)[1..]
  {
  }

  /** What a flush adds to at least eight bits. */
  ghost function FlushBits(bits: seq<bool>): seq<bool> {
    if |bits| < 8 || |bits| % 8 == 0 then [] else LastBits(bits)
  }

  /** `all` is `bits` padded to whole bytes. The padding of less than a byte is left open. */
  ghost predicate Flushed(bits: seq<bool>, all: seq<bool>) {
    && bits <= all && |all| == |bits| + Unused(|bits|)
    && (|bits| >= 8 ==> all == bits + FlushBits(bits))
  }

  /** The bits a buffer of zero and non-zero bytes stands for. */
  ghost function Flags(buffer: seq<byte>): (bits: seq<bool>)
    ensures |bits| == |buffer|
  {
    seq(|buffer|, i requires 0 <= i < |buffer| => buffer[i] != 0)
  }

  lemma TakeFlag(buffer: seq<byte>, bit: byte, before: seq<bool>, after: seq<bool>)
    requires before == [bit != 0] + after
    ensures Flags(buffer + [bit]) + after == Flags(buffer) + before
  {
    assert Flags(buffer + [bit]) == Flags(buffer) + [bit != 0];
  }

  lemma FlagsSnoc(buffer: seq<byte>, i: nat)
    requires i < |buffer|
    ensures Flags(buffer[..i + 1]) == Flags(buffer[..i]) + [buffer[i] != 0]
  {
  }

  lemma FlagsOne(b: byte)
    ensures Flags([b]) == [b != 0]
  {
  }

  datatype Field = Field(value: nat, width: nat)

  ghost function FieldBits(fields: seq<Field>): seq<bool> {
    if fields == [] then [] else ToBits(fields[0].value, fields[0].width) + FieldBits(fields[1..])
  }

  ghost function TotalWidth(fields: seq<Field>): nat {
    if fields == [] then 0 else fields[0].width + TotalWidth(fields[1..])
  }

  lemma {:induction false} FieldBitsSnoc(fields: seq<Field>, i: nat)
    requires i < |fields|
    ensures FieldBits(fields[..i + 1]) == FieldBits(fields[..i]) + ToBits(fields[i].value, fields[i].width)
  {
    if i == 0 {
      assert fields[..1] == [fields[0]] && [fields[0]][1..] == [];
    } else {
      FieldBitsSnoc(fields[1..], i - 1);
      assert fields[..i + 1][1..] == fields[1..][..i];
      assert fields[..i][1..] == fields[1..][..i - 1];
    }
  }

  lemma {:induction false} FieldBitsWidth(fields: seq<Field>)
    ensures |FieldBits(fields)| == TotalWidth(fields)
  {
    if fields != [] {
      FieldBitsWidth(fields[1..]);
    }
  }

  lemma NextField(fields: seq<Field>, i: nat, padding: seq<bool>)
    requires i < |fields|
    ensures FieldBits(fields[i..]) + padding
         == ToBits(fields[i].value, fields[i].width) + (FieldBits(fields[i + 1..]) + padding)
  {
    assert fields[i..][1..] == fields[i + 1..];
  }

  method Unpack(packed: seq<byte>, widths: seq<nat>, ghost fields: seq<Field>) returns (values: seq<nat>)
    requires |widths| == |fields|
    requires forall i :: 0 <= i < |widths| ==> widths[i] == fields[i].width <= 32
    requires FieldBits(fields) <= BytesBits(packed)
    ensures |values| == |fields|
    ensures forall i :: 0 <= i < |fields| ==> values[i] == fields[i].value % Pow2(fields[i].width)
  {
    hide BitStream.Sent, BitStream.Carries, BytesBits, Pow2, FromBits;
    ghost var padding := BytesBits(packed)[|FieldBits(fields)|..];
    var source := new MemoryStream(packed, true);
    var input := new BitStream(source);
    assert source.Ahead() == packed;
    assert fields[0..] == fields;
    values := [];
    for i := 0 to |widths|
      invariant input.Valid() && |values| == i
      invariant input.Unread() == FieldBits(fields[i..]) + padding
      invariant forall k :: 0 <= k < i ==> values[k] == fields[k].value % Pow2(fields[k].width)
    {
      ghost var f := fields[i];
      ghost var rest := FieldBits(fields[i + 1..]) + padding;
      NextField(fields, i, padding);
      FromToBits(f.value, f.width);
      var r := input.ReadBits(widths[i]);
      assert (ToBits(f.value, f.width) + rest)[..f.width] == ToBits(f.value, f.width);
      assert (ToBits(f.value, f.width) + rest)[f.width..] == rest;
      values := values + [r.number];
    }
  }

  /** Any fields written with `writeBits` and flushed come back through `readBits`, reduced
      to their widths, and take as few whole bytes as can hold them. */
  method PackAndUnpack(fields: seq<Field>) returns (packed: seq<byte>, values: seq<nat>)
    requires forall i :: 0 <= i < |fields| ==> fields[i].width <= 32
    ensures |packed| == (TotalWidth(fields) + 7) / 8
    ensures |values| == |fields|
    ensures forall i :: 0 <= i < |fields| ==> values[i] == fields[i].value % Pow2(fields[i].width)
  {
    packed := Pack(fields);
    values := Unpack(packed, seq(|fields|, i requires 0 <= i < |fields| => fields[i].width), fields);
  }

  method Pack(fields: seq<Field>) returns (packed: seq<byte>)
    requires forall i :: 0 <= i < |fields| ==> fields[i].width <= 32
    ensures |packed| == (TotalWidth(fields) + 7) / 8
    ensures FieldBits(fields) <= BytesBits(packed)
  {
    var store := new MemoryStream([], false);
    var output := new BitStream(store);
    assert store.Behind() == [];
    for i := 0 to |fields|
      invariant output.Valid() && store.IsEOS() && !store.fixedSize
      invariant output.Sent() == FieldBits(fields[..i])
    {
      FieldBitsSnoc(fields, i);
      output.WriteBits(fields[i].value, fields[i].width);
    }
    assert fields[..|fields|] == fields;
    FieldBitsWidth(fields);
    output.Flush();
    packed := store.data;
    assert store.Behind() == packed;
  }
}

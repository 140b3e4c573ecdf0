/** `cLZWcompression` over a bit stream. */
module LzwStreams {
  import opened Bits
  import opened MemoryStreams
  import opened Common
  import BitStreams
  import opened LzwCodes
  import opened LzwProofs
  import opened LzwRoundTrip

  /** Codes and table sizes stay below this, so that no 32-bit number wraps. */
  const LIMIT: nat := 0x4000_0000

  /** The `b`-bit numbers a bit string is cut into; a shorter rest is dropped. */
  ghost function Digits(b: nat, bits: seq<bool>): (digits: seq<nat>)
    requires b >= 1
    decreases |bits|
  {
    if |bits| < b then [] else [FromBits(bits[..b])] + Digits(b, bits[b..])
  }

  function NumberOfDigits(b: nat, length: nat): nat
    requires b >= 1
  {
    length * 8 / b
  }

  ghost function SymbolBits(b: nat, symbols: seq<nat>): seq<bool> {
    if symbols == [] then []
    else SymbolBits(b, symbols[..|symbols| - 1]) + ToBits(symbols[|symbols| - 1], b)
  }

  /** `OutOfRange` is the exception of the table's index check. `Spins` stands for a call that
      never returns: `pipeWrite` on a full buffer, or prefixes that form a circle. */
  datatype LzwRead = Data(buffer: seq<byte>) | OutOfRange | Spins

  datatype Turned = Continue | Finished | Threw | Stuck

  /** The output fits into a buffer of `length` bytes. */
  ghost predicate Fit(b: nat, out: seq<nat>, length: nat) {
    |SymbolBits(b, out)| / 8 <= length
  }

  /** What a call of `read` that gets all the way to `result` hands back. */
  ghost predicate Returns(b: nat, result: Decoded, length: nat, r: LzwRead) {
    if result.Hung? || !Fit(b, result.d.out, length) then r == Spins
    else if result.Failed? then r == OutOfRange
    else r.Data? && WholeBytes(r.buffer, SymbolBits(b, result.d.out))
  }

  class LzwStream {
    const bits: BitStreams.BitStream
    const bitSize: nat
    var table: Table
    var ioBits: nat
    var firstWrite: bool
    var writePrefix: nat
    var writeSuffix: nat
    var firstRead: bool
    var isEof: bool
    var readPrefix: nat
    var readSuffix: nat
    /** The codes sent since the start of the stream, and the bits in front of them. */
    ghost var sent: seq<Code>
    ghost var header: seq<bool>

    ghost predicate Valid()
      reads this, bits, bits.stream
    {
      && bits.Valid() && 1 <= bitSize <= 8
      && ioBits >= 1
    }

    /** Nothing but this object appends to the byte stream. */
    ghost predicate Writing()
      reads this, bits, bits.stream
    {
      && Valid()
      && bits.stream.IsEOS() && !bits.stream.fixedSize && bits.Carries()
      && bits.Sent() == header + CodesBits(sent)
      && Fits(bitSize, ioBits, |table|)
    }

    ghost function Compressor(): Encoder
      reads this
    {
      Encoder(table, ioBits, writePrefix, sent)
    }

    ghost function Decompressor(): Decoder
      reads this
    {
      Decoder(table, ioBits, firstRead, readPrefix, [])
    }

    constructor (stream: MemoryStream, bitSize: nat)
      requires stream.Valid() && 1 <= bitSize <= 8
      ensures Valid() && this.bitSize == bitSize && bits.stream == stream && fresh(bits)
      ensures table == [] && ioBits == bitSize + 1 && firstWrite && firstRead && !isEof && sent == []
      ensures stream.IsEOS() && !stream.fixedSize ==> Writing()
      ensures header == BytesBits(stream.Behind()) && bits.start == stream.position
      ensures bits.Unread() == BytesBits(stream.Ahead())
    {
      bits := new BitStreams.BitStream(stream);
      this.bitSize := bitSize;
      table, ioBits := [], bitSize + 1;
      firstWrite, firstRead, isEof := true, true, false;
      writePrefix, writeSuffix, readPrefix, readSuffix := *, *, *, *;
      sent := [];
      new;
      header := bits.Sent();
      FirstWidth(bitSize);
      assert header + CodesBits(sent) == header;
    }

    /** Sends the clear code and starts a new table. */
    method InitNewStream()
      requires Writing() && ioBits <= 32
      modifies this, bits`writeBitPosition, bits`writeByte, bits.stream`data, bits.stream`position
      ensures Writing()
      ensures table == [] && ioBits == bitSize + 1 && firstWrite && sent == []
      ensures header == old(bits.Sent()) + ToBits(Clear(bitSize), old(ioBits))
      ensures unchanged(this`firstRead, this`readPrefix, this`isEof)
    {
      bits.WriteBits(Pow2(bitSize), ioBits);
      ioBits, firstWrite, table := bitSize + 1, true, [];
      sent, header := [], bits.Sent();
      FirstWidth(bitSize);
      assert header + CodesBits(sent) == header;
    }

    /** The search for (prefix, suffix) in the table. */
    method Search() returns (found: bool, pcode: nat)
      ensures pcode == Find(table, Entry(writePrefix, writeSuffix))
      ensures found <==> pcode < |table|
    {
      found, pcode := false, 0;
      while pcode < |table|
        invariant 0 <= pcode <= |table|
        invariant forall k :: 0 <= k < pcode ==> table[k] != Entry(writePrefix, writeSuffix)
        invariant !found
      {
        if table[pcode].prefix == writePrefix && table[pcode].value == writeSuffix {
          found := true;
          break;
        }
        pcode := pcode + 1;
      }
    }

    /** Writes the pending prefix at the current width. */
    method SendPrefix()
      requires Writing() && ioBits <= 32
      modifies this`sent, bits`writeBitPosition, bits`writeByte, bits.stream`data, bits.stream`position
      ensures Writing() && sent == old(sent) + [Code(writePrefix, ioBits)]
    {
      ghost var before, code := CodesBits(sent), ToBits(writePrefix, ioBits);
      CodesBitsSnoc(sent, Code(writePrefix, ioBits));
      assert header + (before + code) == header + before + code;
      bits.WriteBits(writePrefix, ioBits);
      sent := sent + [Code(writePrefix, ioBits)];
    }

    /** One turn of the loop in `write`. */
    method Put(opcode: nat)
      requires Writing() && Start(bitSize) + |table| < LIMIT
      modifies this`table, this`ioBits, this`writePrefix, this`writeSuffix, this`sent
      modifies bits`writeBitPosition, bits`writeByte, bits.stream`data, bits.stream`position
      ensures Writing()
      ensures Compressor() == EncodeSymbol(bitSize, old(Compressor()), opcode)
      ensures |table| <= old(|table|) + 1
    {
      hide BitStreams.BitStream.Sent, BytesBits, ToBits, CodesBits, Pow2, Grounded, Find, IsCode;
      writeSuffix := opcode;
      var found, pcode := Search();
      if !found {
        WidthLimit(bitSize, ioBits, |table|);
        WidthGrows(bitSize, ioBits, |table|);
        SendPrefix();
        var lpos := |table|;
        if lpos + Start(bitSize) == Pow2(ioBits) {
          ioBits := ioBits + 1;
        }
        table := table + [Entry(writePrefix, writeSuffix)];
        writePrefix := writeSuffix;
      } else {
        writePrefix := pcode + Start(bitSize);
      }
    }

    /** Compresses a buffer. The first write of a stream takes all its digits; every later one
        leaves out the last, because the loop count is the same. */
    method Write(buffer: seq<byte>) returns (length: nat)
      requires Writing()
      requires |buffer| * 8 < UINT
      requires Start(bitSize) + |table| + NumberOfDigits(bitSize, |buffer|) < LIMIT
      modifies this`table, this`ioBits, this`writePrefix, this`writeSuffix, this`firstWrite, this`sent
      modifies bits`writeBitPosition, bits`writeByte, bits.stream`data, bits.stream`position
      ensures Writing() && length == |buffer| && header == old(header)
      ensures |table| <= old(|table|) + NumberOfDigits(bitSize, |buffer|)
      ensures buffer == [] ==> firstWrite == old(firstWrite) && Compressor() == old(Compressor())
      ensures buffer != [] ==>
                var digits := Digits(bitSize, BytesBits(buffer));
                !firstWrite && digits != [] &&
                Compressor() ==
                  if old(firstWrite) then EncodeAll(bitSize, old(Compressor()).(prefix := digits[0]), digits[1..])
                  else EncodeAll(bitSize, old(Compressor()), digits[..|digits| - 1])
    {
      hide BitStreams.BitStream.Sent, BitStreams.BitStream.Unread, BytesBits, Pow2, FromBits;
      hide CodesBits, EncodeSymbol, EncodeAll, Digits, Fits, IsCode, NumberOfDigits;
      if |buffer| == 0 {
        return 0;
      }
      var input := Input(buffer);
      ghost var digits := Digits(bitSize, BytesBits(buffer));
      var numberOfDigits := NumberOfDigits(bitSize, |buffer|);
      DigitsOfBytes(bitSize, buffer);
      ghost var todo := digits;
      if firstWrite {
        var symbol := NextDigit(input);
        writePrefix, writeSuffix, firstWrite := symbol, symbol, false;
        todo := digits[1..];
      }
      PutDigits(input, numberOfDigits - 1, todo);
      assert old(firstWrite) ==> todo[..numberOfDigits - 1] == digits[1..];
      length := |buffer|;
    }

    /** The loop in `write`. */
    method PutDigits(input: BitStreams.BitStream, count: nat, ghost todo: seq<nat>)
      requires Writing() && !firstWrite && input.Valid() && input != bits && input.stream != bits.stream
      requires Digits(bitSize, input.Unread()) == todo && count <= |todo|
      requires Start(bitSize) + |table| + count < LIMIT
      modifies this`table, this`ioBits, this`writePrefix, this`writeSuffix, this`sent
      modifies bits`writeBitPosition, bits`writeByte, bits.stream`data, bits.stream`position
      modifies input`readBitPosition, input`readByte, input.stream`position
      ensures Writing()
      ensures Compressor() == EncodeAll(bitSize, old(Compressor()), todo[..count])
      ensures |table| <= old(|table|) + count
    {
      hide BitStreams.BitStream.Sent, BitStreams.BitStream.Unread, BytesBits, Pow2, FromBits;
      hide CodesBits, EncodeSymbol, EncodeAll, Digits, Fits, IsCode;
      ghost var e := Compressor();
      EncodeNone(bitSize, e);
      assert todo[..0] == [] && todo[0..] == todo;
      for i := 0 to count
        invariant Writing() && input.Valid()
        invariant Digits(bitSize, input.Unread()) == todo[i..]
        invariant Compressor() == EncodeAll(bitSize, e, todo[..i])
        invariant |table| <= old(|table|) + i
      {
        var opcode := NextDigit(input);
        Put(opcode);
        EncodeAllSnoc(bitSize, e, todo, i);
      }
    }

    /** A bit stream over a copy of the buffer. */
    method Input(buffer: seq<byte>) returns (input: BitStreams.BitStream)
      ensures fresh(input) && fresh(input.stream) && input.Valid()
      ensures input.Unread() == BytesBits(buffer)
    {
      var mem := new MemoryStream(buffer, true);
      input := new BitStreams.BitStream(mem);
      assert mem.Ahead() == buffer;
    }

    /** The next digit of the input. */
    method NextDigit(input: BitStreams.BitStream) returns (digit: nat)
      requires Valid() && input.Valid() && Digits(bitSize, input.Unread()) != []
      requires input != bits && input.stream != bits.stream
      modifies input`readBitPosition, input`readByte, input.stream`position
      ensures input.Valid()
      ensures digit == old(Digits(bitSize, input.Unread()))[0]
      ensures Digits(bitSize, input.Unread()) == old(Digits(bitSize, input.Unread()))[1..]
    {
      hide FromBits, BytesBits, BitStreams.BitStream.Unread;
      var r := input.ReadBits(bitSize);
      digit := r.number;
    }

    /** Sends the pending prefix and the partial byte. The table stays as it is. The padding is
        settled when the whole stream is this object's. */
    method Flush()
      requires Writing() && ioBits <= 32
      modifies this`sent, this`firstWrite
      modifies bits`writeBitPosition, bits`writeByte, bits.stream`data, bits.stream`position
      ensures Valid() && firstWrite && bits.stream.IsEOS()
      ensures old(firstWrite) ==> sent == old(sent) && bits.Sent() == old(bits.Sent())
      ensures !old(firstWrite) ==>
                && sent == Finish(old(Compressor()))
                && bits.Sent() == BytesBits(bits.stream.Behind())
                && |bits.Sent()| == |header + CodesBits(sent)| + BitStreams.Unused(|header + CodesBits(sent)|)
                && header + CodesBits(sent) <= bits.Sent()
                && (bits.start == 0 ==> BitStreams.Flushed(header + CodesBits(sent), bits.Sent()))
    {
      hide BytesBits, CodesBits, BitStreams.BitStream.Sent, Fits, BitStreams.BitStream.Carries;
      hide BitStreams.Flushed, BitStreams.Unused;
      if !firstWrite {
        SendPrefix();
        bits.Flush();
        firstWrite := true;
      }
    }

    /** The string of a code, deepest prefix first. `writeBits` gets stuck when the buffer is
        full. */
    method WriteString(pcode: nat, pipe: BitStreams.BitStream) returns (stuck: bool)
      requires Valid() && Grounded(bitSize, table) && IsCode(bitSize, pcode, |table|)
      requires pipe != bits && pipe.stream != bits.stream && pipe.Valid()
      modifies pipe`writeBitPosition, pipe`writeByte, pipe.stream`data, pipe.stream`position
      ensures pipe.Valid()
      ensures stuck <==> !old(pipe.Room(|SymbolBits(bitSize, Expand(bitSize, table, pcode))|))
      ensures !stuck ==> pipe.Sent() == old(pipe.Sent()) + SymbolBits(bitSize, Expand(bitSize, table, pcode))
      ensures pipe.stream.fixedSize ==> |pipe.stream.data| == old(|pipe.stream.data|)
      decreases pcode
    {
      hide BytesBits, ToBits, Pow2, BitStreams.BitStream.Unread;
      ghost var before := pipe.Sent();
      if pcode >= Start(bitSize) {
        ghost var stem := Expand(bitSize, table, table[pcode - Start(bitSize)].prefix);
        SymbolBitsSnoc(bitSize, stem, table[pcode - Start(bitSize)].value);
        stuck := WriteString(table[pcode - Start(bitSize)].prefix, pipe);
        if stuck {
          return;
        }
        assert |pipe.Sent()| == |before| + |SymbolBits(bitSize, stem)|;
        if !pipe.Room(bitSize) {
          return true;
        }
        pipe.WriteBits(table[pcode - Start(bitSize)].value, bitSize);
      } else {
        SymbolBitsSnoc(bitSize, [], pcode);
        assert [] + [pcode] == [pcode] && SymbolBits(bitSize, []) == [];
        if !pipe.Room(bitSize) {
          return true;
        }
        pipe.WriteBits(pcode, bitSize);
      }
      stuck := false;
    }

    /** Appends (read prefix, first symbol of the code just read); the `kpak` loop may start
        at the new entry itself, whose value is not set yet. */
    method Append()
      requires Valid() && Sound(bitSize, Decompressor()) && IsCode(bitSize, readPrefix, |table|)
      requires IsCode(bitSize, readSuffix, |table| + 1)
      modifies this`table, this`ioBits, this`readPrefix
      ensures Decompressor() ==
                Learn(bitSize, old(Decompressor()),
                      old(Root(bitSize, table,
                               if readSuffix == Start(bitSize) + |table| then readPrefix else readSuffix)),
                      readSuffix)
    {
      ghost var known := table;
      ghost var root := Root(bitSize, known, if readSuffix == Start(bitSize) + |known| then readPrefix else readSuffix);
      var lpos := |table|;
      var unset: nat := *;
      table := table + [Entry(readPrefix, unset)];
      if lpos + Start(bitSize) + 1 == Pow2(ioBits) {
        ioBits := ioBits + 1;
      }
      var kpak: nat := readSuffix;
      while kpak >= Start(bitSize)
        invariant kpak == Start(bitSize) + lpos == readSuffix
                  || (IsCode(bitSize, kpak, lpos) && Root(bitSize, known, kpak) == root)
        decreases kpak
      {
        kpak := table[kpak - Start(bitSize)].prefix;
      }
      table := table[lpos := Entry(readPrefix, kpak)];
      assert table == known + [Entry(readPrefix, root)];
      readPrefix := readSuffix;
    }

    /** One turn of the loop in `read`. `d` is the decompressor with all it has written. */
    method Turn(nextEntry: nat, pipe: BitStreams.BitStream, ghost d: Decoder)
      returns (t: Turned, ghost next: Decoder)
      requires Valid() && Sound(bitSize, d) && d == Decompressor().(out := d.out)
      requires pipe != bits && pipe.stream != bits.stream
      requires pipe.Valid() && pipe.Sent() == SymbolBits(bitSize, d.out)
      requires pipe.stream.fixedSize
      modifies this`table, this`ioBits, this`firstRead, this`isEof, this`readPrefix, this`readSuffix
      modifies pipe`writeBitPosition, pipe`writeByte, pipe.stream`data, pipe.stream`position
      ensures Valid() && pipe.Valid()
      ensures |pipe.stream.data| == old(|pipe.stream.data|)
      ensures match DecodeCode(bitSize, d, nextEntry)
              case More(n) => if !Fit(bitSize, n.out, |pipe.stream.data|) then t.Stuck?
                              else t.Continue? && next == n && n == Decompressor().(out := n.out)
                                   && pipe.Sent() == SymbolBits(bitSize, n.out)
              case End(n) => t.Finished? && isEof && pipe.Sent() == SymbolBits(bitSize, n.out)
              case Rejected => t.Threw?
              case Endless => t.Stuck?
    {
      hide BytesBits, ToBits, Pow2, Grounded, Expand, Root, SymbolBits;
      hide BitStreams.BitStream.Sent, BitStreams.BitStream.Unread;
      var handled := false;
      next := d;
      if nextEntry < Start(bitSize) {
        if nextEntry == Clear(bitSize) {
          table, firstRead, isEof, ioBits := [], true, false, bitSize + 1;
          next := Decompressor().(out := d.out);
          return Continue, next;
        } else if nextEntry == EndOfInformation(bitSize) {
          isEof := true;
          return Finished, d;
        } else {
          var stuck := Emit(nextEntry, pipe, d.out);
          if stuck {
            return Stuck, d;
          }
          next := d.(out := d.out + Expand(bitSize, d.table, nextEntry));
        }
      } else {
        if nextEntry >= Start(bitSize) + |table| {
          if nextEntry > Start(bitSize) + |table| {
            return Threw, d;
          }
          if !IsCode(bitSize, readPrefix, |table|) {
            return if readPrefix == nextEntry then Stuck else Threw, d;
          }
          readSuffix := nextEntry;
          Append();
          ghost var o := DecodeCode(bitSize, d, nextEntry);
          assert o.More? && o.d.table == table;
          handled := true;
        }
        var stuck := Emit(nextEntry, pipe, d.out);
        if stuck {
          return Stuck, d;
        }
        next := Decompressor().(out := d.out + Expand(bitSize, table, nextEntry));
      }
      if handled {
      } else if firstRead {
        firstRead, readSuffix, readPrefix := false, nextEntry, nextEntry;
        next := next.(first := false, prefix := nextEntry);
      } else {
        readSuffix := nextEntry;
        Append();
        next := Decompressor().(out := next.out);
      }
      t := Continue;
    }

    /** `writeString` behind what is already in the pipe. */
    method Emit(pcode: nat, pipe: BitStreams.BitStream, ghost out: seq<nat>) returns (stuck: bool)
      requires Valid() && Grounded(bitSize, table) && IsCode(bitSize, pcode, |table|)
      requires pipe != bits && pipe.stream != bits.stream
      requires pipe.Valid() && pipe.Sent() == SymbolBits(bitSize, out)
      requires pipe.stream.fixedSize
      modifies pipe`writeBitPosition, pipe`writeByte, pipe.stream`data, pipe.stream`position
      ensures pipe.Valid() && |pipe.stream.data| == old(|pipe.stream.data|)
      ensures stuck <==> !Fit(bitSize, out + Expand(bitSize, table, pcode), |pipe.stream.data|)
      ensures !stuck ==> pipe.Sent() == SymbolBits(bitSize, out + Expand(bitSize, table, pcode))
    {
      SymbolBitsAppend(bitSize, out, Expand(bitSize, table, pcode));
      assert |pipe.Sent()| == 8 * pipe.stream.position + pipe.writeBitPosition;
      hide BytesBits, ToBits, SymbolBits, Grounded, Expand;
      stuck := WriteString(pcode, pipe);
    }

    /** A bit stream into a fixed buffer of the requested length. */
    method Output(length: nat) returns (pipe: BitStreams.BitStream)
      ensures fresh(pipe) && fresh(pipe.stream) && pipe.Valid()
      ensures pipe.Sent() == [] && pipe.stream.fixedSize && |pipe.stream.data| == length
    {
      var mem := new MemoryStream(seq(length, _ => 0), true);
      pipe := new BitStreams.BitStream(mem);
      assert mem.Behind() == [];
    }

    /** The whole bytes that have reached the buffer; a partial byte stays behind. */
    method CopyStream(pipe: BitStreams.BitStream) returns (buffer: seq<byte>)
      requires pipe.Valid()
      ensures WholeBytes(buffer, pipe.Sent())
    {
      buffer := pipe.stream.data[..pipe.stream.position];
    }

    /** Decompresses to the end of the data. A request too short for the output spins. On a
        fresh object the prefix is unset: `Decompressor` then holds any number. */
    method Read(length: nat) returns (r: LzwRead)
      requires Valid() && Sound(bitSize, Decompressor())
      requires Narrow(bitSize, Decompressor(), bits.Unread())
      modifies this`table, this`ioBits, this`firstRead, this`isEof, this`readPrefix, this`readSuffix
      modifies bits`readBitPosition, bits`readByte, bits.stream`position
      ensures Valid()
      ensures length == 0 || old(isEof) ==> r == Data([]) && isEof == old(isEof)
      ensures length > 0 && !old(isEof) ==>
                var result := DecodeBits(bitSize, old(Decompressor()), old(bits.Unread()));
                Returns(bitSize, result, length, r) && (r.Data? ==> isEof)
    {
      hide BytesBits, Pow2, Grounded, SymbolBits, FromBits, DecodeCode, WholeBytes;
      hide BitStreams.BitStream.Sent, BitStreams.BitStream.Unread;
      if length == 0 {
        return Data([]);
      }
      var pipe := Output(length);
      if isEof {
        var none := CopyStream(pipe);
        NoBytes(none);
        return Data(none);
      }
      ghost var result := DecodeBits(bitSize, Decompressor(), bits.Unread());
      ghost var d := Decompressor();
      NoSymbols(bitSize);
      while true
        invariant Valid() && Sound(bitSize, d) && d == Decompressor().(out := d.out)
        invariant fresh(pipe) && fresh(pipe.stream) && pipe.Valid()
        invariant pipe.stream.fixedSize && |pipe.stream.data| == length
        invariant pipe.Sent() == SymbolBits(bitSize, d.out)
        invariant DecodeBits(bitSize, d, bits.Unread()) == result
        invariant Narrow(bitSize, d, bits.Unread())
        decreases |bits.Unread()|
      {
        ghost var unread := bits.Unread();
        var entry := bits.ReadBits(ioBits);
        if entry.ReadError? {
          isEof := true;
          var buffer := CopyStream(pipe);
          return Data(buffer);
        }
        NextStep(bitSize, d, unread, length);
        var t, next := Turn(entry.number, pipe, d);
        if t.Threw? {
          return OutOfRange;
        }
        if t.Stuck? {
          return Spins;
        }
        if t.Finished? {
          var buffer := CopyStream(pipe);
          return Data(buffer);
        }
        d := next;
      }
    }
  }

  /** `bytes` are the whole bytes at the start of `bits`. */
  ghost predicate WholeBytes(bytes: seq<byte>, bits: seq<bool>) {
    BytesBits(bytes) <= bits && |bits| - |BytesBits(bytes)| < 8
  }

  lemma NoBytes(bytes: seq<byte>)
    requires WholeBytes(bytes, [])
    ensures bytes == []
  {
  }

  lemma NoSymbols(b: nat)
    ensures SymbolBits(b, []) == []
  {
  }

  /** What `DecodeBits` does with one more code, and that its output needs no more room than
      the final one. */
  lemma NextStep(b: nat, d: Decoder, bits: seq<bool>, length: nat)
    requires Sound(b, d) && d.ioBits <= |bits| && Narrow(b, d, bits)
    ensures var o, r := DecodeCode(b, d, FromBits(bits[..d.ioBits])), DecodeBits(b, d, bits);
            && (o.More? ==> r == DecodeBits(b, o.d, bits[d.ioBits..])
                            && (Fit(b, r.d.out, length) ==> Fit(b, o.d.out, length))
                            && Narrow(b, o.d, bits[d.ioBits..]))
            && (o.End? ==> r == Done(o.d))
            && (o.Rejected? ==> r == Failed(d))
            && (o.Endless? ==> r == Hung(d))
  {
    hide ToBits, SymbolBits, FromBits, Pow2, Expand, Root;
    var o := DecodeCode(b, d, FromBits(bits[..d.ioBits]));
    if o.More? {
      var final := DecodeBits(b, d, bits).d.out;
      assert final == o.d.out + final[|o.d.out|..];
      SymbolBitsAppend(b, o.d.out, final[|o.d.out|..]);
    }
  }

  lemma EncodeNone(b: nat, e: Encoder)
    ensures EncodeAll(b, e, []) == e
  {
  }

  lemma EncodeAllSnoc(b: nat, e: Encoder, symbols: seq<nat>, i: nat)
    requires i < |symbols|
    ensures EncodeAll(b, e, symbols[..i + 1]) == EncodeSymbol(b, EncodeAll(b, e, symbols[..i]), symbols[i])
  {
    assert symbols[..i + 1][..i] == symbols[..i];
  }

  lemma SymbolBitsSnoc(b: nat, symbols: seq<nat>, last: nat)
    ensures SymbolBits(b, symbols + [last]) == SymbolBits(b, symbols) + ToBits(last, b)
  {
    assert (symbols + [last])[..|symbols|] == symbols;
  }

  lemma {:induction false} SymbolBitsAppend(b: nat, s: seq<nat>, t: seq<nat>)
    ensures SymbolBits(b, s + t) == SymbolBits(b, s) + SymbolBits(b, t)
  {
    hide ToBits;
    if t == [] {
      assert s + t == s;
    } else {
      var n := |t| - 1;
      SymbolBitsAppend(b, s, t[..n]);
      assert s + t == (s + t[..n]) + [t[n]] && t == t[..n] + [t[n]];
      SymbolBitsSnoc(b, s + t[..n], t[n]);
      var head, rest, last := SymbolBits(b, s), SymbolBits(b, t[..n]), ToBits(t[n], b);
      assert head + (rest + last) == (head + rest) + last;
    }
  }

  lemma FirstWidth(b: nat)
    requires b >= 1
    ensures Fits(b, b + 1, 0)
  {
    Pow2Strict(0, b);
  }

  lemma WidthLimit(b: nat, ioBits: nat, size: nat)
    requires Fits(b, ioBits, size) && Start(b) + size < LIMIT
    ensures ioBits <= 30
  {
    if ioBits > 30 {
      PowLimit();
      if ioBits > 31 {
        Pow2Strict(30, ioBits - 1);
      }
    }
  }

  lemma PowLimit()
    ensures Pow2(30) == LIMIT
  {
    assert Pow2(10) == 1024;
    assert Pow2(20) == 0x10_0000;
  }

  lemma {:induction false} DigitCount(b: nat, bits: seq<bool>)
    requires b >= 1
    ensures |Digits(b, bits)| == |bits| / b
    decreases |bits|
  {
    if |bits| < b {
      var k, s := Euclid(|bits|, b);
      DivisionUnique(b, 0, |bits|, k, s);
    } else {
      DigitCount(b, bits[b..]);
      var q, r := Euclid(|bits| - b, b);
      var k, s := Euclid(|bits|, b);
      assert (q + 1) * b == q * b + b;
      DivisionUnique(b, q + 1, r, k, s);
    }
  }

  lemma DigitsOfBytes(b: nat, buffer: seq<byte>)
    requires 1 <= b <= 8
    ensures |Digits(b, BytesBits(buffer))| == NumberOfDigits(b, |buffer|)
    ensures buffer != [] ==> NumberOfDigits(b, |buffer|) >= 1
  {
    DigitCount(b, BytesBits(buffer));
    assert b == 1 || b == 2 || b == 3 || b == 4 || b == 5 || b == 6 || b == 7 || b == 8;
  }
}

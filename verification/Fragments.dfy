/** `cFragmentsDescriptor`: a list of invalid memory ranges and its serialized form, down to
    the typed addresses and the two byte orders. */
module Fragments {
  import opened Bits
  import opened Common
  import opened MemoryStreams

  // ----- byte orders -----

  ghost function Power256(n: nat): (p: nat)
    ensures p >= 1
  {
    if n == 0 then 1 else 256 * Power256(n - 1)
  }

  /** The `n` low bytes of a number, lowest first. */
  function LittleBytes(v: nat, n: nat): (bytes: seq<byte>)
    ensures |bytes| == n
  {
    if n == 0 then [] else [(v % 256) as byte] + LittleBytes(v / 256, n - 1)
  }

  function FromLittle(bytes: seq<byte>): nat {
    if bytes == [] then 0 else bytes[0] as nat + 256 * FromLittle(bytes[1..])
  }

  function Reverse(bytes: seq<byte>): (r: seq<byte>)
    ensures |r| == |bytes|
  {
    if bytes == [] then [] else Reverse(bytes[1..]) + [bytes[0]]
  }

  /** `writeUint16`, `writeUint32` and `writeUint64` in the byte order of the stream. */
  function Encode(little: bool, v: nat, n: nat): (bytes: seq<byte>)
    ensures |bytes| == n
  {
    if little then LittleBytes(v, n) else Reverse(LittleBytes(v, n))
  }

  /** `readUint16`, `readUint32` and `readUint64`. */
  function Decode(little: bool, bytes: seq<byte>): nat {
    FromLittle(if little then bytes else Reverse(bytes))
  }

  lemma {:induction false} LittleRoundTrip(v: nat, n: nat)
    ensures FromLittle(LittleBytes(v, n)) == v % Power256(n)
  {
    if n > 0 {
      LittleRoundTrip(v / 256, n - 1);
      assert LittleBytes(v, n)[1..] == LittleBytes(v / 256, n - 1);
      SplitByte(v, Power256(n - 1));
    }
  }

  lemma SplitByte(v: nat, p: nat)
    requires p >= 1
    ensures v % (256 * p) == v % 256 + 256 * (v / 256 % p)
  {
    var q, r := Euclid(v / 256, p);
    var k, s := Euclid(v, 256 * p);
    assert q * (256 * p) == 256 * (q * p);
    DivisionUnique(256 * p, q, 256 * r + v % 256, k, s);
  }

  lemma {:induction false} ReverseSnoc(bytes: seq<byte>, b: byte)
    ensures Reverse(bytes + [b]) == [b] + Reverse(bytes)
  {
    if bytes == [] {
      assert bytes + [b] == [b];
    } else {
      assert (bytes + [b])[1..] == bytes[1..] + [b];
      ReverseSnoc(bytes[1..], b);
    }
  }

  lemma {:induction false} ReverseTwice(bytes: seq<byte>)
    ensures Reverse(Reverse(bytes)) == bytes
  {
    if bytes != [] {
      ReverseSnoc(Reverse(bytes[1..]), bytes[0]);
      ReverseTwice(bytes[1..]);
    }
  }

  /** In either byte order a number comes back, cut to its bytes. */
  lemma EndianRoundTrip(little: bool, v: nat, n: nat)
    ensures Decode(little, Encode(little, v, n)) == v % Power256(n)
  {
    LittleRoundTrip(v, n);
    ReverseTwice(LittleBytes(v, n));
  }

  lemma {:induction false} LittleByte(v: nat, n: nat, i: nat)
    requires i < n
    ensures LittleBytes(v, n)[i] as nat == v / Power256(i) % 256
  {
    if i > 0 {
      LittleByte(v / 256, n - 1, i - 1);
      DivideTwice(v, 256, Power256(i - 1));
    }
  }

  lemma {:induction false} ReverseAt(bytes: seq<byte>, i: nat)
    requires i < |bytes|
    ensures Reverse(bytes)[i] == bytes[|bytes| - 1 - i]
  {
    if i < |bytes| - 1 {
      ReverseAt(bytes[1..], i);
    }
  }

  /** Little endian puts the lowest byte first, big endian the highest. */
  lemma EncodedByte(little: bool, v: nat, n: nat, i: nat)
    requires i < n
    ensures Encode(little, v, n)[i] as nat == v / Power256(if little then i else n - 1 - i) % 256
  {
    if little {
      LittleByte(v, n, i);
    } else {
      ReverseAt(LittleBytes(v, n), i);
      LittleByte(v, n, n - 1 - i);
    }
  }

  /** No two byte strings of one length stand for the same number. */
  lemma {:induction false} LittleBack(bytes: seq<byte>)
    ensures LittleBytes(FromLittle(bytes), |bytes|) == bytes
    ensures FromLittle(bytes) < Power256(|bytes|)
  {
    if bytes != [] {
      LittleBack(bytes[1..]);
      var b, rest := bytes[0] as nat, FromLittle(bytes[1..]);
      assert (b + 256 * rest) % 256 == b && (b + 256 * rest) / 256 == rest;
    }
  }

  lemma EncodesBack(little: bool, bytes: seq<byte>)
    ensures Encode(little, Decode(little, bytes), |bytes|) == bytes
    ensures Decode(little, bytes) < Power256(|bytes|)
  {
    if little {
      LittleBack(bytes);
    } else {
      LittleBack(Reverse(bytes));
      ReverseTwice(bytes);
    }
  }

  // ----- addresses -----

  datatype AddressType = Address16 | Address32 | Address64

  function Width(t: AddressType): nat {
    match t case Address16 => 2 case Address32 => 4 case Address64 => 8
  }

  function Tag(t: AddressType): byte {
    match t case Address16 => 0 case Address32 => 1 case Address64 => 2
  }

  /** `raw` is the 64-bit union; the type says how much of it counts. */
  datatype Address = Address(raw: nat, kind: AddressType)

  const MODULUS16: nat := 0x1_0000
  const MODULUS32: nat := 0x1_0000_0000
  const MODULUS64: nat := 0x1_0000_0000_0000_0000

  function Modulus(t: AddressType): nat {
    match t case Address16 => MODULUS16 case Address32 => MODULUS32 case Address64 => MODULUS64
  }

  lemma Moduli()
    ensures Power256(1) == 256 && Power256(2) == MODULUS16
    ensures Power256(4) == MODULUS32 && Power256(8) == MODULUS64
  {
    assert Power256(2) == 256 * Power256(1);
    assert Power256(4) == 256 * (256 * Power256(2));
    assert Power256(6) == 256 * (256 * Power256(4));
    assert Power256(8) == 256 * (256 * Power256(6));
  }

  /** `getClipedAddress`. */
  function Clip(a: Address): nat {
    a.raw % Modulus(a.kind)
  }

  datatype MemoryRange = MemoryRange(start: Address, end: Address)

  /** `isInsideRange`, with the comparisons that `operator <` and `operator ==` generate. */
  predicate IsInsideRange(a: Address, range: MemoryRange) {
    !(Clip(a) < Clip(range.start)) && (Clip(a) < Clip(range.end) || Clip(a) == Clip(range.end))
  }

  /** The encoding mode of a stream: every address with its own type in front, or all of them
      cut to one type. */
  datatype Mode = Tagged | Fixed(kind: AddressType)

  /** The address a reader in the mode gets. */
  function Image(mode: Mode, a: Address): Address {
    var kind := if mode.Tagged? then a.kind else mode.kind;
    Address(a.raw % Modulus(kind), kind)
  }

  function ImageRange(mode: Mode, range: MemoryRange): MemoryRange {
    MemoryRange(Image(mode, range.start), Image(mode, range.end))
  }

  ghost function Images(mode: Mode, ranges: seq<MemoryRange>): (r: seq<MemoryRange>)
    ensures |r| == |ranges|
  {
    seq(|ranges|, i requires 0 <= i < |ranges| => ImageRange(mode, ranges[i]))
  }

  /** The bytes of an address. */
  function AddressCode(mode: Mode, little: bool, a: Address): seq<byte> {
    match mode
    case Tagged => [Tag(a.kind)] + Encode(little, a.raw, Width(a.kind))
    case Fixed(kind) => Encode(little, a.raw, Width(kind))
  }

  function RangeCode(mode: Mode, little: bool, range: MemoryRange): seq<byte> {
    AddressCode(mode, little, range.start) + AddressCode(mode, little, range.end)
  }

  ghost function RangesCode(mode: Mode, little: bool, ranges: seq<MemoryRange>): seq<byte> {
    if ranges == [] then [] else RangeCode(mode, little, ranges[0]) + RangesCode(mode, little, ranges[1..])
  }

  ghost function ListCode(mode: Mode, little: bool, ranges: seq<MemoryRange>): seq<byte> {
    Encode(little, |ranges|, 2) + RangesCode(mode, little, ranges)
  }

  // ----- streams -----

  /** `streamReadUint16` and its like. */
  method ReadUint(stream: MemoryStream, little: bool, n: nat) returns (r: Result<nat>)
    requires stream.Valid()
    modifies stream`position
    ensures stream.Valid()
    ensures r.Ok? <==> n <= old(|stream.Ahead()|)
    ensures r.Ok? ==> r.value == Decode(little, old(stream.Ahead())[..n])
                      && stream.Ahead() == old(stream.Ahead())[n..]
  {
    hide Decode;
    ghost var ahead := stream.Ahead();
    var buffer := stream.PipeRead(n);
    if |buffer| != n {
      return Error;
    }
    assert ahead[..n] == buffer;
    return Ok(Decode(little, buffer));
  }

  /** A number written in `n` bytes is read back and its bytes are used up. */
  lemma ReadsNumber(little: bool, v: nat, n: nat, rest: seq<byte>)
    ensures var code := Encode(little, v, n) + rest;
            Decode(little, code[..n]) == v % Power256(n) && code[n..] == rest
  {
    EndianRoundTrip(little, v, n);
    assert (Encode(little, v, n) + rest)[..n] == Encode(little, v, n);
  }

  /** A value read off the front of some bytes and the bytes behind it, or an exception. */
  datatype Parsed<T> = Got(value: T, rest: seq<byte>) | Bad

  ghost function ParseNumber(little: bool, kind: AddressType, s: seq<byte>): Parsed<Address> {
    if |s| < Width(kind) then Bad
    else Got(Address(Decode(little, s[..Width(kind)]), kind), s[Width(kind)..])
  }

  /** An address: its type tag, if the mode has them, and its bytes. */
  ghost function ParseAddress(mode: Mode, little: bool, s: seq<byte>): Parsed<Address> {
    match mode
    case Fixed(kind) => ParseNumber(little, kind, s)
    case Tagged =>
      if s == [] || s[0] > 2 then Bad
      else
        ParseNumber(little, if s[0] == 0 then Address16 else if s[0] == 1 then Address32 else Address64, s[1..])
  }

  ghost function ParseRange(mode: Mode, little: bool, s: seq<byte>): Parsed<MemoryRange> {
    match ParseAddress(mode, little, s)
    case Bad => Bad
    case Got(start, more) =>
      match ParseAddress(mode, little, more)
      case Bad => Bad
      case Got(end, rest) => Got(MemoryRange(start, end), rest)
  }

  /** `n` more ranges behind those in `done`. */
  ghost function ParseRanges(mode: Mode, little: bool, n: nat, s: seq<byte>, done: seq<MemoryRange>)
    : Parsed<seq<MemoryRange>>
    decreases n
  {
    if n == 0 then Got(done, s)
    else
      match ParseRange(mode, little, s)
      case Bad => Bad
      case Got(range, rest) => ParseRanges(mode, little, n - 1, rest, done + [range])
  }

  ghost function ParseList(mode: Mode, little: bool, s: seq<byte>): Parsed<seq<MemoryRange>> {
    if |s| < 2 then Bad else ParseRanges(mode, little, Decode(little, s[..2]), s[2..], [])
  }

  /** `streamReadRemoteAddress`. */
  method ReadAddress(stream: MemoryStream, mode: Mode, little: bool) returns (r: Result<Address>)
    requires stream.Valid()
    modifies stream`position
    ensures stream.Valid()
    ensures var p := ParseAddress(mode, little, old(stream.Ahead()));
            && (r.Ok? <==> p.Got?)
            && (r.Ok? ==> p == Got(r.value, stream.Ahead()))
  {
    hide Decode;
    var kind := if mode.Fixed? then mode.kind else Address16;
    if mode.Tagged? {
      ghost var ahead := stream.Ahead();
      var tag := ReadUint(stream, little, 1);
      if tag.Error? {
        return Error;
      }
      OneByte(little, ahead[0]);
      assert ahead[..1] == [ahead[0]];
      if tag.value > 2 {
        return Error;
      }
      kind := if tag.value == 0 then Address16 else if tag.value == 1 then Address32 else Address64;
    }
    var value := ReadUint(stream, little, Width(kind));
    if value.Error? {
      return Error;
    }
    return Ok(Address(value.value, kind));
  }

  lemma OneByte(little: bool, b: byte)
    ensures Decode(little, [b]) == b as nat
  {
    assert [b][1..] == [] && Reverse([]) == [] && FromLittle([]) == 0;
    assert Reverse([b]) == [b];
  }

  /** The bytes of an address parse as the address cut to its type, and no further. */
  lemma AddressParses(mode: Mode, little: bool, a: Address, rest: seq<byte>)
    ensures ParseAddress(mode, little, AddressCode(mode, little, a) + rest) == Got(Image(mode, a), rest)
  {
    hide Encode, Decode, Power256;
    Moduli();
    var code := AddressCode(mode, little, a) + rest;
    match mode
    case Fixed(kind) => ReadsNumber(little, a.raw, Width(kind), rest);
    case Tagged =>
      var number := Encode(little, a.raw, Width(a.kind));
      ReadsNumber(little, a.raw, Width(a.kind), rest);
      assert code[0] == Tag(a.kind) && code[1..] == number + rest;
  }

  lemma RangeParses(mode: Mode, little: bool, range: MemoryRange, rest: seq<byte>)
    ensures ParseRange(mode, little, RangeCode(mode, little, range) + rest) == Got(ImageRange(mode, range), rest)
  {
    hide AddressCode, ParseAddress, Image;
    AddressParses(mode, little, range.start, AddressCode(mode, little, range.end) + rest);
    AddressParses(mode, little, range.end, rest);
    assert RangeCode(mode, little, range) + rest
        == AddressCode(mode, little, range.start) + (AddressCode(mode, little, range.end) + rest);
  }

  lemma {:induction false} RangesParse(
    mode: Mode, little: bool, ranges: seq<MemoryRange>, rest: seq<byte>, done: seq<MemoryRange>)
    ensures ParseRanges(mode, little, |ranges|, RangesCode(mode, little, ranges) + rest, done)
         == Got(done + Images(mode, ranges), rest)
    decreases |ranges|
  {
    hide RangeCode, ParseRange, ImageRange;
    if ranges == [] {
      assert [] + rest == rest && done + Images(mode, ranges) == done;
    } else {
      var more := RangesCode(mode, little, ranges[1..]) + rest;
      var first := ImageRange(mode, ranges[0]);
      RangeParses(mode, little, ranges[0], more);
      assert RangesCode(mode, little, ranges) + rest == RangeCode(mode, little, ranges[0]) + more;
      RangesParse(mode, little, ranges[1..], rest, done + [first]);
      assert Images(mode, ranges) == [first] + Images(mode, ranges[1..]);
      assert (done + [first]) + Images(mode, ranges[1..]) == done + ([first] + Images(mode, ranges[1..]));
    }
  }

  /** The bytes of a list of up to 65535 ranges parse as the list, each address cut to its
      type, and no further. */
  lemma ListParses(mode: Mode, little: bool, ranges: seq<MemoryRange>, rest: seq<byte>)
    requires |ranges| <= 0xFFFF
    ensures ParseList(mode, little, ListCode(mode, little, ranges) + rest) == Got(Images(mode, ranges), rest)
  {
    hide Encode, Decode, RangesCode, ParseRanges, Power256, Images;
    Moduli();
    var more := RangesCode(mode, little, ranges) + rest;
    ReadsNumber(little, |ranges|, 2, more);
    assert ListCode(mode, little, ranges) + rest == Encode(little, |ranges|, 2) + more;
    RangesParse(mode, little, ranges, rest, []);
    assert [] + Images(mode, ranges) == Images(mode, ranges);
  }

  /** The converse: whatever parses is the code of what it gives, and the rest. */
  lemma NumberCoded(little: bool, kind: AddressType, s: seq<byte>)
    requires ParseNumber(little, kind, s).Got?
    ensures var p := ParseNumber(little, kind, s);
            && p.value.kind == kind && p.value.raw < Modulus(kind)
            && s == Encode(little, p.value.raw, Width(kind)) + p.rest
  {
    hide Encode, Decode, Power256;
    Moduli();
    EncodesBack(little, s[..Width(kind)]);
    assert s == s[..Width(kind)] + s[Width(kind)..];
  }

  lemma AddressCoded(mode: Mode, little: bool, s: seq<byte>)
    requires ParseAddress(mode, little, s).Got?
    ensures var p := ParseAddress(mode, little, s);
            s == AddressCode(mode, little, p.value) + p.rest && Image(mode, p.value) == p.value
  {
    hide Encode, ParseNumber;
    match mode
    case Fixed(kind) =>
      NumberCoded(little, kind, s);
      SmallMod(ParseAddress(mode, little, s).value.raw, Modulus(kind));
    case Tagged =>
      var kind := if s[0] == 0 then Address16 else if s[0] == 1 then Address32 else Address64;
      NumberCoded(little, kind, s[1..]);
      SmallMod(ParseAddress(mode, little, s).value.raw, Modulus(kind));
      assert s == [s[0]] + s[1..];
  }

  lemma RangeCoded(mode: Mode, little: bool, s: seq<byte>)
    requires ParseRange(mode, little, s).Got?
    ensures var p := ParseRange(mode, little, s);
            s == RangeCode(mode, little, p.value) + p.rest && ImageRange(mode, p.value) == p.value
  {
    hide AddressCode, ParseAddress, Image;
    var start := ParseAddress(mode, little, s);
    AddressCoded(mode, little, s);
    AddressCoded(mode, little, start.rest);
    var end := ParseAddress(mode, little, start.rest);
    assert AddressCode(mode, little, start.value) + (AddressCode(mode, little, end.value) + end.rest)
        == RangeCode(mode, little, MemoryRange(start.value, end.value)) + end.rest;
  }

  lemma {:induction false} RangesCoded(mode: Mode, little: bool, n: nat, s: seq<byte>, done: seq<MemoryRange>)
    requires ParseRanges(mode, little, n, s, done).Got?
    ensures var p := ParseRanges(mode, little, n, s, done);
            && |p.value| == |done| + n && done <= p.value
            && s == RangesCode(mode, little, p.value[|done|..]) + p.rest
            && forall i :: |done| <= i < |p.value| ==> ImageRange(mode, p.value[i]) == p.value[i]
    decreases n
  {
    hide RangeCode, ParseRange, ImageRange;
    var p := ParseRanges(mode, little, n, s, done);
    if n == 0 {
      assert p.value[|done|..] == [] && [] + s == s;
    } else {
      var first := ParseRange(mode, little, s);
      RangeCoded(mode, little, s);
      RangesCoded(mode, little, n - 1, first.rest, done + [first.value]);
      var more := p.value[|done|..];
      assert more[0] == first.value && more[1..] == p.value[|done| + 1..];
      assert RangeCode(mode, little, first.value) + (RangesCode(mode, little, more[1..]) + p.rest)
          == RangesCode(mode, little, more) + p.rest;
    }
  }

  /** Bytes parse as a list only if they are its code: there is no other way to write it, and
      no tag but 0, 1 and 2. */
  lemma ListCoded(mode: Mode, little: bool, s: seq<byte>)
    requires ParseList(mode, little, s).Got?
    ensures var p := ParseList(mode, little, s);
            && |p.value| <= 0xFFFF && s == ListCode(mode, little, p.value) + p.rest
            && Images(mode, p.value) == p.value
  {
    hide Encode, Decode, RangesCode, ParseRanges, Power256, ImageRange;
    Moduli();
    var p := ParseList(mode, little, s);
    var n := Decode(little, s[..2]);
    EncodesBack(little, s[..2]);
    RangesCoded(mode, little, n, s[2..], []);
    assert p.value[0..] == p.value && s == s[..2] + s[2..];
    assert Encode(little, n, 2) + (RangesCode(mode, little, p.value) + p.rest)
        == ListCode(mode, little, p.value) + p.rest;
  }

  lemma LittleTwo(v: nat)
    ensures Encode(true, v, 2) == [(v % 256) as byte, (v / 0x100 % 256) as byte]
  {
    hide Encode;
    assert Power256(0) == 1 && Power256(1) == 0x100;
    EncodedByte(true, v, 2, 0);
    EncodedByte(true, v, 2, 1);
  }

  lemma LittleFour(v: nat)
    ensures Encode(true, v, 4)
         == [(v % 256) as byte, (v / 0x100 % 256) as byte, (v / 0x1_0000 % 256) as byte, (v / 0x100_0000 % 256) as byte]
  {
    hide Encode;
    assert Power256(0) == 1 && Power256(1) == 0x100 && Power256(2) == 0x1_0000 && Power256(3) == 0x100_0000;
    EncodedByte(true, v, 4, 0);
    EncodedByte(true, v, 4, 1);
    EncodedByte(true, v, 4, 2);
    EncodedByte(true, v, 4, 3);
  }

  lemma OneRangeCode(mode: Mode, little: bool, range: MemoryRange)
    ensures ListCode(mode, little, [range])
         == Encode(little, 1, 2) + (AddressCode(mode, little, range.start) + AddressCode(mode, little, range.end))
  {
    hide AddressCode, Encode;
    assert [range][1..] == [];
    assert RangesCode(mode, little, [range]) == RangeCode(mode, little, range) + [];
  }

  /** A list of one range byte by byte: the count, then start and end, each with its tag. */
  lemma ListLayout(start: Address, end: Address)
    requires start.kind == Address16 && end.kind == Address32
    ensures var x, y := start.raw, end.raw;
            ListCode(Tagged, true, [MemoryRange(start, end)]) ==
            [1, 0, 0, (x % 256) as byte, (x / 0x100 % 256) as byte,
             1, (y % 256) as byte, (y / 0x100 % 256) as byte,
             (y / 0x1_0000 % 256) as byte, (y / 0x100_0000 % 256) as byte]
  {
    hide Encode, ListCode;
    OneRangeCode(Tagged, true, MemoryRange(start, end));
    LittleTwo(1);
    LittleTwo(start.raw);
    LittleFour(end.raw);
  }

  /** The tags, and how many bytes of each type follow them. */
  lemma TagLayout(little: bool, a: Address)
    ensures var code := AddressCode(Tagged, little, a);
            match a.kind
            case Address16 => |code| == 3 && code[0] == 0
            case Address32 => |code| == 5 && code[0] == 1
            case Address64 => |code| == 9 && code[0] == 2
  {
  }

  // ----- the class -----

  class FragmentsDescriptor {
    var fragments: seq<MemoryRange>

    constructor ()
      ensures fragments == []
    {
      fragments := [];
    }

    method AppendFragmentBlock(start: Address, end: Address)
      modifies this
      ensures fragments == old(fragments) + [MemoryRange(start, end)]
    {
      fragments := fragments + [MemoryRange(start, end)];
    }

    method IsMemoryValid(a: Address) returns (valid: bool)
      ensures valid <==> IsValidIn(fragments, a)
    {
      for i := 0 to |fragments|
        invariant forall k :: 0 <= k < i ==> !IsInsideRange(a, fragments[k])
      {
        if IsInsideRange(a, fragments[i]) {
          return false;
        }
      }
      return true;
    }

    /** The count takes two bytes; a longer list is refused before anything is written. */
    method Serialize(stream: MemoryStream, mode: Mode, little: bool) returns (ok: bool)
      requires stream.Valid() && !stream.fixedSize
      modifies stream`data, stream`position
      ensures stream.Valid()
      ensures ok <==> |fragments| <= 0xFFFF
      ensures ok ==> stream.Behind() == old(stream.Behind()) + ListCode(mode, little, fragments)
      ensures !ok ==> stream.Behind() == old(stream.Behind())
    {
      hide Encode, RangesCode, RangeCode, AddressCode;
      if |fragments| > 0xFFFF {
        return false;
      }
      ghost var before := stream.Behind();
      ghost var count, all := Encode(little, |fragments|, 2), RangesCode(mode, little, fragments);
      stream.PipeWrite(Encode(little, |fragments|, 2));
      SerializeRanges(stream, mode, little);
      assert before + (count + all) == (before + count) + all;
      return true;
    }

    /** The loop in `serialize`. */
    method SerializeRanges(stream: MemoryStream, mode: Mode, little: bool)
      requires stream.Valid() && !stream.fixedSize
      modifies stream`data, stream`position
      ensures stream.Valid()
      ensures stream.Behind() == old(stream.Behind()) + RangesCode(mode, little, fragments)
    {
      hide RangesCode, RangeCode;
      ghost var header := stream.Behind();
      assert fragments[..0] == [];
      NoRanges(mode, little);
      assert header + [] == header;
      for i := 0 to |fragments|
        invariant stream.Valid()
        invariant stream.Behind() == header + RangesCode(mode, little, fragments[..i])
      {
        ghost var done, next := RangesCode(mode, little, fragments[..i]), RangeCode(mode, little, fragments[i]);
        RangesCodeSnoc(mode, little, fragments, i);
        assert header + (done + next) == (header + done) + next;
        stream.PipeWrite(RangeCode(mode, little, fragments[i]));
      }
      assert fragments[..|fragments|] == fragments;
    }

    /** Reading replaces the list; on an exception the ranges read so far stay. */
    method Deserialize(stream: MemoryStream, mode: Mode, little: bool) returns (ok: bool)
      requires stream.Valid()
      modifies this, stream`position
      ensures stream.Valid()
      ensures var p := ParseList(mode, little, old(stream.Ahead()));
              && (ok <==> p.Got?)
              && (ok ==> p == Got(fragments, stream.Ahead()))
    {
      hide Decode, ParseRange;
      var count := ReadUint(stream, little, 2);
      if count.Error? {
        return false;
      }
      fragments := [];
      ghost var total := ParseRanges(mode, little, count.value, stream.Ahead(), []);
      for i := 0 to count.value
        invariant stream.Valid()
        invariant ParseRanges(mode, little, count.value - i, stream.Ahead(), fragments) == total
      {
        var range := DeserializeRange(stream, mode, little);
        if range.Error? {
          return false;
        }
        fragments := fragments + [range.value];
      }
      return true;
    }

    /** `MemoryRange::deserialize`. */
    static method DeserializeRange(stream: MemoryStream, mode: Mode, little: bool) returns (r: Result<MemoryRange>)
      requires stream.Valid()
      modifies stream`position
      ensures stream.Valid()
      ensures var p := ParseRange(mode, little, old(stream.Ahead()));
              && (r.Ok? <==> p.Got?)
              && (r.Ok? ==> p == Got(r.value, stream.Ahead()))
    {
      hide ParseAddress;
      var start := ReadAddress(stream, mode, little);
      if start.Error? {
        return Error;
      }
      var end := ReadAddress(stream, mode, little);
      if end.Error? {
        return Error;
      }
      return Ok(MemoryRange(start.value, end.value));
    }
  }

  lemma NoRanges(mode: Mode, little: bool)
    ensures RangesCode(mode, little, []) == []
  {
  }

  /** No range of the list covers the address. */
  ghost predicate IsValidIn(ranges: seq<MemoryRange>, a: Address) {
    forall i :: 0 <= i < |ranges| ==> !IsInsideRange(a, ranges[i])
  }

  lemma {:induction false} RangesCodeSnoc(mode: Mode, little: bool, ranges: seq<MemoryRange>, i: nat)
    requires i < |ranges|
    ensures RangesCode(mode, little, ranges[..i + 1])
         == RangesCode(mode, little, ranges[..i]) + RangeCode(mode, little, ranges[i])
  {
    hide RangeCode;
    if i == 0 {
      assert ranges[..1] == [ranges[0]] && [ranges[0]][1..] == [];
    } else {
      RangesCodeSnoc(mode, little, ranges[1..], i - 1);
      assert ranges[..i + 1][1..] == ranges[1..][..i] && ranges[..i][1..] == ranges[1..][..i - 1];
    }
  }

  // ----- meaning -----

  /** Serializing an address keeps what counts of it exactly when cutting it to the mode's type
      leaves its clipped value alone; with type tags it always does. */
  lemma ImageKeeps(mode: Mode, a: Address)
    ensures mode.Tagged? ==> Clip(Image(mode, a)) == Clip(a)
    ensures mode.Fixed? ==> (Clip(Image(mode, a)) == Clip(a) <==> a.raw % Modulus(mode.kind) == Clip(a))
  {
  }

  lemma SameAnswers(mode: Mode, ranges: seq<MemoryRange>, a: Address)
    requires forall i :: 0 <= i < |ranges| ==>
               && Clip(Image(mode, ranges[i].start)) == Clip(ranges[i].start)
               && Clip(Image(mode, ranges[i].end)) == Clip(ranges[i].end)
    ensures IsValidIn(Images(mode, ranges), a) <==> IsValidIn(ranges, a)
  {
    hide Image, Clip;
    forall i | 0 <= i < |ranges|
      ensures IsInsideRange(a, Images(mode, ranges)[i]) <==> IsInsideRange(a, ranges[i])
    {
      assert Images(mode, ranges)[i] == ImageRange(mode, ranges[i]);
    }
  }

  /** Some range of the list covers the address value. */
  ghost predicate Covers(ranges: seq<MemoryRange>, x: nat) {
    exists i :: 0 <= i < |ranges| && Holds(ranges[i], x)
  }

  ghost predicate Holds(range: MemoryRange, x: nat) {
    Clip(range.start) <= x <= Clip(range.end)
  }

  lemma ValidIffUncovered(ranges: seq<MemoryRange>, a: Address)
    ensures IsValidIn(ranges, a) <==> !Covers(ranges, Clip(a))
  {
    hide Clip;
    assert forall i :: 0 <= i < |ranges| ==> (IsInsideRange(a, ranges[i]) <==> Holds(ranges[i], Clip(a)));
  }

  /** Two lists agree where ranges of the one start, and right behind their ends. */
  ghost predicate EdgesAgree(ranges: seq<MemoryRange>, others: seq<MemoryRange>) {
    forall i :: 0 <= i < |ranges| ==>
      && (Covers(ranges, Clip(ranges[i].start)) <==> Covers(others, Clip(ranges[i].start)))
      && (Covers(ranges, Clip(ranges[i].end) + 1) <==> Covers(others, Clip(ranges[i].end) + 1))
  }

  /** Going down from an address that one list covers and the other does not, they part at an edge. */
  lemma {:induction false} PartAtEdge(ranges: seq<MemoryRange>, others: seq<MemoryRange>, x: nat)
    requires Covers(ranges, x) && !Covers(others, x)
    ensures !(EdgesAgree(ranges, others) && EdgesAgree(others, ranges))
    decreases x
  {
    hide Clip;
    var i :| 0 <= i < |ranges| && Holds(ranges[i], x);
    if Clip(ranges[i].start) < x {
      assert Holds(ranges[i], x - 1);
      if Covers(others, x - 1) {
        var j :| 0 <= j < |others| && Holds(others[j], x - 1);
        assert !Holds(others[j], x);
        assert Clip(others[j].end) + 1 == x;
      } else {
        PartAtEdge(ranges, others, x - 1);
      }
    }
  }

  /** Two lists answer the same for every address exactly when they do so at the edges. */
  lemma SameAnswersIff(ranges: seq<MemoryRange>, others: seq<MemoryRange>)
    ensures (forall a :: IsValidIn(others, a) <==> IsValidIn(ranges, a))
       <==> EdgesAgree(ranges, others) && EdgesAgree(others, ranges)
  {
    hide IsValidIn, Covers;
    if EdgesAgree(ranges, others) && EdgesAgree(others, ranges) {
      forall a
        ensures IsValidIn(others, a) <==> IsValidIn(ranges, a)
      {
        ValidIffUncovered(ranges, a);
        ValidIffUncovered(others, a);
        if Covers(ranges, Clip(a)) && !Covers(others, Clip(a)) {
          PartAtEdge(ranges, others, Clip(a));
        } else if Covers(others, Clip(a)) && !Covers(ranges, Clip(a)) {
          PartAtEdge(others, ranges, Clip(a));
        }
      }
    }
    if forall a :: IsValidIn(others, a) <==> IsValidIn(ranges, a) {
      forall x: nat
        ensures Covers(ranges, x) <==> Covers(others, x)
      {
        CoverSame(ranges, others, x);
      }
    }
  }

  lemma CoverSame(ranges: seq<MemoryRange>, others: seq<MemoryRange>, x: nat)
    requires forall a :: IsValidIn(others, a) <==> IsValidIn(ranges, a)
    ensures Covers(ranges, x) <==> Covers(others, x)
  {
    hide IsValidIn, Covers;
    if x < MODULUS64 {
      var a := Address(x, Address64);
      ValidIffUncovered(ranges, a);
      ValidIffUncovered(others, a);
      SmallMod(x, MODULUS64);
    } else {
      NothingAbove(ranges, x);
      NothingAbove(others, x);
    }
  }

  lemma NothingAbove(ranges: seq<MemoryRange>, x: nat)
    requires x >= MODULUS64
    ensures !Covers(ranges, x)
  {
    forall i | 0 <= i < |ranges|
      ensures !Holds(ranges[i], x)
    {
      assert Clip(ranges[i].end) < Modulus(ranges[i].end.kind);
    }
  }

  /** Every list of up to 65535 ranges is read back, each address cut to its type, and exactly
      the bytes written are used up, in every mode and byte order. With type tags it answers the
      same for every address; with one fixed type exactly when it does so at its edges. */
  method RoundTrip(d: FragmentsDescriptor, mode: Mode, little: bool, tail: seq<byte>)
    returns (back: FragmentsDescriptor, ok: bool, left: seq<byte>)
    ensures ok <==> |d.fragments| <= 0xFFFF
    ensures ok ==> left == tail && back.fragments == Images(mode, d.fragments)
    ensures ok && mode.Tagged? ==> forall a :: IsValidIn(back.fragments, a) <==> IsValidIn(d.fragments, a)
    ensures ok ==>
              ((forall a :: IsValidIn(back.fragments, a) <==> IsValidIn(d.fragments, a))
               <==> EdgesAgree(d.fragments, back.fragments) && EdgesAgree(back.fragments, d.fragments))
  {
    hide ListCode, IsValidIn, Images, ParseList, EdgesAgree, Covers;
    back := new FragmentsDescriptor();
    left := [];
    var store := new MemoryStream([], false);
    ok := d.Serialize(store, mode, little);
    if ok {
      assert [] + ListCode(mode, little, d.fragments) == ListCode(mode, little, d.fragments);
      var input := new MemoryStream(store.data[..store.position] + tail, true);
      assert input.Ahead() == ListCode(mode, little, d.fragments) + tail;
      ListParses(mode, little, d.fragments, tail);
      ok := back.Deserialize(input, mode, little);
      left := input.data[input.position..];
      SameAnswersIff(d.fragments, back.fragments);
      if mode.Tagged? {
        TaggedAnswers(d.fragments);
      }
    }
  }

  lemma TaggedAnswers(ranges: seq<MemoryRange>)
    ensures forall a :: IsValidIn(Images(Tagged, ranges), a) <==> IsValidIn(ranges, a)
  {
    hide IsValidIn, Images;
    forall a
      ensures IsValidIn(Images(Tagged, ranges), a) <==> IsValidIn(ranges, a)
    {
      forall i | 0 <= i < |ranges|
        ensures Clip(Image(Tagged, ranges[i].start)) == Clip(ranges[i].start)
        ensures Clip(Image(Tagged, ranges[i].end)) == Clip(ranges[i].end)
      {
        ImageKeeps(Tagged, ranges[i].start);
        ImageKeeps(Tagged, ranges[i].end);
      }
      SameAnswers(Tagged, ranges, a);
    }
  }
}

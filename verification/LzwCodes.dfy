/** The two code machines of `cLZWcompression` as functions on values: what one symbol does
    to the compressor and what one code does to the decompressor. `LzwStream.dfy` proves the
    class against them. */
module LzwCodes {
  import opened Bits

  datatype Entry = Entry(prefix: nat, value: nat)
  type Table = seq<Entry>

  function Clear(b: nat): nat { Pow2(b) }
  function EndOfInformation(b: nat): nat { Pow2(b) + 1 }
  function Start(b: nat): nat { Pow2(b) + 2 }

  /** `code` names a literal or one of the first `size` table entries. */
  predicate IsCode(b: nat, code: nat, size: nat) {
    code < Pow2(b) || Start(b) <= code < Start(b) + size
  }

  /** Every entry's prefix is a literal or an earlier entry, and its value is a symbol. */
  ghost predicate Grounded(b: nat, table: Table) {
    forall i :: 0 <= i < |table| ==> IsCode(b, table[i].prefix, i) && table[i].value < Pow2(b)
  }

  ghost predicate Distinct(table: Table) {
    forall i, j :: 0 <= i < j < |table| ==> table[i] != table[j]
  }

  /** Numbers that fit into `b` bits. */
  ghost predicate Symbols(b: nat, s: seq<nat>) {
    forall i :: 0 <= i < |s| ==> s[i] < Pow2(b)
  }

  /** The string `writeString` writes for a code. */
  ghost function Expand(b: nat, table: Table, code: nat): (symbols: seq<nat>)
    requires Grounded(b, table) && IsCode(b, code, |table|)
    ensures symbols != [] && Symbols(b, symbols)
    decreases code
  {
    if code < Start(b) then [code]
    else
      var entry := table[code - Start(b)];
      Expand(b, table, entry.prefix) + [entry.value]
  }

  /** Where the `kpak` loops end: the literal at the bottom of a code's prefix chain. */
  ghost function Root(b: nat, table: Table, code: nat): (literal: nat)
    requires Grounded(b, table) && IsCode(b, code, |table|)
    ensures literal == Expand(b, table, code)[0] && literal < Pow2(b)
    decreases code
  {
    if code < Start(b) then code else Root(b, table, table[code - Start(b)].prefix)
  }

  /** The linear search in `write`: the least index of the entry, or the table's size. */
  function Find(table: Table, entry: Entry): (index: nat)
    ensures index <= |table|
    ensures index < |table| ==> table[index] == entry
    ensures forall k :: 0 <= k < index ==> table[k] != entry
  {
    if table == [] || table[0] == entry then 0 else 1 + Find(table[1..], entry)
  }

  /** A code as it goes out: its number and the width it is written with. */
  datatype Code = Code(number: nat, width: nat)

  // ----- compressor -----

  datatype Encoder = Encoder(table: Table, ioBits: nat, prefix: nat, sent: seq<Code>)

  function NewEncoder(b: nat, first: nat): Encoder {
    Encoder([], b + 1, first, [])
  }

  /** One turn of the loop in `write`. */
  function EncodeSymbol(b: nat, e: Encoder, symbol: nat): Encoder {
    var pcode := Find(e.table, Entry(e.prefix, symbol));
    if pcode < |e.table| then
      e.(prefix := pcode + Start(b))
    else
      Encoder(e.table + [Entry(e.prefix, symbol)],
              if |e.table| + Start(b) == Pow2(e.ioBits) then e.ioBits + 1 else e.ioBits,
              symbol,
              e.sent + [Code(e.prefix, e.ioBits)])
  }

  function EncodeAll(b: nat, e: Encoder, symbols: seq<nat>): Encoder {
    if symbols == [] then e
    else EncodeSymbol(b, EncodeAll(b, e, symbols[..|symbols| - 1]), symbols[|symbols| - 1])
  }

  /** The compressor after the symbols of a fresh stream. */
  function Encode(b: nat, symbols: seq<nat>): Encoder
    requires symbols != []
  {
    EncodeAll(b, NewEncoder(b, symbols[0]), symbols[1..])
  }

  /** `flush` sends the pending prefix. */
  function Finish(e: Encoder): seq<Code> {
    e.sent + [Code(e.prefix, e.ioBits)]
  }

  // ----- decompressor -----

  datatype Decoder = Decoder(table: Table, ioBits: nat, first: bool, prefix: nat, out: seq<nat>)

  /** `Rejected`: the array throws "out of range". `Endless`: the walk down the prefixes runs
      in a circle. */
  datatype Outcome = More(d: Decoder) | End(d: Decoder) | Rejected | Endless

  function NewDecoder(b: nat, prefix: nat): Decoder {
    Decoder([], b + 1, true, prefix, [])
  }

  /** Before the first code of a table the prefix is a stale one, or was never set. */
  ghost predicate Sound(b: nat, d: Decoder) {
    && Grounded(b, d.table)
    && (IsCode(b, d.prefix, |d.table|) || (d.first && d.table == []))
    && d.ioBits >= 1
  }

  /** Append `prefix` + `value`, one width step earlier than the compressor's test. */
  ghost function Learn(b: nat, d: Decoder, value: nat, code: nat): Decoder {
    Decoder(d.table + [Entry(d.prefix, value)],
            if |d.table| + Start(b) + 1 == Pow2(d.ioBits) then d.ioBits + 1 else d.ioBits,
            d.first, code, d.out)
  }

  ghost predicate SoundOutcome(b: nat, o: Outcome) {
    o.More? || o.End? ==> Sound(b, o.d)
  }

  /** One turn of the loop in `read`, for a code already taken from the stream. */
  ghost function DecodeCode(b: nat, d: Decoder, code: nat): (o: Outcome)
    requires Sound(b, d)
    ensures SoundOutcome(b, o)
    ensures o.More? || o.End? ==> d.out <= o.d.out
  {
    if code == Clear(b) then
      More(Decoder([], b + 1, true, d.prefix, d.out))
    else if code == EndOfInformation(b) then
      End(d)
    else if code < Start(b) + |d.table| then
      var known := d.(out := d.out + Expand(b, d.table, code));
      if d.first then More(known.(first := false, prefix := code))
      else More(Learn(b, known, Root(b, d.table, code), code))
    else if code > Start(b) + |d.table| then
      Rejected
    else if !IsCode(b, d.prefix, |d.table|) then
      if d.prefix == code then Endless else Rejected
    else
      var grown := Learn(b, d, Root(b, d.table, d.prefix), code);
      More(grown.(out := d.out + Expand(b, grown.table, code)))
  }

  /** What `read` ends with: the end of the data, an exception, or nothing. */
  datatype Decoded = Done(d: Decoder) | Failed(d: Decoder) | Hung(d: Decoder)

  /** The loop of `read`: codes of the current width until too few bits are left. */
  ghost function DecodeBits(b: nat, d: Decoder, bits: seq<bool>): (r: Decoded)
    requires Sound(b, d)
    ensures r.Done? ==> Sound(b, r.d)
    ensures d.out <= r.d.out
    decreases |bits|
  {
    if |bits| < d.ioBits then Done(d)
    else
      match DecodeCode(b, d, FromBits(bits[..d.ioBits]))
      case More(next) => DecodeBits(b, next, bits[d.ioBits..])
      case End(next) => Done(next)
      case Rejected => Failed(d)
      case Endless => Hung(d)
  }

  /** No code on the way is wider than the 32 bits `readBits` can return. */
  ghost predicate Narrow(b: nat, d: Decoder, bits: seq<bool>)
    requires Sound(b, d)
    decreases |bits|
  {
    && d.ioBits <= 32
    && (d.ioBits <= |bits| ==>
          var o := DecodeCode(b, d, FromBits(bits[..d.ioBits]));
          o.More? ==> Narrow(b, o.d, bits[d.ioBits..]))
  }
}

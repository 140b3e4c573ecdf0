/** Whole runs: any number of writes, a flush, and a fresh decompressor on the result. */
module LzwRuns {
  import opened Bits
  import opened MemoryStreams
  import opened Common
  import BitStreams
  import opened LzwCodes
  import opened LzwProofs
  import opened LzwRoundTrip
  import opened LzwEndings
  import opened LzwStreams

  /** How many symbols all chunks hold. */
  ghost function TotalDigits(b: nat, chunks: seq<seq<byte>>): nat
    requires 1 <= b <= 8
  {
    if chunks == [] then 0
    else TotalDigits(b, chunks[..|chunks| - 1]) + NumberOfDigits(b, |chunks[|chunks| - 1]|)
  }

  /** No 32-bit number of the source wraps. */
  ghost predicate InRange(b: nat, chunks: seq<seq<byte>>) {
    && 1 <= b <= 8
    && Start(b) + TotalDigits(b, chunks) < LIMIT
    && forall i :: 0 <= i < |chunks| ==> |chunks[i]| * 8 < UINT
  }

  /** The symbols that a run of writes encodes: every write but the first drops its last. */
  ghost function Taken(b: nat, chunks: seq<seq<byte>>): seq<nat>
    requires 1 <= b <= 8
  {
    if chunks == [] then []
    else
      var before := Taken(b, chunks[..|chunks| - 1]);
      var chunk := chunks[|chunks| - 1];
      var digits := Digits(b, BytesBits(chunk));
      if chunk == [] || digits == [] then before
      else if before == [] then digits
      else before + digits[..|digits| - 1]
  }

  /** The same for bytes. */
  ghost function Kept(chunks: seq<seq<byte>>): seq<byte> {
    if chunks == [] then []
    else
      var before := Kept(chunks[..|chunks| - 1]);
      var chunk := chunks[|chunks| - 1];
      if chunk == [] then before
      else if before == [] then chunk
      else before + chunk[..|chunk| - 1]
  }

  lemma {:induction false} DigitsFit(b: nat, bits: seq<bool>)
    requires b >= 1
    ensures Symbols(b, Digits(b, bits))
    decreases |bits|
  {
    if |bits| >= b {
      DigitsFit(b, bits[b..]);
      FromBitsBound(bits[..b]);
    }
  }

  lemma {:induction false} TakenFit(b: nat, chunks: seq<seq<byte>>)
    requires 1 <= b <= 8
    ensures Symbols(b, Taken(b, chunks))
  {
    if chunks != [] {
      hide Digits;
      TakenFit(b, chunks[..|chunks| - 1]);
      DigitsFit(b, BytesBits(chunks[|chunks| - 1]));
    }
  }

  lemma {:induction false} EncodeAppend(b: nat, symbols: seq<nat>, more: seq<nat>)
    requires symbols != []
    ensures Encode(b, symbols + more) == EncodeAll(b, Encode(b, symbols), more)
  {
    hide EncodeSymbol;
    if more == [] {
      assert symbols + more == symbols;
    } else {
      var n := |more| - 1;
      EncodeAppend(b, symbols, more[..n]);
      var all := symbols + more;
      assert all[..|all| - 1] == symbols + more[..n];
      EncodeSnoc(b, all);
    }
  }

  lemma {:induction false} TotalDigitsPrefix(b: nat, chunks: seq<seq<byte>>, i: nat)
    requires 1 <= b <= 8 && i <= |chunks|
    ensures TotalDigits(b, chunks[..i]) <= TotalDigits(b, chunks)
    decreases |chunks|
  {
    hide NumberOfDigits;
    if i == |chunks| {
      assert chunks[..i] == chunks;
    } else {
      assert chunks[..|chunks| - 1][..i] == chunks[..i];
      TotalDigitsPrefix(b, chunks[..|chunks| - 1], i);
    }
  }

  /** The compressor between two writes. */
  ghost predicate Encoded(lzw: LzwStream, symbols: seq<nat>, head: seq<bool>)
    reads lzw, lzw.bits, lzw.bits.stream
  {
    && lzw.Writing() && lzw.bits.start == 0 && lzw.header == head
    && (lzw.firstWrite <==> symbols == [])
    && (symbols == [] ==> lzw.table == [] && lzw.ioBits == lzw.bitSize + 1 && lzw.sent == [])
    && (symbols != [] ==> lzw.Compressor() == Encode(lzw.bitSize, symbols))
  }

  method Begin(b: nat, leadingClear: bool) returns (lzw: LzwStream)
    requires 1 <= b <= 8
    ensures fresh(lzw) && fresh(lzw.bits) && fresh(lzw.bits.stream) && lzw.bitSize == b
    ensures Encoded(lzw, [], Head(b, leadingClear))
  {
    var store := new MemoryStream([], false);
    lzw := new LzwStream(store, b);
    assert store.Behind() == [];
    assert lzw.bits.Sent() == lzw.header + CodesBits([]);
    if leadingClear {
      lzw.InitNewStream();
    }
  }

  /** One more write. */
  method Continue(lzw: LzwStream, chunks: seq<seq<byte>>, i: nat, ghost head: seq<bool>)
    requires 1 <= lzw.bitSize <= 8 && i < |chunks| && Encoded(lzw, Taken(lzw.bitSize, chunks[..i]), head)
    requires |chunks[i]| * 8 < UINT
    requires Start(lzw.bitSize) + |lzw.table| + NumberOfDigits(lzw.bitSize, |chunks[i]|) < LIMIT
    modifies lzw, lzw.bits, lzw.bits.stream
    ensures Encoded(lzw, Taken(lzw.bitSize, chunks[..i + 1]), head)
    ensures |lzw.table| <= old(|lzw.table|) + NumberOfDigits(lzw.bitSize, |chunks[i]|)
  {
    hide Digits, BytesBits, CodesBits, EncodeSymbol, Fits, NumberOfDigits, BitStreams.BitStream.Sent;
    ghost var b := lzw.bitSize;
    ghost var before := Taken(b, chunks[..i]);
    ghost var digits := Digits(b, BytesBits(chunks[i]));
    assert chunks[..i + 1][..i] == chunks[..i];
    var length := lzw.Write(chunks[i]);
    if chunks[i] != [] {
      if before == [] {
        assert lzw.Compressor() == Encode(b, digits);
      } else {
        EncodeAppend(b, before, digits[..|digits| - 1]);
      }
    }
  }

  method Compress(b: nat, leadingClear: bool, chunks: seq<seq<byte>>) returns (packed: seq<byte>)
    requires InRange(b, chunks) && Taken(b, chunks) != []
    ensures BitStreams.Flushed(StreamBits(b, leadingClear, Taken(b, chunks)), BytesBits(packed))
  {
    hide Taken, NumberOfDigits, BytesBits, CodesBits, Encode, Head, BitStreams.BitStream.Sent, Fits;
    ghost var head := Head(b, leadingClear);
    var lzw := Begin(b, leadingClear);
    assert chunks[..0] == [];
    NothingTaken(b);
    for i := 0 to |chunks|
      invariant fresh(lzw) && fresh(lzw.bits) && fresh(lzw.bits.stream) && lzw.bitSize == b
      invariant Encoded(lzw, Taken(b, chunks[..i]), head)
      invariant |lzw.table| <= TotalDigits(b, chunks[..i])
    {
      assert chunks[..i + 1][..i] == chunks[..i];
      TotalDigitsPrefix(b, chunks, i + 1);
      Continue(lzw, chunks, i, head);
    }
    assert chunks[..|chunks|] == chunks;
    WidthLimit(b, lzw.ioBits, |lzw.table|);
    lzw.Flush();
    packed := lzw.bits.stream.data;
    assert lzw.bits.stream.Behind() == packed;
  }

  lemma NothingTaken(b: nat)
    requires 1 <= b <= 8
    ensures Taken(b, []) == []
  {
  }

  /** A fresh decompressor on a buffer. `prefix` is what its unset field happens to hold. */
  method Decompress(b: nat, packed: seq<byte>, length: nat) returns (r: LzwRead, eos: bool, ghost prefix: nat)
    requires 1 <= b <= 8 && forall p: nat :: Narrow(b, NewDecoder(b, p), BytesBits(packed))
    ensures length == 0 ==> r == Data([])
    ensures length > 0 ==>
              && Returns(b, DecodeBits(b, NewDecoder(b, prefix), BytesBits(packed)), length, r)
              && (r.Data? ==> eos)
  {
    hide BytesBits, DecodeBits, Narrow, Pow2, Returns;
    var store := new MemoryStream(packed, true);
    var lzw := new LzwStream(store, b);
    assert store.Ahead() == packed;
    prefix := lzw.readPrefix;
    assert lzw.Decompressor() == NewDecoder(b, prefix);
    r := lzw.Read(length);
    eos := lzw.isEof;
  }

  // ----- bounds -----

  lemma {:induction false} TableSize(b: nat, symbols: seq<nat>)
    requires symbols != []
    ensures |Encode(b, symbols).table| < |symbols|
    decreases |symbols|
  {
    hide Find, Pow2;
    if |symbols| == 1 {
      assert symbols[1..] == [];
    } else {
      TableSize(b, symbols[..|symbols| - 1]);
      EncodeSnoc(b, symbols);
    }
  }

  lemma {:induction false} TakenSize(b: nat, chunks: seq<seq<byte>>)
    requires 1 <= b <= 8
    ensures |Taken(b, chunks)| <= TotalDigits(b, chunks)
  {
    hide Digits, NumberOfDigits, BytesBits;
    if chunks != [] {
      TakenSize(b, chunks[..|chunks| - 1]);
      DigitsOfBytes(b, chunks[|chunks| - 1]);
    }
  }

  /** Whatever holds a byte holds enough symbols. */
  lemma {:induction false} TakenEnough(b: nat, chunks: seq<seq<byte>>)
    requires 1 <= b <= 8
    ensures Taken(b, chunks) == [] <==> Concat(chunks) == []
    ensures Concat(chunks) != [] ==> b * (|Taken(b, chunks)| + 1) > 8
  {
    hide Digits, BytesBits;
    if chunks != [] {
      var chunk := chunks[|chunks| - 1];
      var before := Taken(b, chunks[..|chunks| - 1]);
      TakenEnough(b, chunks[..|chunks| - 1]);
      DigitsOfBytes(b, chunk);
      if chunk != [] {
        var q, r := Euclid(|chunk| * 8, b);
        if before == [] {
          assert b * (q + 1) == q * b + b;
        } else {
          assert b * (|before| + q - 1 + 1) == b * (|before| + 1) + b * (q - 1);
        }
      }
    }
  }

  lemma FinalWidthBounds(b: nat, symbols: seq<nat>)
    requires 1 <= b <= 8 && symbols != [] && Symbols(b, symbols) && Start(b) + |symbols| < LIMIT
    ensures b < FinalWidth(b, symbols) <= 31
  {
    FinalWidthAbove(b, symbols);
    TableSize(b, symbols);
    EncodeOk(b, symbols);
    WidthLimit(b, Encode(b, symbols).ioBits, |Encode(b, symbols).table|);
  }

  // ----- bytes as eight-bit symbols -----

  ghost function Numbers(bytes: seq<byte>): (n: seq<nat>)
    ensures |n| == |bytes|
  {
    seq(|bytes|, i requires 0 <= i < |bytes| => bytes[i] as nat)
  }

  lemma {:induction false} ByteDigits(bytes: seq<byte>)
    ensures Digits(8, BytesBits(bytes)) == Numbers(bytes)
  {
    hide ByteBits, FromBits, Pow2;
    if bytes != [] {
      ByteDigits(bytes[1..]);
      BytesBitsSplit(bytes);
      ByteFromBits(bytes[0]);
      assert Numbers(bytes) == [bytes[0] as nat] + Numbers(bytes[1..]);
    }
  }

  lemma {:induction false} ByteSymbols(bytes: seq<byte>)
    ensures SymbolBits(8, Numbers(bytes)) == BytesBits(bytes)
  {
    hide ToBits, Pow2;
    if bytes != [] {
      var n := |bytes| - 1;
      ByteSymbols(bytes[..n]);
      assert Numbers(bytes)[..n] == Numbers(bytes[..n]);
      assert bytes == bytes[..n] + [bytes[n]];
      BytesBitsAppend(bytes[..n], [bytes[n]]);
      BytesBitsOne(bytes[n]);
    }
  }

  lemma {:induction false} ByteTaken(chunks: seq<seq<byte>>)
    ensures Taken(8, chunks) == Numbers(Kept(chunks))
  {
    hide Digits, BytesBits;
    if chunks != [] {
      var chunk := chunks[|chunks| - 1];
      ByteTaken(chunks[..|chunks| - 1]);
      ByteDigits(chunk);
    }
  }

  lemma WholeBytesExact(bytes: seq<byte>, whole: seq<byte>)
    requires WholeBytes(bytes, BytesBits(whole))
    ensures bytes == whole
  {
    BytesBitsInjective(bytes, whole);
  }

  lemma {:induction false} KeptBounds(chunks: seq<seq<byte>>)
    ensures |Kept(chunks)| <= |Concat(chunks)|
    ensures Kept(chunks) == [] <==> Concat(chunks) == []
  {
    if chunks != [] {
      KeptBounds(chunks[..|chunks| - 1]);
    }
  }

  ghost function NonEmpty(chunks: seq<seq<byte>>): nat {
    if chunks == [] then 0
    else NonEmpty(chunks[..|chunks| - 1]) + if chunks[|chunks| - 1] == [] then 0 else 1
  }

  /** The codec is transparent for a run of writes exactly when at most one of them carries
      data: each further one costs a byte. */
  lemma {:induction false} TransparentIff(chunks: seq<seq<byte>>)
    ensures NonEmpty(chunks) == 0 <==> Concat(chunks) == []
    ensures |Kept(chunks)| + NonEmpty(chunks) == |Concat(chunks)| + if Concat(chunks) == [] then 0 else 1
    ensures Kept(chunks) == Concat(chunks) <==> NonEmpty(chunks) <= 1
  {
    if chunks != [] {
      var before := chunks[..|chunks| - 1];
      TransparentIff(before);
      KeptBounds(before);
      assert Concat(before) == [] ==> Concat(chunks) == chunks[|chunks| - 1];
    }
  }

  // ----- any symbol size -----

  lemma {:induction false} DigitsSpell(b: nat, bits: seq<bool>)
    requires b >= 1
    ensures SymbolBits(b, Digits(b, bits)) == bits[..|bits| - |bits| % b]
    decreases |bits|
  {
    hide ToBits, FromBits;
    if |bits| >= b {
      DigitsSpell(b, bits[b..]);
      var head, rest := [FromBits(bits[..b])], Digits(b, bits[b..]);
      SymbolBitsAppend(b, head, rest);
      SymbolBitsSnoc(b, [], head[0]);
      assert [] + head == head && SymbolBits(b, []) == [];
      ToFromBits(bits[..b]);
      RestSame(|bits|, b);
    } else {
      SmallMod(|bits|, b);
    }
  }

  lemma RestSame(n: nat, b: nat)
    requires 1 <= b <= n
    ensures n % b == (n - b) % b <= n - b
  {
    var q, r := Euclid(n - b, b);
    var k, s := Euclid(n, b);
    assert (q + 1) * b == q * b + b;
    DivisionUnique(b, q + 1, r, k, s);
  }

  // ----- round trips -----

  /** What a request gets from a stream of some symbols. */
  ghost predicate Delivers(b: nat, symbols: seq<nat>, ending: Ending, length: nat, r: LzwRead) {
    var out := if ending.Adds? then symbols + ending.more else symbols;
    if length == 0 then r == Data([])
    else if ending.Hangs? || !Fit(b, out, length) then r == Spins
    else if ending.Throws? then r == OutOfRange
    else r.Data? && WholeBytes(r.buffer, SymbolBits(b, out))
  }

  /** Any run of writes at two to eight bits, a flush, and one read by a fresh decompressor. */
  method RoundTrip(b: nat, chunks: seq<seq<byte>>, leadingClear: bool, length: nat)
    returns (r: LzwRead, eos: bool)
    requires 2 <= b && InRange(b, chunks) && Concat(chunks) != []
    ensures var symbols := Taken(b, chunks);
            && symbols != [] && Symbols(b, symbols)
            && Delivers(b, symbols, StreamEnding(b, leadingClear, symbols), length, r)
    ensures length > 0 && r.Data? ==> eos
  {
    hide Taken, BytesBits, SymbolBits, StreamBits, FinalWidth, TotalDigits, Pow2, Narrow, DecodeBits;
    hide StreamEnding, WholeBytes, Fit;
    ghost var symbols := Taken(b, chunks);
    TakenEnough(b, chunks);
    TakenFit(b, chunks);
    TakenSize(b, chunks);
    FinalWidthBounds(b, symbols);
    var packed := Compress(b, leadingClear, chunks);
    forall p: nat
      ensures Narrow(b, NewDecoder(b, p), BytesBits(packed))
      ensures EndsAs(DecodeBits(b, NewDecoder(b, p), BytesBits(packed)), symbols,
                     StreamEnding(b, leadingClear, symbols))
    {
      StreamDecodes(b, leadingClear, symbols, p, BytesBits(packed));
    }
    ghost var prefix;
    r, eos, prefix := Decompress(b, packed, length);
  }

  /** With symbols of seven or eight bits the padding is always shorter than a code. */
  lemma WidePaddingQuiet(b: nat, leadingClear: bool, symbols: seq<nat>)
    requires 7 <= b <= 8 && symbols != [] && Symbols(b, symbols)
    ensures StreamEnding(b, leadingClear, symbols) == Adds([])
  {
    hide StreamBits, FinalWidth;
    FinalWidthAbove(b, symbols);
  }

  /** Any run of writes with eight-bit symbols, flushed and read back by a fresh decompressor:
      all bytes of the first write come back, and all but the last of every later one. */
  method ByteRoundTrip(chunks: seq<seq<byte>>, leadingClear: bool, length: nat) returns (back: seq<byte>, eos: bool)
    requires InRange(8, chunks) && Concat(chunks) != [] && length >= |Kept(chunks)|
    ensures back == Kept(chunks) && eos
  {
    hide Taken, BytesBits, SymbolBits, StreamBits, TotalDigits, Numbers, Pow2, StreamEnding, WholeBytes;
    KeptBounds(chunks);
    ByteTaken(chunks);
    ByteSymbols(Kept(chunks));
    var r;
    r, eos := RoundTrip(8, chunks, leadingClear, length);
    ghost var symbols := Numbers(Kept(chunks));
    WidePaddingQuiet(8, leadingClear, symbols);
    assert symbols + [] == symbols;
    back := r.buffer;
    WholeBytesExact(back, Kept(chunks));
  }

  /** The bits of the data behind its last whole symbol. */
  ghost function Rest(b: nat, data: seq<byte>): (rest: seq<bool>)
    requires b >= 1
  {
    BytesBits(data)[8 * |data| - 8 * |data| % b..]
  }

  /** The extra symbols happen to supply the bits that were cut off, and not another byte. */
  ghost predicate Completes(b: nat, data: seq<byte>, more: seq<nat>)
    requires b >= 1
  {
    Rest(b, data) <= SymbolBits(b, more) && |SymbolBits(b, more)| < |Rest(b, data)| + 8
  }

  /** One write at any symbol size and how it comes back. The read throws exactly when the
      padding spells a code past the next free one. */
  method AnySizeRoundTrip(b: nat, data: seq<byte>, leadingClear: bool, length: nat)
    returns (r: LzwRead, eos: bool)
    requires 2 <= b <= 8 && data != [] && InRange(b, [data]) && length >= |data|
    ensures var symbols := Digits(b, BytesBits(data));
            && symbols != [] && Symbols(b, symbols)
            && var ending := StreamEnding(b, leadingClear, symbols);
               && (r == OutOfRange <==> ending.Throws?)
               && (r == Data(data) <==> ending.Adds? && Completes(b, data, ending.more))
               && (8 * |data| % b == 0 ==> (r == Data(data) <==> ending.Adds? && b * |ending.more| < 8))
               && (ending == Adds([]) ==> r == Data(data[..(8 * |data| - 8 * |data| % b) / 8]))
    ensures r.Data? ==> eos
  {
    hide BytesBits, SymbolBits, StreamBits, Digits, Pow2, StreamEnding, WholeBytes, Completes, Taken;
    ghost var symbols := Digits(b, BytesBits(data));
    OneChunk(b, data);
    r, eos := RoundTrip(b, [data], leadingClear, length);
    BackAsWritten(b, data, StreamEnding(b, leadingClear, symbols), length, r);
  }

  lemma OneChunk(b: nat, data: seq<byte>)
    requires 1 <= b <= 8 && data != []
    ensures Taken(b, [data]) == Digits(b, BytesBits(data)) && Concat([data]) == data
  {
    assert [data][..0] == [];
  }

  lemma BackAsWritten(b: nat, data: seq<byte>, ending: Ending, length: nat, r: LzwRead)
    requires 2 <= b <= 8 && data != [] && length >= |data|
    requires Delivers(b, Digits(b, BytesBits(data)), ending, length, r)
    ensures r == OutOfRange <==> ending.Throws?
    ensures r == Data(data) <==> ending.Adds? && Completes(b, data, ending.more)
    ensures 8 * |data| % b == 0 ==> (r == Data(data) <==> ending.Adds? && b * |ending.more| < 8)
    ensures ending == Adds([]) ==> r == Data(data[..(8 * |data| - 8 * |data| % b) / 8])
  {
    hide BytesBits, SymbolBits, Digits, WholeBytes, Completes, Rest;
    var bits, symbols, n := BytesBits(data), Digits(b, BytesBits(data)), 8 * |data| - 8 * |data| % b;
    DigitsSpell(b, bits);
    if ending.Adds? {
      var x := SymbolBits(b, ending.more);
      SymbolBitsAppend(b, symbols, ending.more);
      SymbolBitsLength(b, ending.more);
      RestBits(b, data, ending.more);
      if Completes(b, data, ending.more) {
        WholeBytesUnique(r.buffer, data, bits[..n] + x);
      }
      if ending.more == [] {
        assert bits[..n] + x == bits[..n];
        WholePrefix(r.buffer, data, n);
      }
    }
  }

  lemma RestBits(b: nat, data: seq<byte>, more: seq<nat>)
    requires b >= 1
    ensures var bits, n, x := BytesBits(data), 8 * |data| - 8 * |data| % b, SymbolBits(b, more);
            && (Completes(b, data, more) <==> WholeBytes(data, bits[..n] + x))
            && (Completes(b, data, more) ==> |bits[..n] + x| < 8 * |data| + 8)
            && (8 * |data| % b == 0 ==> (Completes(b, data, more) <==> |x| < 8))
  {
    hide SymbolBits, BytesBits;
    var r := 8 * |data| % b;
    RestShort(8 * |data|, b);
    PrefixRest(BytesBits(data), 8 * |data| - r, SymbolBits(b, more));
  }

  lemma RestShort(n: nat, b: nat)
    requires b >= 1
    ensures n % b <= n
  {
    var q, r := Euclid(n, b);
  }

  lemma PrefixRest(bits: seq<bool>, n: nat, x: seq<bool>)
    requires n <= |bits|
    ensures bits <= bits[..n] + x <==> bits[n..] <= x
  {
    var rest := bits[n..];
    assert bits == bits[..n] + rest;
    if bits <= bits[..n] + x {
      assert rest == (bits[..n] + x)[n..][..|rest|];
      assert (bits[..n] + x)[n..] == x;
    }
    if rest <= x {
      assert x == rest + x[|rest|..];
      assert bits[..n] + x == bits + x[|rest|..];
    }
  }

  lemma WholeBytesUnique(bytes: seq<byte>, others: seq<byte>, bits: seq<bool>)
    requires WholeBytes(bytes, bits) && WholeBytes(others, bits)
    ensures bytes == others
  {
    hide BytesBits;
    BytesBitsInjective(bytes, others);
  }

  lemma {:induction false} SymbolBitsLength(b: nat, symbols: seq<nat>)
    ensures |SymbolBits(b, symbols)| == b * |symbols|
  {
    if symbols != [] {
      SymbolBitsLength(b, symbols[..|symbols| - 1]);
      assert b * |symbols| == b * (|symbols| - 1) + b;
    }
  }

  lemma WholePrefix(bytes: seq<byte>, data: seq<byte>, n: nat)
    requires n <= 8 * |data| && WholeBytes(bytes, BytesBits(data)[..n])
    ensures bytes == data[..n / 8]
  {
    hide BytesBits;
    PrefixOfPrefix(BytesBits(bytes), BytesBits(data), n);
    BytesBitsPrefix(data, |bytes|);
    BytesBitsInjective(bytes, data[..|bytes|]);
  }

  lemma PrefixOfPrefix(a: seq<bool>, x: seq<bool>, n: nat)
    requires n <= |x| && a <= x[..n]
    ensures |a| <= n && a == x[..|a|]
  {
  }

  // ----- several writes -----

  /** A stream whose padding adds nothing gives all the data back exactly when at most one
      write carries any and the symbols cut it evenly. */
  lemma QuietIff(b: nat, chunks: seq<seq<byte>>, bytes: seq<byte>)
    requires 1 <= b <= 8 && Concat(chunks) != [] && WholeBytes(bytes, SymbolBits(b, Taken(b, chunks)))
    ensures bytes == Concat(chunks) <==> NonEmpty(chunks) <= 1 && 8 * |Concat(chunks)| % b == 0
  {
    hide BytesBits, SymbolBits, Taken, Digits, WholeBytes;
    var data := Concat(chunks);
    BitsTaken(b, chunks);
    if NonEmpty(chunks) <= 1 {
      DigitsSpell(b, BytesBits(data));
      RestShort(8 * |data|, b);
      WholePrefix(bytes, data, 8 * |data| - 8 * |data| % b);
    } else {
      SymbolBitsLength(b, Taken(b, chunks));
      WholeLength(bytes, SymbolBits(b, Taken(b, chunks)));
      ProductLess(b, |Taken(b, chunks)|, |Taken(b, chunks)| + NonEmpty(chunks) - 1);
    }
  }

  lemma ProductLess(b: nat, x: nat, y: nat)
    requires b >= 1 && x < y
    ensures b * x < b * y
  {
  }

  lemma WholeLength(bytes: seq<byte>, bits: seq<bool>)
    requires WholeBytes(bytes, bits)
    ensures 8 * |bytes| <= |bits|
  {
  }

  /** Every further write costs a symbol. */
  lemma {:induction false} BitsTaken(b: nat, chunks: seq<seq<byte>>)
    requires 1 <= b <= 8
    ensures NonEmpty(chunks) == 0 <==> Concat(chunks) == []
    ensures NonEmpty(chunks) <= 1 ==> Taken(b, chunks) == Digits(b, BytesBits(Concat(chunks)))
    ensures Concat(chunks) != [] ==> b * (|Taken(b, chunks)| + NonEmpty(chunks) - 1) <= 8 * |Concat(chunks)|
  {
    hide BytesBits, Digits;
    NoDigits(b);
    if chunks != [] {
      var n := |chunks| - 1;
      var chunk, before := chunks[n], chunks[..n];
      BitsTaken(b, before);
      TakenEnough(b, before);
      DigitsOfBytes(b, chunk);
      if chunk == [] {
        assert Concat(before) + [] == Concat(before);
      } else {
        var q, r := Euclid(|chunk| * 8, b);
        assert Concat(before) == [] ==> Concat(chunks) == chunk;
        if Concat(before) != [] {
          Distributes(b, |Taken(b, before)| + NonEmpty(before) - 1, q);
        } else {
          Distributes(b, 0, q);
        }
      }
    }
  }

  lemma Distributes(b: int, x: int, q: int)
    ensures b * (x + q) == b * x + q * b
  {
  }

  lemma NoDigits(b: nat)
    requires b >= 1
    ensures Digits(b, BytesBits([])) == []
  {
  }

  // ----- one more code in the padding -----

  /** At four bits the byte 0x28 is the symbols 8 and 2. The padding of its stream repeats bits
      that spell the code of the table's one entry, and the byte comes back twice. */
  lemma TwiceExample(b: nat, data: seq<byte>)
    requires b == 4 && data == [0x28]
    ensures Digits(b, BytesBits(data)) == [8, 2]
    ensures Symbols(b, [8, 2]) && StreamEnding(b, false, [8, 2]) == Adds([8, 2])
  {
    hide StreamBits, Encode, FinalWidth, ToBits, FromBits, ExtraCode, Digits;
    TwiceDigits(b, data);
    TwiceEncoder(b);
    TwiceBits(b);
    assert Pow2(4) == 16;
    var f, bits := false, StreamBits(b, false, [8, 2]);
    assert BitStreams.FlushBits(bits) == [f, true, f, f, true, f];
    assert [f, true, f, f, true, f][..5] == [f, true, f, f, true];
    TwiceCode(b, [f]);
  }

  lemma TwiceDigits(b: nat, data: seq<byte>)
    requires b == 4 && data == [0x28]
    ensures Digits(b, BytesBits(data)) == [8, 2]
  {
    hide ToBits, FromBits;
    assert Pow2(4) == 16;
    FromToBitsFits(8, 4);
    FromToBitsFits(2, 4);
    TwiceByte();
    assert data[1..] == [] && BytesBits(data) == ByteBits(0x28);
    FirstDigit(b, ToBits(8, 4), ToBits(2, 4));
    LastDigit(b, ToBits(2, 4));
  }

  lemma TwiceByte()
    ensures ByteBits(0x28) == ToBits(8, 4) + ToBits(2, 4)
  {
  }

  lemma FirstDigit(b: nat, first: seq<bool>, rest: seq<bool>)
    requires |first| == b >= 1
    ensures Digits(b, first + rest) == [FromBits(first)] + Digits(b, rest)
  {
    assert (first + rest)[..b] == first && (first + rest)[b..] == rest;
  }

  lemma LastDigit(b: nat, last: seq<bool>)
    requires |last| == b >= 1
    ensures Digits(b, last) == [FromBits(last)]
  {
    assert last[..b] == last && last[b..] == [];
    assert Digits(b, last) == [FromBits(last)] + [];
  }

  lemma TwiceEncoder(b: nat)
    requires b == 4
    ensures Encode(b, [8, 2]) == Encoder([Entry(8, 2)], 5, 2, [Code(8, 5)])
    ensures FinalWidth(b, [8, 2]) == 5
  {
    EncodeSnoc(b, [8, 2]);
    assert [8, 2][..1] == [8] && [8][1..] == [];
    assert Pow2(4) == 16 && Pow2(5) == 32;
  }

  lemma TwiceBits(b: nat)
    requires b == 4
    ensures StreamBits(b, false, [8, 2]) == [false, false, false, true, false, false, true, false, false, false]
  {
    hide Encode, CodesBits;
    TwiceEncoder(b);
    var c0, c1 := Code(8, 5), Code(2, 5);
    assert Finish(Encode(b, [8, 2])) == [c0] + [c1];
    TwiceCodes(c0, c1);
  }

  lemma TwiceCodes(c0: Code, c1: Code)
    requires c0 == Code(8, 5) && c1 == Code(2, 5)
    ensures CodesBits([c0] + [c1]) == [false, false, false, true, false, false, true, false, false, false]
  {
    CodesBitsSnoc([], c0);
    CodesBitsSnoc([c0], c1);
    assert [] + [c0] == [c0];
    assert ToBits(8, 5) == [false, false, false, true, false];
    assert ToBits(2, 5) == [false, true, false, false, false];
  }

  lemma TwiceCode(b: nat, rest: seq<bool>)
    requires b == 4 && EncoderOk(b, Encoder([Entry(8, 2)], 5, 2, [Code(8, 5)]))
    ensures ExtraCode(b, Encoder([Entry(8, 2)], 5, 2, [Code(8, 5)]), FromBits([false, true, false, false, true]), rest)
         == Adds([8, 2])
  {
    assert Pow2(4) == 16 && Pow2(5) == 32;
    assert ToBits(18, 5) == [false, true, false, false, true];
    FromToBitsFits(18, 5);
    assert Expand(b, [Entry(8, 2)], 8) == [8];
  }

  /** At two bits the byte 0x2A is the symbols 2, 2, 2 and 0. Its padding spells a code past the
      next free one, and reading it throws. */
  lemma ThrowsExample(b: nat, data: seq<byte>)
    requires b == 2 && data == [0x2A]
    ensures Digits(b, BytesBits(data)) == [2, 2, 2, 0]
    ensures Symbols(b, [2, 2, 2, 0]) && StreamEnding(b, false, [2, 2, 2, 0]) == Throws
  {
    hide StreamBits, Encode, FinalWidth, ToBits, FromBits, Digits;
    ThrowsDigits(b, data);
    ThrowsEncoder(b);
    ThrowsBits(b);
    assert Pow2(2) == 4;
    var f, t, bits := false, true, StreamBits(b, false, [2, 2, 2, 0]);
    assert BitStreams.FlushBits(bits) == [t, f, f, t, t, f, f];
    assert [t, f, f, t, t, f, f][..4] == [t, f, f, t];
    NineInBits();
  }

  lemma ThrowsDigits(b: nat, data: seq<byte>)
    requires b == 2 && data == [0x2A]
    ensures Digits(b, BytesBits(data)) == [2, 2, 2, 0]
  {
    hide ToBits, FromBits;
    assert Pow2(2) == 4;
    FromToBitsFits(2, 2);
    FromToBitsFits(0, 2);
    var two, zero := ToBits(2, 2), ToBits(0, 2);
    ThrowsByte();
    assert data[1..] == [] && BytesBits(data) == ByteBits(0x2A);
    FirstDigit(b, two, two + (two + zero));
    FirstDigit(b, two, two + zero);
    FirstDigit(b, two, zero);
    LastDigit(b, zero);
  }

  lemma ThrowsByte()
    ensures ByteBits(0x2A) == ToBits(2, 2) + (ToBits(2, 2) + (ToBits(2, 2) + ToBits(0, 2)))
  {
  }

  lemma NineInBits()
    ensures FromBits([true, false, false, true]) == 9
  {
    assert Pow2(4) == 16;
    assert ToBits(9, 4) == [true, false, false, true];
    FromToBitsFits(9, 4);
  }

  lemma ThrowsEncoder(b: nat)
    requires b == 2
    ensures Encode(b, [2, 2, 2, 0]) == Encoder([Entry(2, 2), Entry(6, 0)], 3, 0, [Code(2, 3), Code(6, 3)])
    ensures FinalWidth(b, [2, 2, 2, 0]) == 4
  {
    hide EncodeSymbol;
    var s: seq<nat> := [2, 2, 2, 0];
    EncodeSnoc(b, s);
    EncodeSnoc(b, s[..3]);
    EncodeSnoc(b, s[..2]);
    assert s[..3][..2] == s[..2] && s[..2][..1] == [2] && [2][1..] == [];
    assert Encode(b, [2]) == NewEncoder(b, 2);
    ThrowsSteps(b);
    assert Pow2(2) == 4 && Pow2(3) == 8;
  }

  lemma ThrowsSteps(b: nat)
    requires b == 2
    ensures var e := Encoder([Entry(2, 2)], 3, 2, [Code(2, 3)]);
            && EncodeSymbol(b, NewEncoder(b, 2), 2) == e
            && EncodeSymbol(b, e, 2) == e.(prefix := 6)
            && EncodeSymbol(b, e.(prefix := 6), 0)
            == Encoder([Entry(2, 2), Entry(6, 0)], 3, 0, [Code(2, 3), Code(6, 3)])
  {
    assert Pow2(2) == 4 && Pow2(3) == 8;
    assert [Entry(2, 2)][1..] == [];
  }

  lemma ThrowsBits(b: nat)
    requires b == 2
    ensures StreamBits(b, false, [2, 2, 2, 0]) == [false, true, false, false, true, true, false, false, false]
  {
    hide Encode, CodesBits;
    ThrowsEncoder(b);
    var c0, c1, c2 := Code(2, 3), Code(6, 3), Code(0, 3);
    assert Finish(Encode(b, [2, 2, 2, 0])) == [c0] + [c1] + [c2];
    ThrowsCodes(c0, c1, c2);
  }

  lemma ThrowsCodes(c0: Code, c1: Code, c2: Code)
    requires c0 == Code(2, 3) && c1 == Code(6, 3) && c2 == Code(0, 3)
    ensures CodesBits([c0] + [c1] + [c2]) == [false, true, false, false, true, true, false, false, false]
  {
    CodesBitsSnoc([], c0);
    CodesBitsSnoc([c0], c1);
    CodesBitsSnoc([c0] + [c1], c2);
    assert [] + [c0] == [c0];
    assert ToBits(2, 3) == [false, true, false] && ToBits(6, 3) == [false, true, true];
    assert ToBits(0, 3) == [false, false, false];
  }
}

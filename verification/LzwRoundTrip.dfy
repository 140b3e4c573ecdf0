/** From codes to bits: the round trip of a whole stream, and the one bit size at which the
    two machines change their width at different codes. */
module LzwRoundTrip {
  import opened Bits
  import opened LzwCodes
  import opened LzwProofs

  ghost function CodesBits(codes: seq<Code>): seq<bool> {
    if codes == [] then []
    else CodesBits(codes[..|codes| - 1]) + ToBits(codes[|codes| - 1].number, codes[|codes| - 1].width)
  }

  lemma CodesBitsSnoc(codes: seq<Code>, last: Code)
    ensures CodesBits(codes + [last]) == CodesBits(codes) + ToBits(last.number, last.width)
  {
    assert (codes + [last])[..|codes|] == codes;
  }

  ghost predicate NoBitLost(codes: seq<Code>) {
    forall i :: 0 <= i < |codes| ==> codes[i].number < Pow2(codes[i].width)
  }

  lemma DecodeStep(b: nat, d: Decoder, bits: seq<bool>, rest: seq<bool>)
    requires Sound(b, d) && |bits| == d.ioBits && DecodeCode(b, d, FromBits(bits)).More?
    ensures DecodeBits(b, d, bits + rest) == DecodeBits(b, DecodeCode(b, d, FromBits(bits)).d, rest)
  {
    assert (bits + rest)[..d.ioBits] == bits && (bits + rest)[d.ioBits..] == rest;
  }

  lemma DecodeOne(b: nat, d: Decoder, code: Code, rest: seq<bool>)
    requires Sound(b, d) && d.ioBits == code.width && code.number < Pow2(code.width)
    requires DecodeCode(b, d, code.number).More?
    ensures DecodeBits(b, d, ToBits(code.number, code.width) + rest)
         == DecodeBits(b, DecodeCode(b, d, code.number).d, rest)
  {
    FromToBitsFits(code.number, code.width);
    DecodeStep(b, d, ToBits(code.number, code.width), rest);
  }

  /** A decompressor that keeps the compressor's widths reads the codes back off the bits. */
  lemma {:induction false} Transport(b: nat, d: Decoder, codes: seq<Code>, rest: seq<bool>)
    requires Sound(b, d) && Follow(b, d, codes).Ahead? && NoBitLost(codes)
    ensures DecodeBits(b, d, CodesBits(codes) + rest) == DecodeBits(b, Follow(b, d, codes).d, rest)
  {
    hide DecodeCode, ToBits, Pow2;
    if codes == [] {
      assert CodesBits(codes) + rest == rest;
    } else {
      var n := |codes| - 1;
      var last := codes[n];
      var bits := ToBits(last.number, last.width);
      Transport(b, d, codes[..n], bits + rest);
      assert CodesBits(codes) + rest == CodesBits(codes[..n]) + (bits + rest);
      DecodeOne(b, Follow(b, d, codes[..n]).d, last, rest);
    }
  }

  /** The width the decompressor waits at when the flushed stream is over. */
  function FinalWidth(b: nat, symbols: seq<nat>): nat
    requires symbols != []
  {
    var e := Encode(b, symbols);
    if |e.table| + Start(b) == Pow2(e.ioBits) then e.ioBits + 1 else e.ioBits
  }

  lemma NarrowOne(b: nat, d: Decoder, code: Code, rest: seq<bool>)
    requires Sound(b, d) && d.ioBits == code.width <= 32 && code.number < Pow2(code.width)
    requires DecodeCode(b, d, code.number).More? && Narrow(b, DecodeCode(b, d, code.number).d, rest)
    ensures Narrow(b, d, ToBits(code.number, code.width) + rest)
  {
    var bits := ToBits(code.number, code.width);
    FromToBitsFits(code.number, code.width);
    assert (bits + rest)[..code.width] == bits && (bits + rest)[code.width..] == rest;
  }

  lemma {:induction false} TransportNarrow(b: nat, d: Decoder, codes: seq<Code>, rest: seq<bool>)
    requires Sound(b, d) && Follow(b, d, codes).Ahead? && NoBitLost(codes)
    requires forall i :: 0 <= i < |codes| ==> codes[i].width <= 32
    requires Narrow(b, Follow(b, d, codes).d, rest)
    ensures Narrow(b, d, CodesBits(codes) + rest)
  {
    hide DecodeCode, ToBits, Pow2, Narrow;
    if codes == [] {
      assert CodesBits(codes) + rest == rest;
    } else {
      var n := |codes| - 1;
      var last := codes[n];
      var bits := ToBits(last.number, last.width);
      NarrowOne(b, Follow(b, d, codes[..n]).d, last, rest);
      assert CodesBits(codes) + rest == CodesBits(codes[..n]) + (bits + rest);
      TransportNarrow(b, d, codes[..n], bits + rest);
    }
  }

  /** Having read the flushed stream the decompressor has written exactly the input and holds
      the compressor's table. */
  lemma FollowFinish(b: nat, symbols: seq<nat>, prefix: nat)
    requires b >= 2 && symbols != [] && Symbols(b, symbols)
    ensures var e, f := Encode(b, symbols), Follow(b, NewDecoder(b, prefix), Finish(Encode(b, symbols)));
            && f.Ahead? && f.d.out == symbols && f.d.table == e.table && f.d.prefix == e.prefix
            && !f.d.first && f.d.ioBits == FinalWidth(b, symbols)
  {
    Lag(b, symbols, prefix);
    var e := Encode(b, symbols);
    var d := Follow(b, NewDecoder(b, prefix), e.sent).d;
    FollowPrefix(b, e, d, symbols);
    FollowSnoc(b, NewDecoder(b, prefix), e.sent, Code(e.prefix, e.ioBits));
  }

  /** The decompressor after the flushed stream of some symbols. */
  ghost function Caught(b: nat, symbols: seq<nat>, prefix: nat): (d: Decoder)
    requires b >= 2 && symbols != [] && Symbols(b, symbols)
    ensures Sound(b, d) && !d.first && d.out == symbols && d.ioBits == FinalWidth(b, symbols)
    ensures d.table == Encode(b, symbols).table && d.prefix == Encode(b, symbols).prefix
  {
    FollowFinish(b, symbols, prefix);
    Follow(b, NewDecoder(b, prefix), Finish(Encode(b, symbols))).d
  }

  lemma FinalWidthAbove(b: nat, symbols: seq<nat>)
    requires b >= 1 && symbols != [] && Symbols(b, symbols)
    ensures FinalWidth(b, symbols) > b
  {
    EncodeOk(b, symbols);
    WidthAbove(b, Encode(b, symbols).ioBits, |Encode(b, symbols).table|);
  }

  lemma WidthAbove(b: nat, ioBits: nat, size: nat)
    requires Fits(b, ioBits, size)
    ensures ioBits > b
  {
    if ioBits < b {
      Pow2Strict(ioBits, b);
    }
  }

  /** The symbol round trip: decoding the flushed bits gives back the symbols, then goes on
      with whatever bits follow; fewer bits than a code end the stream. */
  lemma SymbolRoundTrip(b: nat, symbols: seq<nat>, prefix: nat, padding: seq<bool>)
    requires b >= 2 && symbols != [] && Symbols(b, symbols)
    ensures var d := Caught(b, symbols, prefix);
            var r := DecodeBits(b, NewDecoder(b, prefix), CodesBits(Finish(Encode(b, symbols))) + padding);
            && r == DecodeBits(b, d, padding)
            && (|padding| < d.ioBits ==> r == Done(d))
  {
    hide DecodeCode, NewDecoder, Follow, CodesBits;
    NewDecoderSound(b, prefix);
    var codes := Finish(Encode(b, symbols));
    EncodeOk(b, symbols);
    FollowFinish(b, symbols, prefix);
    Transport(b, NewDecoder(b, prefix), codes, padding);
  }

  /** Less than a byte cannot widen the codes far. */
  lemma {:induction false} ShortNarrow(b: nat, d: Decoder, bits: seq<bool>)
    requires Sound(b, d) && d.ioBits <= 32 && b <= 31 && |bits| < 32
    ensures Narrow(b, d, bits)
    decreases |bits|
  {
    hide Expand, Root, FromBits, Pow2;
    if d.ioBits <= |bits| {
      var o := DecodeCode(b, d, FromBits(bits[..d.ioBits]));
      if o.More? {
        ShortNarrow(b, o.d, bits[d.ioBits..]);
      }
    }
  }

  lemma StreamNarrow(b: nat, symbols: seq<nat>, prefix: nat, padding: seq<bool>)
    requires 2 <= b <= 31 && symbols != [] && Symbols(b, symbols)
    requires |padding| < 32 && FinalWidth(b, symbols) <= 32
    ensures Narrow(b, NewDecoder(b, prefix), CodesBits(Finish(Encode(b, symbols))) + padding)
  {
    hide DecodeCode, Follow, CodesBits, Encode;
    var d, codes := NewDecoder(b, prefix), Finish(Encode(b, symbols));
    EncodeOk(b, symbols);
    FollowFinish(b, symbols, prefix);
    ShortNarrow(b, Caught(b, symbols, prefix), padding);
    TransportNarrow(b, d, codes, padding);
  }

  /** A leading clear code changes nothing. */
  lemma LeadingClear(b: nat, prefix: nat, rest: seq<bool>)
    ensures DecodeBits(b, NewDecoder(b, prefix), ToBits(Clear(b), b + 1) + rest)
         == DecodeBits(b, NewDecoder(b, prefix), rest)
  {
    assert Pow2(b) < Pow2(b + 1);
    DecodeOne(b, NewDecoder(b, prefix), Code(Clear(b), b + 1), rest);
  }

  lemma LeadingClearNarrow(b: nat, prefix: nat, rest: seq<bool>)
    requires b <= 31 && Narrow(b, NewDecoder(b, prefix), rest)
    ensures Narrow(b, NewDecoder(b, prefix), ToBits(Clear(b), b + 1) + rest)
  {
    assert Pow2(b) < Pow2(b + 1);
    NarrowOne(b, NewDecoder(b, prefix), Code(Clear(b), b + 1), rest);
  }

  // ----- one-bit symbols -----

  lemma {:induction false} MisreadStays(b: nat, d: Decoder, codes: seq<Code>, n: nat)
    requires Sound(b, d) && n <= |codes| && Follow(b, d, codes[..n]).Misread?
    ensures Follow(b, d, codes).Misread?
    decreases |codes|
  {
    if n == |codes| {
      assert codes[..n] == codes;
    } else {
      assert codes[..|codes| - 1][..n] == codes[..n];
      MisreadStays(b, d, codes[..|codes| - 1], n);
    }
  }

  /** With one-bit symbols the width is already used up: the first entry widens the second code. */
  lemma {:induction false} OneBitWidths(symbols: seq<nat>)
    requires |symbols| >= 2 && Symbols(1, symbols)
    ensures var codes := Finish(Encode(1, symbols));
            |codes| >= 2 && codes[0] == Code(symbols[0], 2) && codes[1].width == 3
  {
    var n := |symbols| - 1;
    EncodeSnoc(1, symbols);
    assert Start(1) == 4 && Pow2(2) == 4;
    if n == 1 {
      assert symbols[..1][1..] == [];
    } else {
      OneBitWidths(symbols[..n]);
      var e := Encode(1, symbols[..n]);
      if |e.sent| >= 2 {
        assert Finish(e)[1] == e.sent[1];
      }
    }
  }

  /** The two machines agree on every width exactly when symbols have two bits or more, or
      there is just one. */
  lemma WidthsAgree(b: nat, symbols: seq<nat>, prefix: nat)
    requires b >= 1 && symbols != [] && Symbols(b, symbols)
    ensures Follow(b, NewDecoder(b, prefix), Finish(Encode(b, symbols))).Ahead?
       <==> b >= 2 || |symbols| == 1
  {
    var d, codes := NewDecoder(b, prefix), Finish(Encode(b, symbols));
    if b >= 2 {
      FollowFinish(b, symbols, prefix);
    } else if |symbols| == 1 {
      assert codes == [] + [Code(symbols[0], 2)];
      FollowSnoc(b, d, [], Code(symbols[0], 2));
    } else {
      OneBitWidths(symbols);
      assert codes[..1] == [] + [codes[0]];
      FollowSnoc(b, d, [], codes[0]);
      assert codes[..2][..1] == codes[..1];
      MisreadStays(b, d, codes, 2);
    }
  }
}

/** How a stream of two to eight bits ends: the padding of its last byte is read like any other
    code. */
module LzwEndings {
  import opened Bits
  import opened BitStreams
  import opened LzwCodes
  import opened LzwProofs
  import opened LzwRoundTrip
  import opened LzwParses

  ghost function Head(b: nat, leadingClear: bool): seq<bool> {
    if leadingClear then ToBits(Clear(b), b + 1) else []
  }

  ghost function StreamBits(b: nat, leadingClear: bool, symbols: seq<nat>): seq<bool>
    requires symbols != []
  {
    Head(b, leadingClear) + CodesBits(Finish(Encode(b, symbols)))
  }

  /** What reading the padding does: it adds symbols, throws, or never ends. */
  datatype Ending = Adds(more: seq<nat>) | Throws | Hangs

  /** The first code of a table. Past the literals it builds on the prefix left from before. */
  function AfterClear(b: nat, stale: nat, code: nat): Ending {
    if code < Pow2(b) then Adds([code])
    else if code < Start(b) then Adds([])
    else if code > Start(b) then Throws
    else if stale < Pow2(b) then Adds([stale, stale])
    else if stale == Start(b) then Hangs
    else Throws
  }

  /** One more code behind a stream that left this compressor behind. */
  ghost function ExtraCode(b: nat, e: Encoder, code: nat, rest: seq<bool>): Ending
    requires EncoderOk(b, e)
  {
    if code == EndOfInformation(b) then Adds([])
    else if code == Clear(b) then
      if |rest| <= b then Adds([]) else AfterClear(b, e.prefix, FromBits(rest[..b + 1]))
    else if code < Start(b) + |e.table| then Adds(Expand(b, e.table, code))
    else if code == Start(b) + |e.table| then
      var last := Expand(b, e.table, e.prefix);
      Adds(last + [last[0]])
    else Throws
  }

  /** Padding shorter than a code is not looked at. */
  ghost function ReadPadding(b: nat, symbols: seq<nat>, padding: seq<bool>): Ending
    requires b >= 1 && symbols != [] && Symbols(b, symbols)
  {
    EncodeOk(b, symbols);
    var w := FinalWidth(b, symbols);
    if |padding| < w then Adds([])
    else ExtraCode(b, Encode(b, symbols), FromBits(padding[..w]), padding[w..])
  }

  /** How the flushed stream of some symbols ends. */
  ghost function StreamEnding(b: nat, leadingClear: bool, symbols: seq<nat>): Ending
    requires b >= 1 && symbols != [] && Symbols(b, symbols)
  {
    ReadPadding(b, symbols, FlushBits(StreamBits(b, leadingClear, symbols)))
  }

  /** The decompressor ended that way, having written `symbols` before. */
  ghost predicate EndsAs(r: Decoded, symbols: seq<nat>, ending: Ending) {
    match ending
    case Adds(more) => r.Done? && r.d.out == symbols + more
    case Throws => r.Failed? && r.d.out == symbols
    case Hangs => r.Hung? && r.d.out == symbols
  }

  lemma DecodeShort(b: nat, d: Decoder, bits: seq<bool>)
    requires Sound(b, d) && |bits| < d.ioBits
    ensures DecodeBits(b, d, bits) == Done(d)
  {
  }

  /** After a clear code at most one more code fits, and only for symbols of two bits. */
  lemma ClearedEnds(b: nat, d: Decoder, rest: seq<bool>)
    requires b >= 2 && Sound(b, d) && d == Decoder([], b + 1, true, d.prefix, d.out)
    requires |rest| <= 3
    ensures |rest| <= b ==> DecodeBits(b, d, rest) == Done(d)
    ensures |rest| > b ==>
              EndsAs(DecodeBits(b, d, rest), d.out, AfterClear(b, d.prefix, FromBits(rest[..b + 1])))
  {
    hide Pow2, FromBits;
    if |rest| > b {
      assert |rest| == b + 1 && rest[..b + 1] == rest && rest[b + 1..] == [];
      var code := FromBits(rest);
      var o := DecodeCode(b, d, code);
      if o.More? {
        StaleExpands(b, d, code);
        DecodeShort(b, o.d, []);
      }
    }
  }

  lemma StaleExpands(b: nat, d: Decoder, code: nat)
    requires Sound(b, d) && d.first && d.table == [] && DecodeCode(b, d, code).More?
    ensures var o := DecodeCode(b, d, code);
            && (code < Pow2(b) ==> o.d.out == d.out + [code])
            && (code == Clear(b) ==> o.d.out == d.out)
            && (code == Start(b) ==> d.prefix < Pow2(b) && o.d.out == d.out + [d.prefix, d.prefix])
  {
    if code == Start(b) {
      var grown := [] + [Entry(d.prefix, d.prefix)];
      assert Expand(b, grown, d.prefix) == [d.prefix];
      assert [d.prefix] + [d.prefix] == [d.prefix, d.prefix];
    }
  }

  lemma OneCodeEnds(b: nat, d: Decoder, e: Encoder, bits: seq<bool>)
    requires b >= 2 && Sound(b, d) && !d.first && EncoderOk(b, e)
    requires d.table == e.table && d.prefix == e.prefix
    requires d.ioBits <= |bits| < 2 * d.ioBits && FromBits(bits[..d.ioBits]) != Clear(b)
    ensures EndsAs(DecodeBits(b, d, bits), d.out,
                   ExtraCode(b, e, FromBits(bits[..d.ioBits]), bits[d.ioBits..]))
  {
    hide Pow2, Expand, FromBits;
    var code, rest := FromBits(bits[..d.ioBits]), bits[d.ioBits..];
    var o := DecodeCode(b, d, code);
    if o.More? {
      DecodeShort(b, o.d, rest);
      if code == Start(b) + |d.table| {
        NewEntryExpands(b, d);
      }
    }
  }

  lemma NewEntryExpands(b: nat, d: Decoder)
    requires Sound(b, d) && IsCode(b, d.prefix, |d.table|)
    ensures var code, last := Start(b) + |d.table|, Expand(b, d.table, d.prefix);
            DecodeCode(b, d, code).More? && DecodeCode(b, d, code).d.out == d.out + (last + [last[0]])
  {
    hide Pow2, Expand;
    var code := Start(b) + |d.table|;
    var entry := Entry(d.prefix, Root(b, d.table, d.prefix));
    var o := DecodeCode(b, d, code);
    assert o.d.table == d.table + [entry];
    ExpandStable(b, d.table, entry, d.prefix);
    HitExpands(b, o.d.table, |d.table|);
  }

  /** The padding read by a decompressor that has caught up with the compressor. */
  lemma PaddingEnds(b: nat, symbols: seq<nat>, prefix: nat, padding: seq<bool>)
    requires b >= 2 && symbols != [] && Symbols(b, symbols)
    requires |padding| <= 7 && FinalWidth(b, symbols) >= 4
    ensures EndsAs(DecodeBits(b, Caught(b, symbols, prefix), padding), symbols, ReadPadding(b, symbols, padding))
  {
    hide Encode, FinalWidth, Pow2, FromBits, Expand;
    var d := Caught(b, symbols, prefix);
    FollowFinish(b, symbols, prefix);
    EncodeOk(b, symbols);
    if |padding| >= d.ioBits {
      var code, rest := FromBits(padding[..d.ioBits]), padding[d.ioBits..];
      if code == Clear(b) {
        ClearedEnds(b, Decoder([], b + 1, true, d.prefix, d.out), rest);
      } else {
        OneCodeEnds(b, d, Encode(b, symbols), padding);
      }
    }
  }

  // ----- streams of whole bytes -----

  lemma {:induction false} BitsAtLeast(codes: seq<Code>, w: nat)
    requires forall i :: 0 <= i < |codes| ==> codes[i].width >= w
    ensures |CodesBits(codes)| >= w * |codes|
  {
    if codes != [] {
      BitsAtLeast(codes[..|codes| - 1], w);
      assert w * |codes| == w * (|codes| - 1) + w;
    }
  }

  /** A small table has not seen many symbols. */
  lemma FewSymbols(b: nat, symbols: seq<nat>)
    requires b >= 1 && symbols != [] && Symbols(b, symbols)
    ensures |Encode(b, symbols).table| == 0 ==> |symbols| == 1
    ensures |Encode(b, symbols).table| == 1 ==> |symbols| <= 3
  {
    hide Encode, Places;
    EncodeOk(b, symbols);
    ParsesInPhrases(b, symbols);
    var c, p := Numbers(Finish(Encode(b, symbols))), Places(b, symbols) + [|symbols|];
    assert Names(b, symbols, c, p, 0);
    if |c| == 2 {
      assert Names(b, symbols, c, p, 1);
    }
  }

  /** The codes behind the symbols of a byte have four bits or more. */
  lemma FourBits(b: nat, symbols: seq<nat>)
    requires b >= 2 && symbols != [] && Symbols(b, symbols) && b * (|symbols| + 1) > 8
    ensures FinalWidth(b, symbols) >= 4
  {
    hide Encode, Pow2;
    var e := Encode(b, symbols);
    EncodeOk(b, symbols);
    FewSymbols(b, symbols);
    FinalWidthAbove(b, symbols);
    if b == 2 {
      WidthGrows(b, e.ioBits, |e.table|);
      NineCodes(FinalWidth(b, symbols), |e.table|);
    }
  }

  lemma StreamLength(b: nat, symbols: seq<nat>)
    requires b >= 1 && symbols != [] && Symbols(b, symbols)
    ensures |CodesBits(Finish(Encode(b, symbols)))| >= (b + 1) * (|Encode(b, symbols).table| + 1)
  {
    hide Encode, Pow2, CodesBits;
    EncodeOk(b, symbols);
    WidthsLeast(b, symbols);
    var codes := Finish(Encode(b, symbols));
    forall i | 0 <= i < |codes|
      ensures codes[i].width >= b + 1
    {
      WidthAbove(b, codes[i].width, i);
    }
    BitsAtLeast(codes, b + 1);
  }

  /** Padding depends on older bits only when it can be read. */
  lemma UnsetPadding(b: nat, leadingClear: bool, symbols: seq<nat>)
    requires 2 <= b <= 8 && symbols != [] && Symbols(b, symbols) && b * (|symbols| + 1) > 8
    ensures var n := |StreamBits(b, leadingClear, symbols)|;
            n < 8 ==> Unused(n) < FinalWidth(b, symbols)
  {
    hide Encode, Pow2, CodesBits, FinalWidth;
    FewSymbols(b, symbols);
    FinalWidthAbove(b, symbols);
    StreamLength(b, symbols);
    var size := |Encode(b, symbols).table|;
    if b == 2 {
      assert (b + 1) * (size + 1) == 3 * (size + 1) >= 9;
    } else if b == 3 {
      assert (b + 1) * (size + 1) == 4 * (size + 1) >= 8;
    } else {
      ProductAtLeast(b + 1, size + 1);
    }
  }

  lemma ProductAtLeast(x: nat, y: nat)
    requires y >= 1
    ensures x * y >= x
  {
  }

  lemma NineCodes(w: nat, size: nat)
    requires Fits(2, w, size + 1) && size >= 2
    ensures w >= 4
  {
    assert Pow2(3) == 8;
    if w < 3 {
      Pow2Strict(w, 3);
    }
  }

  /** A flushed stream decodes to its symbols and ends as its padding says. */
  lemma StreamDecodes(b: nat, leadingClear: bool, symbols: seq<nat>, prefix: nat, all: seq<bool>)
    requires 2 <= b <= 8 && symbols != [] && Symbols(b, symbols) && b * (|symbols| + 1) > 8
    requires Flushed(StreamBits(b, leadingClear, symbols), all) && FinalWidth(b, symbols) <= 32
    ensures Narrow(b, NewDecoder(b, prefix), all)
    ensures EndsAs(DecodeBits(b, NewDecoder(b, prefix), all), symbols, StreamEnding(b, leadingClear, symbols))
  {
    hide CodesBits, Encode, FinalWidth, DecodeBits, DecodeCode, Narrow, ToBits, Pow2, EndsAs, ExtraCode;
    var stream := StreamBits(b, leadingClear, symbols);
    var codes := CodesBits(Finish(Encode(b, symbols)));
    var padding := all[|stream|..];
    FourBits(b, symbols);
    UnsetPadding(b, leadingClear, symbols);
    PaddingEnds(b, symbols, prefix, padding);
    assert all == stream + padding;
    assert |stream| >= 8 ==> padding == FlushBits(stream);
    assert ReadPadding(b, symbols, padding) == StreamEnding(b, leadingClear, symbols);
    SymbolRoundTrip(b, symbols, prefix, padding);
    StreamNarrow(b, symbols, prefix, padding);
    if leadingClear {
      LeadingClear(b, prefix, codes + padding);
      LeadingClearNarrow(b, prefix, codes + padding);
      assert all == ToBits(Clear(b), b + 1) + (codes + padding);
    } else {
      assert all == codes + padding;
    }
  }
}

/** Whole runs with one-bit symbols. The symbol size stays a parameter `b`, which is one throughout. */
module LzwOneBitRuns {
  import opened Bits
  import opened Common
  import opened LzwCodes
  import opened LzwProofs
  import opened LzwRoundTrip
  import opened LzwEndings
  import opened LzwParses
  import opened LzwOneBits
  import opened LzwSurvivors
  import opened LzwStreams
  import opened LzwRuns

  lemma {:induction false} OneBitSymbols(b: nat, x: seq<nat>, i: nat)
    requires b == 1 && Symbols(b, x) && i < |x|
    ensures |SymbolBits(b, x)| == |x| && SymbolBits(b, x)[i] == (x[i] == 1)
  {
    OneBitCodes(b);
    SymbolBitsLength(b, x);
    var n := |x| - 1;
    SymbolBitsLength(b, x[..n]);
    if i < n {
      OneBitSymbols(b, x[..n], i);
    }
  }

  /** Symbols start others exactly when their bits do. */
  lemma PrefixOfSymbols(b: nat, x: seq<nat>, y: seq<nat>)
    requires b == 1 && Symbols(b, x) && Symbols(b, y)
    ensures |SymbolBits(b, x)| == |x| && |SymbolBits(b, y)| == |y|
    ensures SymbolBits(b, x) <= SymbolBits(b, y) <==> x <= y
  {
    hide SymbolBits;
    OneBitCodes(b);
    SymbolBitsLength(b, x);
    SymbolBitsLength(b, y);
    var u, v := SymbolBits(b, x), SymbolBits(b, y);
    forall i | 0 <= i < |x|
      ensures u[i] == (x[i] == 1)
    {
      OneBitSymbols(b, x, i);
    }
    forall i | 0 <= i < |y|
      ensures v[i] == (y[i] == 1)
    {
      OneBitSymbols(b, y, i);
    }
    if u <= v {
      assert forall i :: 0 <= i < |x| ==> v[i] == u[i];
    }
  }

  lemma {:induction false} TokensAreBits(b: nat, bits: seq<bool>)
    requires b == 1
    ensures Symbols(b, Tokens(bits))
    decreases |bits|
  {
    OneBitCodes(b);
    if |bits| >= 2 {
      TokensAreBits(b, bits[2..]);
    }
  }

  /** The data comes back exactly when its symbols are what the pairs of the stream spell. */
  lemma BackIff(b: nat, data: seq<byte>, out: seq<nat>, length: nat, d: Decoder, r: LzwRead)
    requires b == 1 && Symbols(b, out) && length >= |data|
    requires d.out == out && Returns(b, Done(d), length, r)
    ensures var s := Digits(b, BytesBits(data));
            Symbols(b, s) && |s| == 8 * |data| && (r == Data(data) <==> s <= out && |out| < |s| + 8)
  {
    hide SymbolBits, BytesBits, Digits, WholeBytes;
    var s := Digits(b, BytesBits(data));
    DigitsFit(b, BytesBits(data));
    DigitsSpell(b, BytesBits(data));
    assert BytesBits(data)[..8 * |data|] == BytesBits(data);
    PrefixOfSymbols(b, s, out);
    WholeIff(data, SymbolBits(b, out));
    if r.Data? && WholeBytes(data, SymbolBits(b, out)) {
      WholeBytesUnique(r.buffer, data, SymbolBits(b, out));
    }
  }

  lemma WholeIff(data: seq<byte>, bits: seq<bool>)
    ensures WholeBytes(data, bits) <==> BytesBits(data) <= bits && |bits| < 8 * |data| + 8
  {
  }

  lemma SurvivorByte(b: nat, data: seq<byte>)
    requires b == 1
    ensures Digits(b, BytesBits(data)) == [0, 1, 0, 1, 1, 0, 0, 0] <==> data == [0x1A]
  {
    hide Digits, BytesBits, ToBits, SymbolBits;
    var s := [0, 1, 0, 1, 1, 0, 0, 0];
    TheByte(b);
    DigitsSpell(b, BytesBits(data));
    assert BytesBits(data)[..8 * |data|] == BytesBits(data);
    if Digits(b, BytesBits(data)) == s {
      BytesBitsInjective(data, [0x1A]);
    }
    if data == [0x1A] {
      DigitsFit(b, BytesBits(data));
      OneBitCodes(b);
      assert Symbols(b, s);
      PrefixOfSymbols(b, s, Digits(b, BytesBits(data)));
    }
  }

  lemma TheByte(b: nat)
    requires b == 1
    ensures SymbolBits(b, [0, 1, 0, 1, 1, 0, 0, 0]) == BytesBits([0x1A])
  {
    OneBitCodes(b);
    var s: seq<nat> := [0, 1, 0, 1, 1, 0, 0, 0];
    var f := false;
    assert Symbols(b, s);
    forall i | 0 <= i < |s|
      ensures |SymbolBits(b, s)| == 8 && SymbolBits(b, s)[i] == (s[i] == 1)
    {
      OneBitSymbols(b, s, i);
    }
    assert SymbolBits(b, s) == [f, true, f, true, true, f, f, f];
    BytesBitsOne(0x1A);
    assert ByteBits(0x1A) == [f, true, f, true, true, f, f, f];
  }

  /** One write of one-bit symbols, a flush, and one read by a fresh decompressor: of all data
      only the byte 0x1A comes back. */
  method OneBitRoundTrip(b: nat, data: seq<byte>, leadingClear: bool, length: nat)
    returns (r: LzwRead, eos: bool)
    requires b == 1 && data != [] && InRange(b, [data]) && length >= |data|
    ensures r == Data(data) <==> data == [0x1A]
    ensures data == [0] ==> r == Data([])
    ensures r != OutOfRange && (r.Data? ==> eos)
  {
    hide BytesBits, SymbolBits, StreamBits, Digits, Pow2, Tokens, Flows, Narrow, DecodeBits;
    hide Head, Taken, Places, Encode, WholeBytes;
    ghost var s := Digits(b, BytesBits(data));
    OneChunk(b, data);
    TakenEnough(b, [data]);
    TakenFit(b, [data]);
    var packed := Compress(b, leadingClear, [data]);
    ghost var head, all := Head(b, leadingClear), BytesBits(packed);
    StreamFlows(b, leadingClear, s, all);
    ghost var v := all[|head|..];
    HeadSplits(b, leadingClear, s, all);
    forall p: nat
      ensures Narrow(b, NewDecoder(b, p), all)
      ensures DecodeBits(b, NewDecoder(b, p), all).Done? && DecodeBits(b, NewDecoder(b, p), all).d.out == Tokens(v)
    {
      HeadThenTokens(b, leadingClear, p, v);
    }
    ghost var prefix;
    r, eos, prefix := Decompress(b, packed, length);
    TokensAreBits(b, v);
    ghost var d := DecodeBits(b, NewDecoder(b, prefix), all).d;
    BackIff(b, data, Tokens(v), length, d, r);
    Decided(b, data, Finish(Encode(b, s)), Places(b, s) + [|s|], |head|, v);
    if data == [0] {
      ZeroBack(b, data, Tokens(v), length, d, r);
    }
  }

  lemma HeadSplits(b: nat, leadingClear: bool, s: seq<nat>, all: seq<bool>)
    requires s != [] && StreamBits(b, leadingClear, s) <= all
    ensures |Head(b, leadingClear)| <= |all|
    ensures all == Head(b, leadingClear) + all[|Head(b, leadingClear)|..]
  {
    hide CodesBits, Encode;
    var head := Head(b, leadingClear);
    assert head == StreamBits(b, leadingClear, s)[..|head|];
  }

  lemma Decided(b: nat, data: seq<byte>, codes: seq<Code>, p: seq<nat>, head: nat, v: seq<bool>)
    requires b == 1 && |Digits(b, BytesBits(data))| == 8 * |data|
    requires Flows(b, Digits(b, BytesBits(data)), codes, p, head, v)
    ensures var s := Digits(b, BytesBits(data));
            s <= Tokens(v) && |Tokens(v)| < |s| + 8 <==> data == [0x1A]
    ensures data == [0] ==> Tokens(v) == [0, 0]
  {
    hide BytesBits, Digits, Tokens, Flows;
    var s := Digits(b, BytesBits(data));
    SurvivorByte(b, data);
    if s <= Tokens(v) {
      OnlySurvivor(b, s, codes, p, head, v);
    }
    if data == [0x1A] {
      Survives(b, s, codes, p, head, v);
    }
    if data == [0] {
      ZeroByte(b);
      ZeroLost(b, s, codes, p, head, v);
    }
  }

  lemma {:induction false} ZeroDigits(b: nat, n: nat)
    requires b == 1
    ensures Digits(b, seq(n, _ => false)) == seq(n, _ => 0)
    decreases n
  {
    if n > 0 {
      ZeroDigits(b, n - 1);
      var bits := seq(n, _ => false);
      assert bits[..1] == [false] && bits[1..] == seq(n - 1, _ => false);
      assert FromBits([false]) == 0 by {
        assert [false][1..] == [];
      }
    }
  }

  lemma ZeroByte(b: nat)
    requires b == 1
    ensures Digits(b, BytesBits([0])) == [0, 0, 0, 0, 0, 0, 0, 0]
  {
    hide Digits;
    BytesBitsOne(0);
    assert ByteBits(0) == seq(8, _ => false);
    ZeroDigits(b, 8);
    assert seq(8, _ => 0) == [0, 0, 0, 0, 0, 0, 0, 0];
  }

  lemma ZeroBack(b: nat, data: seq<byte>, out: seq<nat>, length: nat, d: Decoder, r: LzwRead)
    requires b == 1 && data == [0] && length >= 1 && out == [0, 0]
    requires d.out == out && Returns(b, Done(d), length, r)
    ensures r == Data([])
  {
    hide SymbolBits, BytesBits;
    SymbolBitsLength(b, out);
    assert |BytesBits(r.buffer)| < 8;
  }
}

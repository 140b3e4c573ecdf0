/** One-bit symbols. The decompressor never leaves its first width, while the compressor widens
    after the first code; exactly one buffer survives. */
module LzwOneBits {
  import opened Bits
  import opened BitStreams
  import opened LzwCodes
  import opened LzwProofs
  import opened LzwRoundTrip
  import opened LzwParses
  import opened LzwEndings
  import opened LzwPuzzles

  // ----- the decompressor: pairs of bits -----

  ghost function Bit(on: bool): nat {
    if on then 1 else 0
  }

  /** A pair whose high bit is clear is a symbol; 01 clears the table, 11 ends the stream. */
  ghost function Tokens(bits: seq<bool>): seq<nat> {
    if |bits| < 2 then []
    else if !bits[1] then [Bit(bits[0])] + Tokens(bits[2..])
    else if bits[0] then []
    else Tokens(bits[2..])
  }

  lemma TwoBits(bits: seq<bool>)
    requires |bits| == 2
    ensures FromBits(bits) == Bit(bits[0]) + 2 * Bit(bits[1])
  {
    assert bits[1..][1..] == [];
    assert FromBits(bits[1..]) == Bit(bits[1]);
  }

  lemma OneBitCodes(b: nat)
    requires b == 1
    ensures Pow2(b) == 2 && Start(b) == 4
  {
  }

  /** One pair of bits at width two. */
  lemma PairDecodes(b: nat, d: Decoder, code: nat)
    requires b == 1 && Sound(b, d) && d.ioBits == 2 && code < 4
    ensures code < 2 ==> DecodeCode(b, d, code).More? && DecodeCode(b, d, code).d.out == d.out + [code]
    ensures code == 2 ==> DecodeCode(b, d, code).More? && DecodeCode(b, d, code).d.out == d.out
    ensures code == 3 ==> DecodeCode(b, d, code) == End(d)
    ensures code < 3 ==> DecodeCode(b, d, code).d.ioBits == 2
  {
    OneBitCodes(b);
    assert Pow2(2) == 4;
    if code < 2 {
      LiteralExpands(b, d.table, code);
    }
  }

  /** At one bit decoding is `Tokens`, whatever the codes were. */
  lemma {:induction false} DecodesTokens(b: nat, d: Decoder, bits: seq<bool>)
    requires b == 1 && Sound(b, d) && d.ioBits == 2
    ensures DecodeBits(b, d, bits).Done? && DecodeBits(b, d, bits).d.out == d.out + Tokens(bits)
    ensures Narrow(b, d, bits)
    decreases |bits|
  {
    hide DecodeCode, FromBits, Pow2;
    if |bits| >= 2 {
      var code := FromBits(bits[..2]);
      TwoBits(bits[..2]);
      PairDecodes(b, d, code);
      var o := DecodeCode(b, d, code);
      if o.More? {
        DecodesTokens(b, o.d, bits[2..]);
        assert code < 2 ==> (d.out + [code]) + Tokens(bits[2..]) == d.out + ([code] + Tokens(bits[2..]));
      }
    }
  }

  // ----- pairs by position -----

  /** How many of the first `j` pairs have their high bit set. */
  ghost function Highs(bits: seq<bool>, j: nat): (n: nat)
    requires 2 * j <= |bits|
    ensures n <= j
  {
    if j == 0 then 0 else Highs(bits, j - 1) + Bit(bits[2 * j - 1])
  }

  /** The first `j` pairs account for `j - Highs(bits, j)` symbols, unless the stream has ended. */
  lemma {:induction false} SkipPairs(bits: seq<bool>, j: nat)
    requires 2 * j <= |bits|
    ensures var n := j - Highs(bits, j);
            |Tokens(bits)| <= n || Tokens(bits)[n..] == Tokens(bits[2 * j..])
  {
    if j == 0 {
      assert bits[0..] == bits && Tokens(bits)[0..] == Tokens(bits);
    } else {
      SkipPairs(bits, j - 1);
      var rest, n := bits[2 * j - 2..], j - 1 - Highs(bits, j - 1);
      assert rest[2..] == bits[2 * j..];
      if |Tokens(bits)| > n && !rest[1] {
        assert Tokens(bits)[n + 1..] == Tokens(bits)[n..][1..];
      }
    }
  }

  ghost function HighsList(bits: seq<bool>): (h: seq<nat>)
    ensures |h| == |bits| / 2 + 1
  {
    seq(|bits| / 2 + 1, j requires 0 <= j <= |bits| / 2 => Highs(bits, j))
  }

  lemma HighsListAt(bits: seq<bool>, j: nat)
    requires 2 * j + 1 < |bits|
    ensures HighsList(bits)[j] == Highs(bits, j)
    ensures HighsList(bits)[j + 1] == Highs(bits, j) + if bits[2 * j + 1] then 1 else 0
  {
  }

  lemma PairsFit(s: seq<nat>, bits: seq<bool>, j: nat)
    requires s <= Tokens(bits) && 2 * j + 1 < |bits|
    ensures PairFits(s, bits, HighsList(bits), j)
  {
    hide Tokens, Highs, HighsList;
    HighsListAt(bits, j);
    SkipPairs(bits, j);
    var n, rest := j - Highs(bits, j), bits[2 * j..];
    if n < |s| {
      assert Tokens(bits)[n..][0] == s[n];
      FirstToken(rest);
    }
  }

  lemma FirstToken(bits: seq<bool>)
    requires Tokens(bits) != [] && |bits| >= 2
    ensures if bits[1] then !bits[0] else Tokens(bits)[0] == Bit(bits[0])
  {
  }

  lemma TokenCount(bits: seq<bool>)
    ensures |Tokens(bits)| + Highs(bits, |bits| / 2) <= |bits| / 2
  {
    SkipPairs(bits, |bits| / 2);
  }

  lemma {:induction false} HighsGrow(bits: seq<bool>, i: nat, j: nat)
    requires i <= j && 2 * j <= |bits|
    ensures Highs(bits, i) <= Highs(bits, j)
    decreases j
  {
    if i < j {
      HighsGrow(bits, i, j - 1);
    }
  }
}

/** Counting one-bit streams: distinct phrases cannot all be short, and codes need ever more bits. */
module LzwCounts {
  import opened Bits
  import opened BitStreams
  import opened LzwCodes
  import opened LzwProofs
  import opened LzwRoundTrip
  import opened LzwParses
  import opened LzwOneBits

  // ----- words as numbers -----

  /** A word of zeros and ones as a number, with a one in front. */
  ghost function Number(w: seq<nat>): (n: nat)
    ensures n >= 1
  {
    if w == [] then 1 else 2 * Number(w[..|w| - 1]) + if w[|w| - 1] == 0 then 0 else 1
  }

  lemma {:induction false} NumberInjective(b: nat, u: seq<nat>, v: seq<nat>)
    requires b == 1 && Symbols(b, u) && Symbols(b, v) && Number(u) == Number(v)
    ensures u == v
  {
    hide Pow2;
    OneBitCodes(b);
    if u != [] && v != [] {
      var m, n := |u| - 1, |v| - 1;
      assert Number(u) == 2 * Number(u[..m]) + u[m];
      assert Number(v) == 2 * Number(v[..n]) + v[n];
      NumberInjective(b, u[..m], v[..n]);
      assert u == u[..m] + [u[m]] && v == v[..n] + [v[n]];
    }
  }

  ghost function Log(n: nat): nat
    requires n >= 1
  {
    if n == 1 then 0 else 1 + Log(n / 2)
  }

  lemma {:induction false} LogNumber(w: seq<nat>)
    ensures Log(Number(w)) == |w|
  {
    if w != [] {
      LogNumber(w[..|w| - 1]);
    }
  }

  lemma {:induction false} LogRange(n: nat)
    requires n >= 1
    ensures Pow2(Log(n)) <= n < Pow2(Log(n) + 1)
  {
    if n > 1 {
      LogRange(n / 2);
    }
  }

  lemma LogIs(n: nat, f: nat)
    requires n >= 1 && Pow2(f) <= n < Pow2(f + 1)
    ensures Log(n) == f
  {
    LogRange(n);
    if Log(n) < f {
      PowMonotone(Log(n) + 1, f);
    } else if Log(n) > f {
      PowMonotone(f + 1, Log(n));
    }
  }

  lemma PowMonotone(a: nat, b: nat)
    requires a <= b
    ensures Pow2(a) <= Pow2(b)
  {
    if a < b {
      Pow2Strict(a, b);
    }
  }

  lemma {:induction false} LogMonotone(m: nat, n: nat)
    requires 1 <= m <= n
    ensures Log(m) <= Log(n)
  {
    if m > 1 {
      LogMonotone(m / 2, n / 2);
    }
  }

  // ----- the shortest distinct words -----

  /** The total length of words with these numbers, each without its last symbol. */
  ghost function Total(v: seq<nat>): nat
    requires forall i :: 0 <= i < |v| ==> v[i] >= 4
  {
    if v == [] then 0 else Total(v[..|v| - 1]) + LogLess(v[|v| - 1])
  }

  ghost function LogLess(n: nat): nat
    requires n >= 4
  {
    LogMonotone(4, n);
    Log(n) - 1
  }

  /** The same for the `n` least numbers. */
  ghost function Least(n: nat): nat {
    if n == 0 then 0 else Least(n - 1) + LogLess(n + 3)
  }

  ghost predicate Different(v: seq<nat>) {
    && (forall i :: 0 <= i < |v| ==> v[i] >= 4)
    && forall i, j :: 0 <= i < j < |v| ==> v[i] != v[j]
  }

  ghost function Without(v: seq<nat>, k: nat): (r: seq<nat>)
    requires k < |v|
    ensures |r| == |v| - 1
  {
    v[..k] + v[k + 1..]
  }

  lemma {:induction false} TotalWithout(v: seq<nat>, k: nat)
    requires Different(v) && k < |v|
    ensures Different(Without(v, k)) && Total(v) == Total(Without(v, k)) + LogLess(v[k])
  {
    hide LogLess;
    var n := |v| - 1;
    var r := Without(v, k);
    if k == n {
      assert r == v[..n];
    } else {
      TotalWithout(v[..n], k);
      assert r[..n - 1] == Without(v[..n], k) && r[n - 1] == v[n];
    }
  }

  lemma {:induction false} Greatest(v: seq<nat>) returns (k: nat)
    requires v != []
    ensures k < |v| && forall i :: 0 <= i < |v| ==> v[i] <= v[k]
  {
    var n := |v| - 1;
    if n == 0 {
      k := 0;
    } else {
      var m := Greatest(v[..n]);
      k := if v[n] > v[m] then n else m;
      assert forall i :: 0 <= i < n ==> v[..n][i] == v[i];
    }
  }

  /** Different numbers from four on reach at least `3 + |v|`, and weigh at least as much as the
      least ones. */
  lemma {:induction false} LeastTotal(v: seq<nat>)
    requires Different(v)
    ensures Total(v) >= Least(|v|)
    ensures v != [] ==> exists i :: 0 <= i < |v| && v[i] >= 3 + |v|
    decreases |v|
  {
    hide LogLess, Total;
    if v != [] {
      var k := Greatest(v);
      var r := Without(v, k);
      TotalWithout(v, k);
      LeastTotal(r);
      if r != [] {
        var i :| 0 <= i < |r| && r[i] >= 3 + |r|;
        assert r[i] == v[if i < k then i else i + 1];
      }
      assert v[k] >= 3 + |v|;
      LogLessMonotone(3 + |v|, v[k]);
    } else {
      TotalNone();
    }
  }

  lemma TotalNone()
    ensures Total([]) == 0
  {
  }

  lemma LogLessMonotone(m: nat, n: nat)
    requires 4 <= m <= n
    ensures LogLess(m) <= LogLess(n)
  {
    LogMonotone(m, n);
  }

  /** The numbers of the phrases up to `n`, each with the symbol behind it. */
  ghost function PhraseNumbers(s: seq<nat>, p: seq<nat>, n: nat): (v: seq<nat>)
    requires Cuts(s, p) && n + 2 <= |p|
    ensures |v| == n
  {
    seq(n, i requires 0 <= i < n => Number(Longer(s, p, i)))
  }

  lemma {:induction false} PhraseTotal(s: seq<nat>, p: seq<nat>, n: nat)
    requires Cuts(s, p) && n + 2 <= |p|
    ensures forall i :: 0 <= i < n ==> PhraseNumbers(s, p, n)[i] >= 4
    ensures Total(PhraseNumbers(s, p, n)) == p[n]
  {
    hide Number, Log;
    var v := PhraseNumbers(s, p, n);
    if n == 0 {
      assert v == [];
    } else {
      PhraseTotal(s, p, n - 1);
      assert v[..n - 1] == PhraseNumbers(s, p, n - 1);
      LogNumber(Longer(s, p, n - 1));
      LongNumber(Longer(s, p, n - 1));
    }
  }

  lemma LongNumber(w: seq<nat>)
    requires |w| >= 2
    ensures Number(w) >= 4
  {
  }

  /** The phrases of one-bit symbols cover at least as much as the shortest distinct ones. */
  lemma PhrasesCover(b: nat, s: seq<nat>, c: seq<nat>, p: seq<nat>)
    requires b == 1 && Phrases(b, s, c, p) && Symbols(b, s)
    ensures |s| > Least(|c| - 1)
  {
    hide Number, Log, Least, Total;
    var t := |c| - 1;
    var v := PhraseNumbers(s, p, t);
    PhraseTotal(s, p, t);
    forall i, j | 0 <= i < j < t
      ensures v[i] != v[j]
    {
      PhrasesDiffer(b, s, c, p, i, j);
      if v[i] == v[j] {
        NumberInjective(b, Longer(s, p, i), Longer(s, p, j));
      }
    }
    LeastTotal(v);
  }

  // ----- widths -----

  /** The widths of the first thirteen codes of one-bit symbols, and where they start. */
  function Width(i: nat): (w: nat)
    ensures 2 <= w <= 4
  {
    if i == 0 then 2 else if i <= 4 then 3 else 4
  }

  function Offset(i: nat): nat {
    if i == 0 then 0 else if i <= 5 then 3 * i - 1 else 4 * i - 6
  }

  lemma WidthIs(b: nat, w: nat, i: nat)
    requires b == 1 && Fits(b, w, i) && i <= 12
    ensures w == Width(i)
  {
    OneBitCodes(b);
    assert Pow2(2) == 4 && Pow2(3) == 8 && Pow2(4) == 16;
    if w < Width(i) {
      PowMonotone(w, Width(i) - 1);
    } else if w > Width(i) {
      PowMonotone(Width(i), w - 1);
    }
  }

  lemma {:induction false} OffsetIs(b: nat, codes: seq<Code>, n: nat)
    requires b == 1 && LeastWidths(b, codes) && n <= |codes| && n <= 13
    ensures |CodesBits(codes[..n])| == Offset(n)
  {
    hide Fits;
    if n > 0 {
      OffsetIs(b, codes, n - 1);
      WidthIs(b, codes[n - 1].width, n - 1);
      assert codes[..n][..n - 1] == codes[..n - 1];
    }
  }

  lemma {:induction false} LeastIs(n: nat)
    requires n <= 13
    ensures Least(n) == if n <= 4 then n else if n <= 12 then 2 * n - 4 else 23
  {
    hide Log;
    if n > 0 {
      LeastIs(n - 1);
      assert Pow2(2) == 4 && Pow2(3) == 8 && Pow2(4) == 16 && Pow2(5) == 32;
      LogIs(n + 3, if n <= 4 then 2 else if n <= 12 then 3 else 4);
    }
  }

  /** From the fourteenth code on, codes need fewer bits than twice the phrases they stand for. */
  lemma {:induction false} LongPhrases(b: nat, codes: seq<Code>, n: nat)
    requires b == 1 && LeastWidths(b, codes) && 13 <= n <= |codes|
    ensures |CodesBits(codes[..n])| + (n - 13) <= 2 * Least(n)
  {
    hide Log, Fits;
    if n == 13 {
      OffsetIs(b, codes, n);
      LeastIs(n);
    } else {
      LongPhrases(b, codes, n - 1);
      assert codes[..n][..n - 1] == codes[..n - 1];
      WidthBelowLog(b, codes[n - 1].width, n - 1);
    }
  }

  lemma WidthBelowLog(b: nat, w: nat, i: nat)
    requires b == 1 && Fits(b, w, i) && i >= 13
    ensures w + 1 <= 2 * LogLess(i + 4)
  {
    OneBitCodes(b);
    LogRange(i + 4);
    var f := Log(i + 4);
    if w > f + 1 {
      PowMonotone(f + 1, w - 1);
    }
    if f < 4 {
      assert Pow2(4) == 16;
      PowMonotone(f + 1, 4);
    }
  }

  // ----- high bits -----

  /** The codes that may set no high bit. */
  predicate Favoured(code: nat) {
    code < 2 || code == 4 || code == 5
  }

  ghost function Uses(c: seq<nat>, n: nat, code: nat): nat
    requires n <= |c|
  {
    if n == 0 then 0 else Uses(c, n - 1, code) + if c[n - 1] == code then 1 else 0
  }

  ghost function FavouredUses(c: seq<nat>, n: nat): nat
    requires n <= |c|
  {
    if n == 0 then 0 else FavouredUses(c, n - 1) + if Favoured(c[n - 1]) then 1 else 0
  }

  lemma {:induction false} FavouredSum(c: seq<nat>, n: nat)
    requires n <= |c|
    ensures FavouredUses(c, n) == Uses(c, n, 0) + Uses(c, n, 1) + Uses(c, n, 4) + Uses(c, n, 5)
  {
    if n > 0 {
      FavouredSum(c, n - 1);
    }
  }

  /** A code followed by a given symbol. */
  ghost predicate Followed(s: seq<nat>, c: seq<nat>, p: seq<nat>, i: nat, code: nat, x: nat)
    requires Cuts(s, p) && |p| == |c| + 1 && i < |c| - 1
  {
    c[i] == code && Follower(s, p, i) == x
  }

  ghost predicate SomeFollowed(s: seq<nat>, c: seq<nat>, p: seq<nat>, n: nat, code: nat, x: nat)
    requires Cuts(s, p) && |p| == |c| + 1 && n <= |c| - 1
  {
    exists i :: 0 <= i < n && Followed(s, c, p, i, code, x)
  }

  lemma {:induction false} UsesTwice(b: nat, s: seq<nat>, c: seq<nat>, p: seq<nat>, n: nat, code: nat)
    requires b == 1 && Phrases(b, s, c, p) && Symbols(b, s) && n <= |c| - 1
    ensures Uses(c, n, code) <= 2
    ensures Uses(c, n, code) >= 1 ==> SomeFollowed(s, c, p, n, code, 0) || SomeFollowed(s, c, p, n, code, 1)
    ensures Uses(c, n, code) == 2 ==> SomeFollowed(s, c, p, n, code, 0) && SomeFollowed(s, c, p, n, code, 1)
  {
    OneBitCodes(b);
    if n > 0 {
      UsesTwice(b, s, c, p, n - 1, code);
      if c[n - 1] == code {
        var y := Follower(s, p, n - 1);
        assert y < 2 && Followed(s, c, p, n - 1, code, y);
        assert !SomeFollowed(s, c, p, n - 1, code, y);
      }
    }
  }

  lemma FavouredFew(b: nat, s: seq<nat>, c: seq<nat>, p: seq<nat>, n: nat)
    requires b == 1 && Phrases(b, s, c, p) && Symbols(b, s) && n <= |c| - 1
    ensures FavouredUses(c, n) <= 8
  {
    FavouredSum(c, n);
    UsesTwice(b, s, c, p, n, 0);
    UsesTwice(b, s, c, p, n, 1);
    UsesTwice(b, s, c, p, n, 4);
    UsesTwice(b, s, c, p, n, 5);
  }

  /** A code of up to four bits as it stands in the stream. */
  ghost function CodeAt(bits: seq<bool>, o: nat, w: nat): nat
    requires o + w <= |bits| && w <= 4
  {
    (if 0 < w then Bit(bits[o]) else 0) + (if 1 < w then 2 * Bit(bits[o + 1]) else 0)
    + (if 2 < w then 4 * Bit(bits[o + 2]) else 0) + (if 3 < w then 8 * Bit(bits[o + 3]) else 0)
  }

  /** The stream starts with the codes, as far as their widths are known. */
  ghost predicate Written(c: seq<nat>, bits: seq<bool>, n: nat)
    requires n <= |c| && n <= 13
  {
    Offset(n) <= |bits| &&
    forall k {:trigger Offset(k)} :: 0 <= k < n ==>
      c[k] == CodeAt(bits, Offset(k), Width(k)) && (c[k] < 2 || 4 <= c[k] < 4 + k)
  }

  /** Every other code sets a high bit. */
  lemma HighCodes(c: seq<nat>, bits: seq<bool>, n: nat)
    requires 5 <= n <= 13 && n <= |c| && Written(c, bits, n)
    ensures Highs(bits, Offset(n) / 2) + FavouredUses(c, n) >= n
  {
    hide CodeAt, Written;
    if n == 5 {
      FirstHighs(c, bits);
    } else {
      WrittenLess(c, bits, n);
      HighCodes(c, bits, n - 1);
      FourBitHighs(c, bits, n - 1);
    }
  }

  lemma WrittenLess(c: seq<nat>, bits: seq<bool>, n: nat)
    requires 1 <= n <= |c| && n <= 13 && Written(c, bits, n)
    ensures Written(c, bits, n - 1)
  {
    hide CodeAt;
    assert Offset(n - 1) <= Offset(n);
    forall k | 0 <= k < n - 1
      ensures c[k] == CodeAt(bits, Offset(k), Width(k)) && (c[k] < 2 || 4 <= c[k] < 4 + k)
    {
    }
  }

  lemma FourBitHighs(c: seq<nat>, bits: seq<bool>, k: nat)
    requires 5 <= k < 13 && k < |c| && Written(c, bits, k + 1)
    ensures Highs(bits, Offset(k) / 2 + 2) >= Highs(bits, Offset(k) / 2) + if Favoured(c[k]) then 0 else 1
  {
    var o := Offset(k);
    assert o == 4 * k - 6;
    assert Highs(bits, o / 2 + 2) == Highs(bits, o / 2) + Bit(bits[o + 1]) + Bit(bits[o + 3]);
  }

  lemma FirstHighs(c: seq<nat>, bits: seq<bool>)
    requires |c| >= 5 && Written(c, bits, 5)
    ensures Highs(bits, 7) + FavouredUses(c, 5) >= 5
  {
    assert Offset(0) == 0 && Offset(1) == 2 && Offset(2) == 5 && Offset(3) == 8 && Offset(4) == 11;
    assert Highs(bits, 3) == Highs(bits, 2) + Bit(bits[5]) && Highs(bits, 4) == Highs(bits, 3) + Bit(bits[7]);
    assert Highs(bits, 5) == Highs(bits, 4) + Bit(bits[9]) && Highs(bits, 6) == Highs(bits, 5) + Bit(bits[11]);
    assert Highs(bits, 7) == Highs(bits, 6) + Bit(bits[13]);
    assert FavouredUses(c, 1) == 1 && FavouredUses(c, 2) == 2 && FavouredUses(c, 3) == 3;
    assert FavouredUses(c, 4) == 3 + if Favoured(c[3]) then 1 else 0;
    assert FavouredUses(c, 5) == FavouredUses(c, 4) + if Favoured(c[4]) then 1 else 0;
  }
}

/** The compressor's output read as a cut of the input into phrases, without its table. */
module LzwParses {
  import opened Bits
  import opened LzwCodes
  import opened LzwProofs
  import opened LzwRoundTrip

  /** Phrase `k` of the input is `s[p[k]..p[k + 1]]`. */
  ghost predicate Cuts(s: seq<nat>, p: seq<nat>) {
    && |p| >= 2 && p[0] == 0 && p[|p| - 1] == |s|
    && forall i, j :: 0 <= i < j < |p| ==> p[i] < p[j]
  }

  /** Phrase `k`, and phrase `k` with the symbol behind it. */
  ghost function Phrase(s: seq<nat>, p: seq<nat>, k: nat): seq<nat>
    requires Cuts(s, p) && k < |p| - 1
  {
    s[p[k]..p[k + 1]]
  }

  ghost function Longer(s: seq<nat>, p: seq<nat>, k: nat): seq<nat>
    requires Cuts(s, p) && k < |p| - 2
  {
    s[p[k]..p[k + 1] + 1]
  }

  /** The symbol behind phrase `k`. */
  ghost function Follower(s: seq<nat>, p: seq<nat>, k: nat): nat
    requires Cuts(s, p) && k < |p| - 2
  {
    s[p[k + 1]]
  }

  /** Code `k` is a symbol, or names an earlier phrase with the symbol behind it. */
  ghost predicate Names(b: nat, s: seq<nat>, c: seq<nat>, p: seq<nat>, k: nat)
    requires Cuts(s, p) && |p| == |c| + 1 && k < |c|
  {
    if c[k] < Pow2(b) then Phrase(s, p, k) == [c[k]]
    else
      var j := c[k] - Start(b);
      0 <= j < k && Phrase(s, p, k) == Longer(s, p, j)
  }

  /** The codes name the phrases, and no code is followed by the same symbol twice. */
  ghost predicate Phrases(b: nat, s: seq<nat>, c: seq<nat>, p: seq<nat>) {
    && Cuts(s, p) && |p| == |c| + 1
    && (forall k :: 0 <= k < |c| ==> Names(b, s, c, p, k))
    && forall i, j :: 0 <= i < j < |c| - 1 && c[i] == c[j] ==> Follower(s, p, i) != Follower(s, p, j)
  }

  ghost function Numbers(codes: seq<Code>): (c: seq<nat>)
    ensures |c| == |codes|
  {
    seq(|codes|, i requires 0 <= i < |codes| => codes[i].number)
  }

  /** Where the phrases of the codes sent so far and of the pending prefix start. */
  ghost function Places(b: nat, s: seq<nat>): (p: seq<nat>)
    requires s != []
    ensures p != []
  {
    if |s| == 1 then [0]
    else
      var n := |s| - 1;
      var before := Places(b, s[..n]);
      if EncodeSymbol(b, Encode(b, s[..n]), s[n]).sent == Encode(b, s[..n]).sent then before else before + [n]
  }

  /** The table's strings found in the input. */
  ghost predicate Located(b: nat, e: Encoder, s: seq<nat>, p: seq<nat>)
    requires EncoderOk(b, e)
  {
    && |p| == |e.sent| + 1 && p[0] == 0
    && (forall i, j :: 0 <= i < j < |p| ==> p[i] < p[j])
    && p[|e.sent|] < |s| && s[p[|e.sent|]..] == Expand(b, e.table, e.prefix)
    && forall k :: 0 <= k < |e.sent| ==>
         s[p[k]..p[k + 1]] == Expand(b, e.table, e.table[k].prefix) && s[p[k + 1]] == e.table[k].value
  }

  lemma LocatedStep(b: nat, e: Encoder, s: seq<nat>, p: seq<nat>, x: nat)
    requires EncoderOk(b, e) && Located(b, e, s, p) && x < Pow2(b)
    ensures var next := EncodeSymbol(b, e, x);
            && EncoderOk(b, next)
            && Located(b, next, s + [x], if next.sent == e.sent then p else p + [|s|])
  {
    hide Distinct, Fits, Expand, Pow2, SentOk, Located;
    EncodeSymbolOk(b, e, x);
    var index := Find(e.table, Entry(e.prefix, x));
    if index < |e.table| {
      HitLocated(b, e, s, p, x, index);
    } else {
      MissLocated(b, e, s, p, x);
    }
  }

  lemma HitLocated(b: nat, e: Encoder, s: seq<nat>, p: seq<nat>, x: nat, index: nat)
    requires EncoderOk(b, e) && Located(b, e, s, p) && index < |e.table|
    requires e.table[index] == Entry(e.prefix, x)
    requires EncoderOk(b, e.(prefix := index + Start(b)))
    ensures Located(b, e.(prefix := index + Start(b)), s + [x], p)
  {
    hide Grounded, Distinct, Fits, Expand, Pow2;
    HitExpands(b, e.table, index);
    var n := |e.sent|;
    assert (s + [x])[p[n]..] == s[p[n]..] + [x];
    forall k | 0 <= k < n
      ensures (s + [x])[p[k]..p[k + 1]] == s[p[k]..p[k + 1]]
    {
    }
  }

  lemma MissLocated(b: nat, e: Encoder, s: seq<nat>, p: seq<nat>, x: nat)
    requires EncoderOk(b, e) && Located(b, e, s, p) && x < Pow2(b)
    requires Find(e.table, Entry(e.prefix, x)) == |e.table| && EncoderOk(b, EncodeSymbol(b, e, x))
    ensures Located(b, EncodeSymbol(b, e, x), s + [x], p + [|s|])
  {
    hide Distinct, Fits, Pow2, Find, SentOk, Expand;
    var next, q, n := EncodeSymbol(b, e, x), p + [|s|], |e.sent|;
    var entry := Entry(e.prefix, x);
    assert (s + [x])[q[n + 1]..] == [x];
    LiteralExpands(b, next.table, x);
    forall k | 0 <= k <= n
      ensures (s + [x])[q[k]..q[k + 1]] == Expand(b, next.table, next.table[k].prefix)
      ensures (s + [x])[q[k + 1]] == next.table[k].value
    {
      ExpandStable(b, e.table, entry, next.table[k].prefix);
      assert (s + [x])[q[k]..q[k + 1]] == s[q[k]..q[k + 1]];
      if k == n {
        assert s[p[n]..|s|] == s[p[n]..];
      }
    }
  }

  lemma {:induction false} PlacesLocate(b: nat, s: seq<nat>)
    requires b >= 1 && s != [] && Symbols(b, s)
    ensures EncoderOk(b, Encode(b, s)) && Located(b, Encode(b, s), s, Places(b, s))
    decreases |s|
  {
    hide EncoderOk, Located, EncodeSymbol;
    var n := |s| - 1;
    if n == 0 {
      FirstLocated(b, s);
    } else {
      PlacesLocate(b, s[..n]);
      EncodeSnoc(b, s);
      LocatedStep(b, Encode(b, s[..n]), s[..n], Places(b, s[..n]), s[n]);
      assert s == s[..n] + [s[n]];
    }
  }

  lemma FirstLocated(b: nat, s: seq<nat>)
    requires b >= 1 && |s| == 1 && Symbols(b, s)
    ensures EncoderOk(b, Encode(b, s)) && Located(b, Encode(b, s), s, [0])
  {
    NewEncoderOk(b, s[0]);
    assert s[1..] == [] && s[0..] == [s[0]];
  }

  lemma LiteralExpands(b: nat, table: Table, x: nat)
    requires Grounded(b, table) && x < Pow2(b)
    ensures Expand(b, table, x) == [x]
  {
  }

  lemma LocatedCuts(b: nat, e: Encoder, s: seq<nat>, q: seq<nat>)
    requires EncoderOk(b, e) && Located(b, e, s, q)
    ensures Cuts(s, q + [|s|])
  {
    hide EncoderOk;
  }

  lemma CodeInUse(b: nat, e: Encoder, k: nat)
    requires EncoderOk(b, e) && k <= |e.sent|
    ensures IsCode(b, Numbers(Finish(e))[k], k)
    ensures k < |e.sent| ==> Numbers(Finish(e))[k] == e.table[k].prefix
    ensures k == |e.sent| ==> Numbers(Finish(e))[k] == e.prefix
  {
    hide Distinct, Fits, Pow2, SentOk;
  }

  lemma PhraseNamed(b: nat, e: Encoder, s: seq<nat>, q: seq<nat>, k: nat)
    requires EncoderOk(b, e) && Located(b, e, s, q) && Cuts(s, q + [|s|]) && k <= |e.sent|
    ensures Names(b, s, Numbers(Finish(e)), q + [|s|], k)
  {
    hide Fits, Distinct, Pow2, SentOk, Expand, Cuts;
    var p, c, n := q + [|s|], Numbers(Finish(e)), |e.sent|;
    CodeInUse(b, e, k);
    assert s[q[n]..|s|] == s[q[n]..];
    assert Phrase(s, p, k) == Expand(b, e.table, c[k]);
    if c[k] < Pow2(b) {
      LiteralExpands(b, e.table, c[k]);
    } else {
      var j := c[k] - Start(b);
      HitExpands(b, e.table, j);
      assert Longer(s, p, j) == s[q[j]..q[j + 1]] + [s[q[j + 1]]];
    }
  }

  /** The flushed codes cut the input into phrases. */
  lemma ParsesInPhrases(b: nat, s: seq<nat>)
    requires b >= 1 && s != [] && Symbols(b, s)
    ensures Phrases(b, s, Numbers(Finish(Encode(b, s))), Places(b, s) + [|s|])
  {
    hide Encode, Places, Cuts, Names, Fits, Grounded, SentOk, Pow2;
    PlacesLocate(b, s);
    var e, p := Encode(b, s), Places(b, s) + [|s|];
    var c := Numbers(Finish(e));
    LocatedCuts(b, e, s, Places(b, s));
    forall k | 0 <= k < |c|
      ensures Names(b, s, c, p, k)
    {
      PhraseNamed(b, e, s, Places(b, s), k);
    }
    forall i, j | 0 <= i < j < |c| - 1 && c[i] == c[j]
      ensures Follower(s, p, i) != Follower(s, p, j)
    {
      CodeInUse(b, e, i);
      CodeInUse(b, e, j);
      assert e.table[i] != e.table[j];
    }
  }

  /** No two phrases are alike together with the symbols behind them. */
  lemma {:induction false} PhrasesDiffer(b: nat, s: seq<nat>, c: seq<nat>, p: seq<nat>, i: nat, j: nat)
    requires Phrases(b, s, c, p) && i < j < |c| - 1
    ensures Longer(s, p, i) != Longer(s, p, j)
    decreases i + j
  {
    hide Pow2, Cuts;
    if Longer(s, p, i) == Longer(s, p, j) {
      LongerParts(s, p, i);
      LongerParts(s, p, j);
      SnocParts(Phrase(s, p, i), Follower(s, p, i), Phrase(s, p, j), Follower(s, p, j));
      assert Names(b, s, c, p, i) && Names(b, s, c, p, j);
      var x, y := c[i] - Start(b), c[j] - Start(b);
      if c[i] < Pow2(b) {
        if c[j] >= Pow2(b) {
          LongerParts(s, p, y);
        }
      } else if c[j] < Pow2(b) {
        LongerParts(s, p, x);
      } else if x < y {
        PhrasesDiffer(b, s, c, p, x, y);
      } else if y < x {
        PhrasesDiffer(b, s, c, p, y, x);
      }
    }
  }

  lemma SnocParts(u: seq<nat>, x: nat, v: seq<nat>, y: nat)
    requires u + [x] == v + [y]
    ensures u == v && x == y
  {
    assert (u + [x])[..|u|] == u && (v + [y])[..|u|] == v;
    assert (u + [x])[|u|] == x;
  }

  lemma LongerParts(s: seq<nat>, p: seq<nat>, k: nat)
    requires Cuts(s, p) && k < |p| - 2
    ensures Longer(s, p, k) == Phrase(s, p, k) + [Follower(s, p, k)] && Phrase(s, p, k) != []
  {
  }

  // ----- widths -----

  /** Each code goes out with the least width that holds every code in use at that time. */
  ghost predicate LeastWidths(b: nat, codes: seq<Code>) {
    forall i :: 0 <= i < |codes| ==> Fits(b, codes[i].width, i)
  }

  lemma {:induction false} WidthsLeast(b: nat, s: seq<nat>)
    requires b >= 1 && s != [] && Symbols(b, s)
    ensures LeastWidths(b, Finish(Encode(b, s)))
    decreases |s|
  {
    hide Fits, Find, Grounded, Distinct;
    var n := |s| - 1;
    EncodeOk(b, s);
    if n == 0 {
      assert s[1..] == [];
    } else {
      WidthsLeast(b, s[..n]);
      EncodeSnoc(b, s);
      var codes := Finish(Encode(b, s[..n]));
      forall i | 0 <= i < |Encode(b, s).sent|
        ensures Fits(b, Encode(b, s).sent[i].width, i)
      {
        assert Encode(b, s).sent[i] == codes[i];
      }
    }
  }
}

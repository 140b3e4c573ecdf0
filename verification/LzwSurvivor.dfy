/** The one buffer that one-bit symbols carry through. */
module LzwSurvivors {
  import opened Bits
  import opened BitStreams
  import opened LzwCodes
  import opened LzwProofs
  import opened LzwRoundTrip
  import opened LzwParses
  import opened LzwEndings
  import opened LzwPuzzles
  import opened LzwOneBits
  import opened LzwCounts

  /** From `n` on, bits repeat those eight places before. */
  ghost predicate Repeats(v: seq<bool>, n: nat) {
    forall i {:trigger v[i]} :: n <= i < |v| && i >= 8 ==> v[i] == v[i - 8]
  }

  /** `v` is the stream of some one-bit symbols, behind a head of `head` bits, with its padding. */
  ghost predicate Flows(b: nat, s: seq<nat>, codes: seq<Code>, p: seq<nat>, head: nat, v: seq<bool>) {
    && b == 1 && s != [] && Symbols(b, s) && head <= 2 && head % 2 == 0
    && Phrases(b, s, Numbers(codes), p) && LeastWidths(b, codes) && NoBitLost(codes)
    && CodesBits(codes) <= v && |v| == |CodesBits(codes)| + Unused(|CodesBits(codes)| + head)
    && Repeats(v, |CodesBits(codes)|)
  }

  // ----- the codes in the stream -----

  lemma {:induction false} CodeSlice(codes: seq<Code>, k: nat)
    requires k < |codes|
    ensures var o, w := |CodesBits(codes[..k])|, codes[k].width;
            && o + w <= |CodesBits(codes)|
            && CodesBits(codes)[o..o + w] == ToBits(codes[k].number, w)
  {
    hide ToBits;
    var n := |codes| - 1;
    if k < n {
      CodeSlice(codes[..n], k);
      assert codes[..n][..k] == codes[..k];
      var o, w := |CodesBits(codes[..k])|, codes[k].width;
      assert CodesBits(codes)[o..o + w] == CodesBits(codes[..n])[o..o + w];
    }
  }

  lemma FourFromBits(x: seq<bool>)
    requires 2 <= |x| <= 4
    ensures FromBits(x) == CodeAt(x, 0, |x|)
  {
    assert FromBits(x[1..]) == Bit(x[1]) + 2 * FromBits(x[1..][1..]);
    if |x| > 2 {
      assert x[1..][1..] == x[2..] && x[2..][1..] == x[3..];
      assert FromBits(x[2..]) == Bit(x[2]) + 2 * FromBits(x[3..]);
      if |x| > 3 {
        assert x[3..][1..] == [];
        assert FromBits(x[3..]) == Bit(x[3]);
      }
    }
  }

  lemma CodeRead(v: seq<bool>, o: nat, w: nat, number: nat)
    requires 2 <= w <= 4 && o + w <= |v| && number < Pow2(w) && v[o..o + w] == ToBits(number, w)
    ensures number == CodeAt(v, o, w)
  {
    hide ToBits, Pow2, FromBits;
    FromToBitsFits(number, w);
    FourFromBits(v[o..o + w]);
  }

  lemma CodeKnown(b: nat, s: seq<nat>, codes: seq<Code>, p: seq<nat>, head: nat, v: seq<bool>, k: nat)
    requires Flows(b, s, codes, p, head, v) && k < |codes| && k < 13
    ensures var c := Numbers(codes);
            && Offset(k) + Width(k) <= |v| && c[k] == CodeAt(v, Offset(k), Width(k))
            && (c[k] < 2 || 4 <= c[k] < 4 + k)
  {
    hide CodesBits, ToBits, CodeAt, Cuts;
    OneBitCodes(b);
    OffsetIs(b, codes, k);
    WidthIs(b, codes[k].width, k);
    CodeSlice(codes, k);
    var o, w := Offset(k), Width(k);
    assert v[o..o + w] == CodesBits(codes)[o..o + w];
    CodeRead(v, o, w, codes[k].number);
    assert Names(b, s, Numbers(codes), p, k);
  }

  lemma AllWritten(b: nat, s: seq<nat>, codes: seq<Code>, p: seq<nat>, head: nat, v: seq<bool>, n: nat)
    requires Flows(b, s, codes, p, head, v) && n <= |codes| && n <= 13
    ensures Written(Numbers(codes), v, n)
  {
    hide Flows, CodeAt, Width;
    forall k | 0 <= k < n
      ensures Offset(k) + Width(k) <= |v|
      ensures Numbers(codes)[k] == CodeAt(v, Offset(k), Width(k))
      ensures Numbers(codes)[k] < 2 || 4 <= Numbers(codes)[k] < 4 + k
    {
      CodeKnown(b, s, codes, p, head, v, k);
    }
    if n > 0 {
      CodeKnown(b, s, codes, p, head, v, n - 1);
      NextOffset(n - 1);
    }
  }

  lemma NextOffset(k: nat)
    requires k < 13
    ensures Offset(k + 1) == Offset(k) + Width(k)
  {
  }

  // ----- how long the symbols can be -----

  lemma EnoughHighs(b: nat, s: seq<nat>, codes: seq<Code>, p: seq<nat>, head: nat, v: seq<bool>)
    requires Flows(b, s, codes, p, head, v) && |codes| - 1 >= 11
    ensures Highs(v, |v| / 2) >= if |codes| - 1 >= 13 then 5 else 3
  {
    hide CodesBits, Fits, Names, Cuts, CodeAt, FavouredUses, Highs;
    var n := if |codes| - 1 >= 13 then 13 else 11;
    AllWritten(b, s, codes, p, head, v, n);
    HighCodes(Numbers(codes), v, n);
    FavouredFew(b, s, Numbers(codes), p, n);
    HighsGrow(v, Offset(n) / 2, |v| / 2);
  }

  lemma {:induction false} PowBig(t: nat)
    requires t >= 14
    ensures Pow2(t - 9) >= t + 4
  {
    if t == 14 {
      assert Pow2(5) == 32;
    } else {
      PowBig(t - 1);
    }
  }

  lemma NarrowForLong(b: nat, w: nat, t: nat)
    requires b == 1 && Fits(b, w, t) && t >= 14
    ensures w <= t - 9
  {
    OneBitCodes(b);
    PowBig(t);
    if w > t - 9 {
      PowMonotone(t - 9, w - 1);
    }
  }

  lemma CodesBitsLast(codes: seq<Code>)
    requires codes != []
    ensures |CodesBits(codes)| == |CodesBits(codes[..|codes| - 1])| + codes[|codes| - 1].width
  {
  }

  /** With fourteen codes sent, fewer symbols come out than went in. */
  lemma NeverSoLong(b: nat, s: seq<nat>, codes: seq<Code>, p: seq<nat>, head: nat, v: seq<bool>)
    requires Flows(b, s, codes, p, head, v) && |codes| - 1 >= 14
    ensures |Tokens(v)| < |s|
  {
    hide Tokens, CodesBits, Fits, Names, Cuts, Highs, Least;
    var t := |codes| - 1;
    PhrasesCover(b, s, Numbers(codes), p);
    TokenCount(v);
    EnoughHighs(b, s, codes, p, head, v);
    LongPhrases(b, codes, t);
    NarrowForLong(b, codes[t].width, t);
    CodesBitsLast(codes);
  }

  /** The length of a stream of few codes. */
  lemma StreamOf(b: nat, codes: seq<Code>)
    requires b == 1 && LeastWidths(b, codes) && 1 <= |codes| <= 14
    ensures |CodesBits(codes)| == if |codes| <= 13 then Offset(|codes|) else 51
  {
    hide CodesBits;
    if |codes| <= 13 {
      OffsetIs(b, codes, |codes|);
      assert codes[..|codes|] == codes;
    } else {
      OffsetIs(b, codes, 13);
      CodesBitsLast(codes);
      OneBitCodes(b);
      assert Pow2(4) == 16 && Pow2(5) == 32;
      var w := codes[13].width;
      if w < 5 {
        PowMonotone(w, 4);
      } else if w > 5 {
        PowMonotone(5, w - 1);
      }
    }
  }

  /** Only eight symbols, or sixteen in a few codes, can come out again. */
  ghost predicate Candidate(length: nat, sent: nat, bits: nat, highs: nat) {
    || (length == 8 && (sent == 3 || sent == 4) && bits == 16 && highs == 0)
    || (length == 8 && sent == 5 && (bits == 22 || bits == 24) && bits / 2 - highs >= 8)
    || (length == 16 && (sent == 7 || sent == 8) && bits == 32 && highs == 0)
    || (length == 16 && sent == 9 && (bits == 38 || bits == 40) && bits / 2 - highs >= 16)
  }

  /** The arithmetic of it, for `sent` codes and what they need. */
  lemma FewCodes(length: nat, sent: nat, head: nat, bits: nat, highs: nat)
    requires length % 8 == 0 && length > 0 && sent <= 13 && (head == 0 || head == 2)
    requires length > if sent <= 4 then sent else if sent <= 12 then 2 * sent - 4 else 23
    requires var used := if sent <= 12 then Offset(sent + 1) else 51;
             bits == used + Unused(used + head)
    requires length + highs <= bits / 2
    requires highs >= if sent == 13 then 5 else if sent >= 11 then 3 else 0
    ensures Candidate(length, sent, bits, highs)
  {
  }

  lemma Candidates(b: nat, s: seq<nat>, codes: seq<Code>, p: seq<nat>, head: nat, v: seq<bool>)
    requires Flows(b, s, codes, p, head, v) && |s| % 8 == 0 && s <= Tokens(v)
    ensures Candidate(|s|, |codes| - 1, |v|, Highs(v, |v| / 2))
  {
    hide Tokens, CodesBits, Fits, Names, Highs, Least, Offset, Candidate;
    var t := |codes| - 1;
    PhrasesCover(b, s, Numbers(codes), p);
    TokenCount(v);
    if t > 13 {
      NeverSoLong(b, s, codes, p, head, v);
      assert false;
    } else {
      StreamOf(b, codes);
      LeastIs(t);
      if t >= 11 {
        EnoughHighs(b, s, codes, p, head, v);
      }
      FewCodes(|s|, t, head, |v|, Highs(v, |v| / 2));
    }
  }

  // ----- the puzzle -----

  lemma PhrasesFit(b: nat, s: seq<nat>, codes: seq<Code>, p: seq<nat>, head: nat, v: seq<bool>, k: nat)
    requires Flows(b, s, codes, p, head, v) && k < |codes|
    ensures PhraseFits(s, Numbers(codes), p, k)
  {
    hide CodesBits, NoBitLost, LeastWidths;
    OneBitCodes(b);
    var c := Numbers(codes);
    assert Names(b, s, c, p, k);
    if c[k] < 2 {
      assert Phrase(s, p, k)[0] == c[k];
      assert |Phrase(s, p, k)| == 1;
    } else {
      SameStretch(s, p, k, c[k] - 4);
    }
  }

  lemma SameStretch(s: seq<nat>, p: seq<nat>, k: nat, j: nat)
    requires Cuts(s, p) && j < k < |p| - 1 && Phrase(s, p, k) == Longer(s, p, j)
    ensures p[k + 1] - p[k] == p[j + 1] - p[j] + 1 && Alike(s, p[k], p[j], p[k + 1] - p[k])
  {
    var x, y := Phrase(s, p, k), Longer(s, p, j);
    assert |x| == |y| >= 2;
    assert x[0] == y[0] && x[1] == y[1];
    assert |x| > 2 ==> x[2] == y[2];
    assert |x| > 3 ==> x[3] == y[3];
  }

  lemma FollowersFit(b: nat, s: seq<nat>, codes: seq<Code>, p: seq<nat>, head: nat, v: seq<bool>, n: nat)
    requires Flows(b, s, codes, p, head, v) && n <= |codes| - 1
    ensures FollowersDiffer(s, Numbers(codes), p, n)
  {
    hide CodesBits, NoBitLost, LeastWidths, Names;
    var c := Numbers(codes);
    forall i, j | 0 <= i < j < n && c[i] == c[j]
      ensures SymbolAt(s, p, i + 1) != SymbolAt(s, p, j + 1)
    {
      assert Follower(s, p, i) != Follower(s, p, j);
    }
  }

  /** A code in a stream, or in one with more bits behind it. */
  lemma CodeFits(b: nat, s: seq<nat>, codes: seq<Code>, p: seq<nat>, head: nat, v: seq<bool>, u: seq<bool>, k: nat)
    requires Flows(b, s, codes, p, head, v) && v <= u && k < |codes| && k < 13
    ensures Offset(k + 1) <= |u|
    ensures k == 0 ==> Numbers(codes)[k] == (if u[0] then 1 else 0) + (if u[1] then 2 else 0)
    ensures 1 <= k <= 4 ==> Numbers(codes)[k] == Three(u, 3 * k - 1)
    ensures 5 <= k ==> Numbers(codes)[k] == Four(u, 4 * k - 6)
  {
    hide Flows, Numbers;
    CodeKnown(b, s, codes, p, head, v, k);
    NextOffset(k);
    SameCode(v, u, Offset(k), Width(k));
  }

  lemma SameCode(v: seq<bool>, u: seq<bool>, o: nat, w: nat)
    requires v <= u && o + w <= |v| && w <= 4
    ensures CodeAt(v, o, w) == CodeAt(u, o, w)
  {
    assert forall i :: 0 <= i < |v| ==> v[i] == u[i];
  }

  lemma EarlyFits(b: nat, s: seq<nat>, codes: seq<Code>, p: seq<nat>, head: nat, v: seq<bool>, u: seq<bool>)
    requires Flows(b, s, codes, p, head, v) && v <= u && 4 <= |codes|
    ensures |u| >= 11 && Early(Numbers(codes), u)
  {
    hide Flows, Numbers, Three;
    CodeFits(b, s, codes, p, head, v, u, 0);
    CodeFits(b, s, codes, p, head, v, u, 1);
    CodeFits(b, s, codes, p, head, v, u, 2);
    CodeFits(b, s, codes, p, head, v, u, 3);
  }

  lemma {:induction false} TokensGrow(bits: seq<bool>, more: seq<bool>)
    requires |bits| % 2 == 0
    ensures Tokens(bits) <= Tokens(bits + more)
    decreases |bits|
  {
    if bits != [] {
      TokensGrow(bits[2..], more);
      assert (bits + more)[2..] == bits[2..] + more;
    }
  }

  /** Everything the puzzles ask for, but for the padding. */
  lemma Pieces(b: nat, s: seq<nat>, codes: seq<Code>, p: seq<nat>, head: nat, v: seq<bool>, u: seq<bool>)
    requires Flows(b, s, codes, p, head, v) && v <= u && |v| % 2 == 0 && s <= Tokens(v)
    ensures var c, h := Numbers(codes), HighsList(u);
            && |p| == |c| + 1 && p[0] == 0 && p[|c|] == |s| && h[0] == 0
            && (forall k :: 0 <= k < |c| ==> PhraseFits(s, c, p, k))
            && (forall n :: 0 <= n < |c| ==> FollowersDiffer(s, c, p, n))
            && (forall j :: 0 <= j < |u| / 2 ==> PairFits(s, u, h, j))
  {
    hide CodesBits, NoBitLost, LeastWidths, Names, PhraseFits, PairFits, FollowersDiffer, Tokens;
    TokensGrow(v, u[|v|..]);
    assert u == v + u[|v|..];
    var c := Numbers(codes);
    forall k | 0 <= k < |c|
      ensures PhraseFits(s, c, p, k)
    {
      PhrasesFit(b, s, codes, p, head, v, k);
    }
    forall n | 0 <= n < |c|
      ensures FollowersDiffer(s, c, p, n)
    {
      FollowersFit(b, s, codes, p, head, v, n);
    }
    forall j | 0 <= j < |u| / 2
      ensures PairFits(s, u, HighsList(u), j)
    {
      PairsFit(s, u, j);
    }
  }

  lemma {:induction false} HighsPrefix(v: seq<bool>, u: seq<bool>, j: nat)
    requires v <= u && 2 * j <= |v|
    ensures Highs(v, j) == Highs(u, j)
  {
    if j > 0 {
      HighsPrefix(v, u, j - 1);
    }
  }

  /** Two bytes never survive. */
  lemma SixteenLost(b: nat, s: seq<nat>, codes: seq<Code>, p: seq<nat>, head: nat, v: seq<bool>)
    requires Flows(b, s, codes, p, head, v) && s <= Tokens(v)
    requires |s| == 16 && |codes| == 10 && (|v| == 38 || |v| == 40)
    ensures |v| / 2 - Highs(v, |v| / 2) < 16
  {
    hide Tokens, Flows, PhraseFits, PairFits, FollowersDiffer, Early, Highs, Numbers;
    var u := if |v| == 40 then v else v + [v[30], v[31]];
    Pieces(b, s, codes, p, head, v, u);
    EarlyFits(b, s, codes, p, head, v, u);
    LaterFit(b, s, codes, p, head, v, u);
    PaddingFits(b, s, codes, p, head, v, u);
    NoSixteen(s, Numbers(codes), p, u, HighsList(u));
    HighsPrefix(v, u, |v| / 2);
    HighsStep(u, 19);
  }

  lemma HighsStep(u: seq<bool>, j: nat)
    requires 2 * j + 1 < |u|
    ensures Highs(u, j + 1) <= Highs(u, j) + 1
  {
  }

  lemma LaterFit(b: nat, s: seq<nat>, codes: seq<Code>, p: seq<nat>, head: nat, v: seq<bool>, u: seq<bool>)
    requires Flows(b, s, codes, p, head, v) && v <= u && |codes| == 10
    ensures |u| >= 34
    ensures var c := Numbers(codes);
            && c[4] == Three(u, 11) && c[5] == Four(u, 14) && c[6] == Four(u, 18)
            && c[7] == Four(u, 22) && c[8] == Four(u, 26) && c[9] == Four(u, 30)
  {
    hide Flows, Numbers, Three, Four;
    CodeFits(b, s, codes, p, head, v, u, 4);
    CodeFits(b, s, codes, p, head, v, u, 5);
    CodeFits(b, s, codes, p, head, v, u, 6);
    CodeFits(b, s, codes, p, head, v, u, 7);
    CodeFits(b, s, codes, p, head, v, u, 8);
    CodeFits(b, s, codes, p, head, v, u, 9);
  }

  /** The padding repeats, also when it is carried on to the next full byte. */
  lemma PaddingFits(b: nat, s: seq<nat>, codes: seq<Code>, p: seq<nat>, head: nat, v: seq<bool>, u: seq<bool>)
    requires Flows(b, s, codes, p, head, v) && 4 <= |codes| <= 13 && |v| >= 16
    requires u == v || u == v + [v[|v| - 8], v[|v| - 7]]
    ensures Repeats(u, Offset(|codes|))
  {
    StreamOf(b, codes);
  }

  /** One byte survives in one way only. */
  lemma EightFits(b: nat, s: seq<nat>, codes: seq<Code>, p: seq<nat>, head: nat, v: seq<bool>)
    requires Flows(b, s, codes, p, head, v) && s <= Tokens(v)
    requires |s| == 8 && |codes| == 6 && (|v| == 22 || |v| == 24) && |v| / 2 - Highs(v, |v| / 2) >= 8
    ensures s == [0, 1, 0, 1, 1, 0, 0, 0]
  {
    hide Tokens, Flows, PhraseFits, PairFits, FollowersDiffer, Early, Highs, Numbers, Three, Four;
    var u := if |v| == 24 then v else v + [v[14], v[15]];
    Pieces(b, s, codes, p, head, v, u);
    EarlyFits(b, s, codes, p, head, v, u);
    CodeFits(b, s, codes, p, head, v, u, 4);
    CodeFits(b, s, codes, p, head, v, u, 5);
    PaddingFits(b, s, codes, p, head, v, u);
    HighsPrefix(v, u, |v| / 2);
    HighsStep(u, 11);
    OneEight(s, Numbers(codes), p, u, HighsList(u));
  }

  /** Streams of other lengths need a pair they do not have. */
  lemma FewHighs(b: nat, s: seq<nat>, codes: seq<Code>, p: seq<nat>, head: nat, v: seq<bool>)
    requires Flows(b, s, codes, p, head, v) && s <= Tokens(v) && |v| % 2 == 0
    requires || (|s| == 16 && (|codes| == 8 || |codes| == 9) && |v| == 32)
             || (|s| == 8 && (|codes| == 4 || |codes| == 5) && |v| == 16)
    ensures Highs(v, |v| / 2) >= 1
  {
    hide Tokens, Flows, PhraseFits, PairFits, FollowersDiffer, Early, Highs, Numbers, Three, Opening;
    Pieces(b, s, codes, p, head, v, v);
    EarlyFits(b, s, codes, p, head, v, v);
    if |codes| > 4 {
      CodeFits(b, s, codes, p, head, v, v, 4);
    }
    var c, h := Numbers(codes), HighsList(v);
    if |s| == 16 {
      Openings(s, c, p, v, h);
      HighsGrow(v, 7, 16);
    } else if |codes| == 5 {
      NoEightFour(s, c, p, v, h);
    } else {
      NoEightThree(s, c, p, v, h);
    }
  }

  /** Whatever comes out again is this one byte. */
  lemma OnlySurvivor(b: nat, s: seq<nat>, codes: seq<Code>, p: seq<nat>, head: nat, v: seq<bool>)
    requires Flows(b, s, codes, p, head, v) && |s| % 8 == 0 && s <= Tokens(v)
    ensures s == [0, 1, 0, 1, 1, 0, 0, 0]
  {
    hide Tokens, Flows, Highs;
    Candidates(b, s, codes, p, head, v);
    if |v| == 16 || |v| == 32 {
      FewHighs(b, s, codes, p, head, v);
    } else if |s| == 16 {
      SixteenLost(b, s, codes, p, head, v);
    } else {
      EightFits(b, s, codes, p, head, v);
    }
  }

  // ----- and it does survive -----

  lemma TokensStep(v: seq<bool>, j: nat)
    requires 2 * j + 1 < |v|
    ensures Tokens(v[2 * j..]) == if !v[2 * j + 1] then [Bit(v[2 * j])] + Tokens(v[2 * j + 2..])
                                  else if v[2 * j] then [] else Tokens(v[2 * j + 2..])
  {
    assert v[2 * j..][2..] == v[2 * j + 2..];
  }

  lemma Survives(b: nat, s: seq<nat>, codes: seq<Code>, p: seq<nat>, head: nat, v: seq<bool>)
    requires Flows(b, s, codes, p, head, v) && s == [0, 1, 0, 1, 1, 0, 0, 0]
    ensures s <= Tokens(v) && |Tokens(v)| < 16
  {
    hide Flows, Tokens;
    var c := Numbers(codes);
    AllPhrasesFit(b, s, codes, p, head, v);
    SurvivorParse(s, c, p);
    StreamSize(b, s, codes, p, head, v);
    TokenCount(v);
    SurvivorBits(b, s, codes, p, head, v);
    SurvivorTokens(v);
  }

  lemma AllPhrasesFit(b: nat, s: seq<nat>, codes: seq<Code>, p: seq<nat>, head: nat, v: seq<bool>)
    requires Flows(b, s, codes, p, head, v)
    ensures var c := Numbers(codes);
            && c != [] && |p| == |c| + 1 && p[0] == 0 && p[|c|] == |s|
            && (forall k :: 0 <= k < |c| ==> PhraseFits(s, c, p, k))
            && FollowersDiffer(s, c, p, |c| - 1)
  {
    hide PhraseFits, CodesBits, NoBitLost, LeastWidths, Names;
    var c := Numbers(codes);
    forall k | 0 <= k < |c|
      ensures PhraseFits(s, c, p, k)
    {
      PhrasesFit(b, s, codes, p, head, v, k);
    }
    FollowersFit(b, s, codes, p, head, v, |c| - 1);
  }

  lemma StreamSize(b: nat, s: seq<nat>, codes: seq<Code>, p: seq<nat>, head: nat, v: seq<bool>)
    requires Flows(b, s, codes, p, head, v) && 1 <= |codes| <= 13
    ensures Offset(|codes|) <= |v| < Offset(|codes|) + 8
  {
    StreamOf(b, codes);
  }

  /** The bits 00 100 001 101 000 0000. */
  ghost predicate SurvivorStream(v: seq<bool>) {
    && |v| >= 18 && !v[0] && !v[1] && v[2] && !v[3] && !v[4] && !v[5] && !v[6] && v[7]
    && v[8] && !v[9] && v[10] && !v[11] && !v[12] && !v[13] && !v[14] && !v[15] && !v[16] && !v[17]
  }

  lemma SurvivorBits(b: nat, s: seq<nat>, codes: seq<Code>, p: seq<nat>, head: nat, v: seq<bool>)
    requires Flows(b, s, codes, p, head, v) && |codes| == 6
    requires var c := Numbers(codes);
             c[0] == 0 && c[1] == 1 && c[2] == 4 && c[3] == 5 && c[4] == 0 && c[5] == 0
    ensures SurvivorStream(v)
  {
    hide Flows, Numbers;
    EarlyFits(b, s, codes, p, head, v, v);
    CodeFits(b, s, codes, p, head, v, v, 4);
    CodeFits(b, s, codes, p, head, v, v, 5);
  }

  lemma SurvivorTokens(v: seq<bool>)
    requires SurvivorStream(v)
    ensures [0, 1, 0, 1, 1, 0, 0, 0] <= Tokens(v)
  {
    hide Tokens;
    assert v[0..] == v;
    TokensStep(v, 0);
    TokensStep(v, 1);
    TokensStep(v, 2);
    TokensStep(v, 3);
    TokensStep(v, 4);
    TokensStep(v, 5);
    TokensStep(v, 6);
    TokensStep(v, 7);
    TokensStep(v, 8);
    var t := Tokens(v[18..]);
    assert Tokens(v[8..]) == [1] + ([1] + ([0] + ([0] + ([0] + t))));
    assert Tokens(v) == [0] + ([1] + ([0] + Tokens(v[8..])));
  }

  /** A zero byte comes out as two symbols: the bits 00 001 101 001 end the stream after them. */
  lemma ZeroLost(b: nat, s: seq<nat>, codes: seq<Code>, p: seq<nat>, head: nat, v: seq<bool>)
    requires Flows(b, s, codes, p, head, v) && s == [0, 0, 0, 0, 0, 0, 0, 0]
    ensures Tokens(v) == [0, 0]
  {
    hide Flows, Tokens, Numbers;
    AllPhrasesFit(b, s, codes, p, head, v);
    ZeroParse(s, Numbers(codes), p);
    EarlyFits(b, s, codes, p, head, v, v);
    assert v[0..] == v;
    TokensStep(v, 0);
    TokensStep(v, 1);
    TokensStep(v, 2);
    assert [0] + ([0] + []) == [0, 0];
  }

  // ----- the stream in its bytes -----

  /** A flushed stream of one-bit symbols behind its head. */
  lemma StreamFlows(b: nat, leadingClear: bool, s: seq<nat>, all: seq<bool>)
    requires b == 1 && s != [] && Symbols(b, s) && Flushed(StreamBits(b, leadingClear, s), all)
    ensures |Head(b, leadingClear)| <= |all|
    ensures Flows(b, s, Finish(Encode(b, s)), Places(b, s) + [|s|], |Head(b, leadingClear)|,
                  all[|Head(b, leadingClear)|..])
  {
    hide Encode, Places, CodesBits, Phrases, LeastWidths, Repeats, Flushed, Unused, Head, Pow2, FinalWidth;
    var codes := Finish(Encode(b, s));
    ParsesInPhrases(b, s);
    WidthsLeast(b, s);
    EncodeOk(b, s);
    HeadLength(b, leadingClear);
    PaddingRepeats(Head(b, leadingClear), CodesBits(codes), all);
  }

  lemma HeadLength(b: nat, leadingClear: bool)
    requires b == 1
    ensures |Head(b, leadingClear)| == if leadingClear then 2 else 0
  {
  }

  lemma PaddingRepeats(head: seq<bool>, bits: seq<bool>, all: seq<bool>)
    requires Flushed(head + bits, all)
    ensures |head| <= |all|
    ensures var v := all[|head|..];
            && bits <= v && |v| == |bits| + Unused(|bits| + |head|)
            && Repeats(v, |bits|)
  {
    var stream, v := head + bits, all[|head|..];
    assert v[..|bits|] == stream[|head|..] == bits;
    if |stream| >= 8 {
      forall i | |bits| <= i < |v| && i >= 8
        ensures v[i] == v[i - 8]
      {
        assert all[|head| + i] == FlushBits(stream)[|head| + i - |stream|];
      }
    }
  }

  /** At one bit a decompressor reads the pairs behind the head. */
  lemma HeadThenTokens(b: nat, leadingClear: bool, prefix: nat, v: seq<bool>)
    requires b == 1
    ensures var r := DecodeBits(b, NewDecoder(b, prefix), Head(b, leadingClear) + v);
            r.Done? && r.d.out == Tokens(v)
    ensures Narrow(b, NewDecoder(b, prefix), Head(b, leadingClear) + v)
  {
    hide DecodeBits, Tokens, Narrow, ToBits;
    var d := NewDecoder(b, prefix);
    DecodesTokens(b, d, v);
    assert [] + Tokens(v) == Tokens(v);
    if leadingClear {
      LeadingClear(b, prefix, v);
      LeadingClearNarrow(b, prefix, v);
    } else {
      assert [] + v == v;
    }
  }
}

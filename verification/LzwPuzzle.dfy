/** One byte and two bytes of one-bit symbols. What a stream that reads back its own symbols must
    look like is a puzzle of a few codes; only one byte solves it. */
module LzwPuzzles {

  /** Two stretches of length `n` are the same in their first four symbols. */
  ghost predicate Alike(s: seq<nat>, x: nat, y: nat, n: nat) {
    && x + n <= |s| && y + n <= |s|
    && (0 < n ==> s[x] == s[y]) && (1 < n ==> s[x + 1] == s[y + 1]) && (2 < n ==> s[x + 2] == s[y + 2])
    && (3 < n ==> s[x + 3] == s[y + 3])
  }

  /** Phrase `k` is a symbol, or like an earlier one with the symbol behind it. */
  ghost predicate PhraseFits(s: seq<nat>, c: seq<nat>, p: seq<nat>, k: nat) {
    && k < |c| && |p| == |c| + 1 && p[k] < p[k + 1] <= |s|
    && (c[k] < 2 ==> p[k + 1] == p[k] + 1 && s[p[k]] == c[k])
    && (c[k] >= 2 ==>
          && 4 <= c[k] < 4 + k
          && p[c[k] - 4] < p[c[k] - 3] && p[k + 1] - p[k] == p[c[k] - 3] - p[c[k] - 4] + 1
          && Alike(s, p[k], p[c[k] - 4], p[k + 1] - p[k]))
  }

  ghost function SymbolAt(s: seq<nat>, p: seq<nat>, k: nat): nat {
    if k < |p| && p[k] < |s| then s[p[k]] else 0
  }

  /** No code is followed by the same symbol twice. */
  ghost predicate FollowersDiffer(s: seq<nat>, c: seq<nat>, p: seq<nat>, n: nat) {
    n <= |c| && forall i, j :: 0 <= i < j < n && c[i] == c[j] ==> SymbolAt(s, p, i + 1) != SymbolAt(s, p, j + 1)
  }

  /** Pair `j` is what it must be for the symbols to come out; `h` counts high bits. */
  ghost predicate PairFits(s: seq<nat>, v: seq<bool>, h: seq<nat>, j: nat) {
    && 2 * j + 1 < |v| && j + 1 < |h| && h[j] <= j
    && h[j + 1] == h[j] + (if v[2 * j + 1] then 1 else 0)
    && (j - h[j] < |s| && !v[2 * j + 1] ==> s[j - h[j]] == if v[2 * j] then 1 else 0)
    && (j - h[j] < |s| && v[2 * j + 1] ==> !v[2 * j])
  }

  /** The number in three or four bits of the stream. */
  ghost function Three(v: seq<bool>, o: nat): nat
    requires o + 3 <= |v|
  {
    (if v[o] then 1 else 0) + (if v[o + 1] then 2 else 0) + (if v[o + 2] then 4 else 0)
  }

  ghost function Four(v: seq<bool>, o: nat): nat
    requires o + 4 <= |v|
  {
    (if v[o] then 1 else 0) + (if v[o + 1] then 2 else 0) + (if v[o + 2] then 4 else 0) + (if v[o + 3] then 8 else 0)
  }

  /** The first codes as they stand in the stream. */
  ghost predicate Early(c: seq<nat>, v: seq<bool>)
    requires |c| >= 4 && |v| >= 11
  {
    && c[0] == (if v[0] then 1 else 0) + (if v[1] then 2 else 0)
    && c[1] == Three(v, 2) && c[2] == Three(v, 5) && c[3] == Three(v, 8)
  }

  /** The first five codes, if that many have been sent: all others read back wrongly at once. */
  ghost predicate Opening(c: seq<nat>)
    requires |c| >= 5
  {
    || (c[0] == 0 && c[1] == 1 && c[2] == 4 && c[3] == 1 && c[4] == 5)
    || (c[0] == 0 && c[1] == 1 && c[2] == 4 && c[3] == 5 && c[4] == 0)
    || (c[0] == 0 && c[1] == 1 && c[2] == 4 && c[3] == 5 && c[4] == 4)
    || (c[0] == 0 && c[1] == 1 && c[2] == 4 && c[3] == 6 && c[4] == 0)
    || (c[0] == 0 && c[1] == 1 && c[2] == 4 && c[3] == 6 && c[4] == 4)
    || (c[0] == 0 && c[1] == 1 && c[2] == 5 && c[3] == 5 && c[4] == 4)
    || (c[0] == 0 && c[1] == 1 && c[2] == 5 && c[3] == 6 && c[4] == 4)
    || (c[0] == 1 && c[1] == 0 && c[2] == 5 && c[3] == 0 && c[4] == 1)
    || (c[0] == 1 && c[1] == 0 && c[2] == 5 && c[3] == 0 && c[4] == 4)
  }

  lemma Openings(s: seq<nat>, c: seq<nat>, p: seq<nat>, v: seq<bool>, h: seq<nat>)
    requires |c| >= 6 && |p| == |c| + 1 && |v| >= 16 && |h| >= 8 && p[0] == 0 && h[0] == 0
    requires PhraseFits(s, c, p, 0) && PhraseFits(s, c, p, 1) && PhraseFits(s, c, p, 2)
    requires PhraseFits(s, c, p, 3) && PhraseFits(s, c, p, 4) && PhraseFits(s, c, p, 5)
    requires FollowersDiffer(s, c, p, 5)
    requires Early(c, v) && c[4] == Three(v, 11)
    requires PairFits(s, v, h, 0) && PairFits(s, v, h, 1) && PairFits(s, v, h, 2) && PairFits(s, v, h, 3)
    requires PairFits(s, v, h, 4) && PairFits(s, v, h, 5) && PairFits(s, v, h, 6)
    ensures Opening(c) && h[7] >= 1
  {
  }

  /** Nine codes sent, one pending, and sixteen symbols in twenty pairs. */
  ghost predicate Sixteen(s: seq<nat>, c: seq<nat>, p: seq<nat>, v: seq<bool>, h: seq<nat>) {
    && |s| == 16 && |c| == 10 && |p| == 11 && |v| == 40 && |h| == 21
    && p[0] == 0 && p[10] == 16 && h[0] == 0
    && PhraseFits(s, c, p, 0) && PhraseFits(s, c, p, 1) && PhraseFits(s, c, p, 2) && PhraseFits(s, c, p, 3)
    && PhraseFits(s, c, p, 4) && PhraseFits(s, c, p, 5) && PhraseFits(s, c, p, 6) && PhraseFits(s, c, p, 7)
    && PhraseFits(s, c, p, 8) && PhraseFits(s, c, p, 9) && FollowersDiffer(s, c, p, 9)
    && Early(c, v) && c[4] == Three(v, 11) && c[5] == Four(v, 14) && c[6] == Four(v, 18)
    && c[7] == Four(v, 22) && c[8] == Four(v, 26) && c[9] == Four(v, 30)
    && v[34] == v[26] && v[35] == v[27] && v[36] == v[28] && v[37] == v[29] && v[38] == v[30] && v[39] == v[31]
    && PairFits(s, v, h, 0) && PairFits(s, v, h, 1) && PairFits(s, v, h, 2) && PairFits(s, v, h, 3)
    && PairFits(s, v, h, 4) && PairFits(s, v, h, 5) && PairFits(s, v, h, 6) && PairFits(s, v, h, 7)
    && PairFits(s, v, h, 8) && PairFits(s, v, h, 9) && PairFits(s, v, h, 10) && PairFits(s, v, h, 11)
    && PairFits(s, v, h, 12) && PairFits(s, v, h, 13) && PairFits(s, v, h, 14) && PairFits(s, v, h, 15)
    && PairFits(s, v, h, 16) && PairFits(s, v, h, 17) && PairFits(s, v, h, 18) && PairFits(s, v, h, 19)
  }

  // Whatever the opening, more than four high bits.

  lemma SixteenA(s: seq<nat>, c: seq<nat>, p: seq<nat>, v: seq<bool>, h: seq<nat>)
    requires Sixteen(s, c, p, v, h) && Opening(c)
    ensures c[2] == 4 && c[3] == 1 ==> h[20] >= 5
  {
  }

  lemma SixteenB(s: seq<nat>, c: seq<nat>, p: seq<nat>, v: seq<bool>, h: seq<nat>)
    requires Sixteen(s, c, p, v, h) && Opening(c)
    ensures c[2] == 4 && c[3] == 5 && c[4] == 0 ==> h[20] >= 5
  {
  }

  lemma SixteenC(s: seq<nat>, c: seq<nat>, p: seq<nat>, v: seq<bool>, h: seq<nat>)
    requires Sixteen(s, c, p, v, h) && Opening(c)
    ensures c[2] == 4 && c[3] == 5 && c[4] == 4 ==> h[20] >= 5
  {
  }

  lemma SixteenD(s: seq<nat>, c: seq<nat>, p: seq<nat>, v: seq<bool>, h: seq<nat>)
    requires Sixteen(s, c, p, v, h) && Opening(c)
    ensures c[2] == 4 && c[3] == 6 ==> h[20] >= 5
  {
  }

  lemma SixteenE(s: seq<nat>, c: seq<nat>, p: seq<nat>, v: seq<bool>, h: seq<nat>)
    requires Sixteen(s, c, p, v, h) && Opening(c)
    ensures c[2] == 5 && c[3] == 5 && c[0] == 0 ==> h[20] >= 5
  {
  }

  lemma SixteenF(s: seq<nat>, c: seq<nat>, p: seq<nat>, v: seq<bool>, h: seq<nat>)
    requires Sixteen(s, c, p, v, h) && Opening(c)
    ensures c[2] == 5 && c[3] == 6 ==> h[20] >= 5
  {
  }

  lemma SixteenG(s: seq<nat>, c: seq<nat>, p: seq<nat>, v: seq<bool>, h: seq<nat>)
    requires Sixteen(s, c, p, v, h) && Opening(c)
    ensures c[0] == 1 && c[4] == 1 ==> h[20] >= 5
  {
  }

  lemma SixteenH(s: seq<nat>, c: seq<nat>, p: seq<nat>, v: seq<bool>, h: seq<nat>)
    requires Sixteen(s, c, p, v, h) && Opening(c)
    ensures c[0] == 1 && c[4] == 4 ==> h[20] >= 5
  {
  }

  lemma SixteenOpens(s: seq<nat>, c: seq<nat>, p: seq<nat>, v: seq<bool>, h: seq<nat>)
    requires Sixteen(s, c, p, v, h)
    ensures |c| == 10 && |h| == 21 && Opening(c)
  {
    Openings(s, c, p, v, h);
  }

  /** The symbols can never come out of twenty pairs. */
  lemma NoSixteen(s: seq<nat>, c: seq<nat>, p: seq<nat>, v: seq<bool>, h: seq<nat>)
    requires Sixteen(s, c, p, v, h)
    ensures h[20] >= 5
  {
    hide Sixteen;
    SixteenOpens(s, c, p, v, h);
    SixteenA(s, c, p, v, h);
    SixteenB(s, c, p, v, h);
    SixteenC(s, c, p, v, h);
    SixteenD(s, c, p, v, h);
    SixteenE(s, c, p, v, h);
    SixteenF(s, c, p, v, h);
    SixteenG(s, c, p, v, h);
    SixteenH(s, c, p, v, h);
  }

  /** Five codes sent, one pending, and eight symbols in twelve pairs. */
  ghost predicate Eight(s: seq<nat>, c: seq<nat>, p: seq<nat>, v: seq<bool>, h: seq<nat>) {
    && |s| == 8 && |c| == 6 && |p| == 7 && |v| == 24 && |h| == 13
    && p[0] == 0 && p[6] == 8 && h[0] == 0 && h[12] <= 4
    && PhraseFits(s, c, p, 0) && PhraseFits(s, c, p, 1) && PhraseFits(s, c, p, 2)
    && PhraseFits(s, c, p, 3) && PhraseFits(s, c, p, 4) && PhraseFits(s, c, p, 5) && FollowersDiffer(s, c, p, 5)
    && Early(c, v) && c[4] == Three(v, 11) && c[5] == Four(v, 14)
    && v[18] == v[10] && v[19] == v[11] && v[20] == v[12] && v[21] == v[13] && v[22] == v[14] && v[23] == v[15]
    && PairFits(s, v, h, 0) && PairFits(s, v, h, 1) && PairFits(s, v, h, 2) && PairFits(s, v, h, 3)
    && PairFits(s, v, h, 4) && PairFits(s, v, h, 5) && PairFits(s, v, h, 6) && PairFits(s, v, h, 7)
    && PairFits(s, v, h, 8) && PairFits(s, v, h, 9) && PairFits(s, v, h, 10) && PairFits(s, v, h, 11)
  }

  lemma OneEight(s: seq<nat>, c: seq<nat>, p: seq<nat>, v: seq<bool>, h: seq<nat>)
    requires Eight(s, c, p, v, h)
    ensures s[0] == 0 && s[1] == 1 && s[2] == 0 && s[3] == 1 && s[4] == 1 && s[5] == 0 && s[6] == 0 && s[7] == 0
  {
    Openings(s, c, p, v, h);
  }

  /** Fewer codes leave eight pairs and no room for a high bit. */
  lemma NoEightFour(s: seq<nat>, c: seq<nat>, p: seq<nat>, v: seq<bool>, h: seq<nat>)
    requires |s| == 8 && |c| == 5 && |p| == 6 && |v| == 16 && |h| == 9
    requires p[0] == 0 && h[0] == 0
    requires PhraseFits(s, c, p, 0) && PhraseFits(s, c, p, 1) && PhraseFits(s, c, p, 2)
    requires PhraseFits(s, c, p, 3) && PhraseFits(s, c, p, 4) && FollowersDiffer(s, c, p, 4)
    requires Early(c, v) && c[4] == Three(v, 11)
    requires PairFits(s, v, h, 0) && PairFits(s, v, h, 1) && PairFits(s, v, h, 2) && PairFits(s, v, h, 3)
    requires PairFits(s, v, h, 4) && PairFits(s, v, h, 5) && PairFits(s, v, h, 6) && PairFits(s, v, h, 7)
    ensures p[5] == 8 ==> h[8] >= 1
  {
  }

  lemma NoEightThree(s: seq<nat>, c: seq<nat>, p: seq<nat>, v: seq<bool>, h: seq<nat>)
    requires |s| == 8 && |c| == 4 && |p| == 5 && |v| == 16 && |h| == 9
    requires p[0] == 0 && h[0] == 0
    requires PhraseFits(s, c, p, 0) && PhraseFits(s, c, p, 1) && PhraseFits(s, c, p, 2) && PhraseFits(s, c, p, 3)
    requires FollowersDiffer(s, c, p, 3)
    requires Early(c, v)
    requires PairFits(s, v, h, 0) && PairFits(s, v, h, 1) && PairFits(s, v, h, 2) && PairFits(s, v, h, 3)
    requires PairFits(s, v, h, 4) && PairFits(s, v, h, 5) && PairFits(s, v, h, 6) && PairFits(s, v, h, 7)
    ensures p[4] == 8 ==> h[8] >= 1
  {
  }

  /** The codes of the surviving byte, and those of a zero byte. */
  lemma SurvivorParse(s: seq<nat>, c: seq<nat>, p: seq<nat>)
    requires c != [] && |p| == |c| + 1 && p[0] == 0 && p[|c|] == |s|
    requires forall k :: 0 <= k < |c| ==> PhraseFits(s, c, p, k)
    requires FollowersDiffer(s, c, p, |c| - 1) && s == [0, 1, 0, 1, 1, 0, 0, 0]
    ensures |c| == 6 && c[0] == 0 && c[1] == 1 && c[2] == 4 && c[3] == 5 && c[4] == 0 && c[5] == 0
  {
    forall k | 0 <= k < |c|
      ensures p[k] < |s|
    {
      assert PhraseFits(s, c, p, k);
    }
    assert PhraseFits(s, c, p, 0) && |c| > 1;
    assert PhraseFits(s, c, p, 1) && |c| > 2;
    assert PhraseFits(s, c, p, 2) && |c| > 3;
    assert PhraseFits(s, c, p, 3) && |c| > 4;
    assert PhraseFits(s, c, p, 4) && |c| > 5;
    assert PhraseFits(s, c, p, 5);
    assert p[6] == |s|;
  }

  lemma ZeroParse(s: seq<nat>, c: seq<nat>, p: seq<nat>)
    requires c != [] && |p| == |c| + 1 && p[0] == 0 && p[|c|] == |s|
    requires forall k :: 0 <= k < |c| ==> PhraseFits(s, c, p, k)
    requires FollowersDiffer(s, c, p, |c| - 1) && s == [0, 0, 0, 0, 0, 0, 0, 0]
    ensures |c| == 4 && c[0] == 0 && c[1] == 4 && c[2] == 5 && c[3] == 4
  {
    forall k | 0 <= k < |c|
      ensures p[k] < |s|
    {
      assert PhraseFits(s, c, p, k);
    }
    assert PhraseFits(s, c, p, 0) && |c| > 1;
    assert PhraseFits(s, c, p, 1) && |c| > 2;
    assert PhraseFits(s, c, p, 2) && |c| > 3;
    assert PhraseFits(s, c, p, 3);
    assert p[4] == |s|;
  }
}

/** `cString`: searching, replacing and splitting. Strings hold no null character. */
module Strings {

  /** `p` occurs in `t` at `i`. */
  ghost predicate MatchAt(t: string, p: string, i: nat) {
    i + |p| <= |t| && t[i..i + |p|] == p
  }

  ghost predicate Occurs(t: string, p: string) {
    exists i: nat :: MatchAt(t, p, i)
  }

  /** `r` is the least match at or after `start`, or the length of the text. */
  ghost predicate FoundAt(t: string, p: string, start: nat, r: nat) {
    && r <= |t|
    && (forall i: nat :: start <= i < r ==> !MatchAt(t, p, i))
    && (r < |t| ==> start <= r && MatchAt(t, p, r))
  }

  class CString {
    var text: string

    constructor (text: string)
      ensures this.text == text
    {
      this.text := text;
    }

    /** `find`: an empty string is found at once, wherever the search starts. */
    method Find(p: string, startIndex: nat) returns (r: nat)
      ensures p == "" ==> r == startIndex
      ensures p != "" ==> FoundAt(text, p, startIndex, r)
      ensures p != "" && r == |text| ==> forall i: nat :: startIndex <= i ==> !MatchAt(text, p, i)
    {
      var i, ln, on := startIndex, |text|, |p|;
      if on == 0 {
        return startIndex;
      }
      if ln < on {
        return ln;
      }
      var len := ln - on + 1;
      while i < len
        invariant startIndex <= i
        invariant forall k: nat :: startIndex <= k < i ==> !MatchAt(text, p, k)
      {
        if text[i] == p[0] {
          var j := i + 1;
          while j < ln && j < i + on && p[j - i] == text[j]
            invariant i + 1 <= j <= i + on
            invariant forall k :: 0 <= k < j - i ==> p[k] == text[i + k]
          {
            j := j + 1;
          }
          if j == i + on {
            assert text[i..i + on] == p;
            return i;
          }
          assert text[i..i + on][j - i] != p[j - i];
        } else {
          assert text[i..i + on][0] != p[0];
        }
        i := i + 1;
      }
      return ln;
    }

    /** `part`: from one index to another, both cut off at the length. */
    method Part(index1: nat, index2: nat) returns (r: string)
      ensures r == Slice(text, index1, index2)
    {
      if index1 > index2 {
        return "";
      }
      var from := if index1 > |text| then |text| else index1;
      var to := if index2 > |text| then |text| else index2;
      if from == to {
        return "";
      }
      return text[from..to];
    }

    method Left(size: int) returns (r: string)
      ensures size <= 0 ==> r == ""
      ensures size > 0 ==> r <= text && |r| == if size > |text| then |text| else size
    {
      var n := if size > |text| then |text| else size;
      if n <= 0 {
        return "";
      }
      return text[..n];
    }

    method Right(size: int) returns (r: string)
      ensures size <= 0 ==> r == ""
      ensures size > 0 ==> |r| == (if size > |text| then |text| else size) && r == text[|text| - |r|..]
    {
      var n := if size > |text| then |text| else size;
      if n <= 0 {
        return "";
      }
      return text[|text| - n..];
    }

    /** `replace`, for a replacement with fewer of some character `c` than the search string:
        every turn uses up some of them. `trace` lists the texts in between. */
    method Replace(findString: string, replaceString: string, ghost c: char) returns (ghost trace: seq<string>)
      requires multiset(replaceString)[c] < multiset(findString)[c]
      modifies this
      ensures Rewrites(trace, findString, replaceString) && trace != []
      ensures trace[0] == old(text) && trace[|trace| - 1] == text
      ensures !Occurs(text, findString)
    {
      hide Rewrites, Rewrite, Occurs;
      trace := [text];
      OneText(text, findString, replaceString);
      var pos := Find(findString, 0);
      while pos != |text|
        invariant Rewrites(trace, findString, replaceString)
        invariant trace != [] && trace[0] == old(text) && trace[|trace| - 1] == text
        invariant FoundAt(text, findString, 0, pos)
        invariant pos == |text| ==> forall i: nat :: !MatchAt(text, findString, i)
        decreases multiset(text)[c]
      {
        UsesUp(text, findString, replaceString, pos, c);
        MoreText(trace, findString, replaceString, pos);
        ReplaceAt(pos, findString, replaceString);
        trace := trace + [text];
        pos := Find(findString, 0);
      }
      NothingFound(text, findString);
    }

    /** One turn of the loop in `replace`. */
    method ReplaceAt(pos: nat, findString: string, replaceString: string)
      requires MatchAt(text, findString, pos)
      modifies this
      ensures text == old(text)[..pos] + replaceString + old(text)[pos + |findString|..]
    {
      var left := Left(pos);
      var right := Right(|text| - pos - |findString|);
      text := left + replaceString + right;
    }

    /** `split`. The search goes on one character behind the start of the last match, and never
        looks at the first character. */
    method Split(divider: string) returns (parts: seq<string>)
      requires divider != "" || text != ""
      ensures parts != []
      ensures Join(parts, divider) == text <==> NoOverlap(text, divider)
      ensures NoOverlap(text, divider) && divider != "" ==>
                && (forall k :: 1 <= k < |parts| ==> !Occurs(parts[k], divider))
                && (forall i: nat :: 1 <= i ==> !MatchAt(parts[0], divider, i))
      ensures divider != "" ==> FoundAt(text, divider, 1, |parts[0]|) && parts[0] == text[..|parts[0]|]
    {
      hide Join, Occurs, Apart, MatchAt, Slice;
      var index := Find(divider, 1);
      var part := Part(0, index);
      parts := [part];
      ghost var first := part;
      var lastIndex := index + |divider|;
      ghost var excess: nat := 0;
      FirstPart(text, divider, index);
      JoinOne(part, divider);
      while index != |text|
        invariant 1 <= index <= |text| || index == |text|
        invariant parts != [] && lastIndex == index + |divider| && parts[0] == first
        invariant index < |text| ==> MatchAt(text, divider, index)
        invariant |Join(parts, divider)| == index + excess
        invariant excess == 0 <==> Apart(text, divider, index)
        invariant excess == 0 ==> Join(parts, divider) == text[..index]
        invariant excess == 0 && divider != "" ==>
                    && (forall k :: 1 <= k < |parts| ==> !Occurs(parts[k], divider))
                    && (forall i: nat :: 1 <= i ==> !MatchAt(parts[0], divider, i))
        decreases |text| - index
      {
        ghost var before := index;
        index := Find(divider, index + 1);
        part := Part(lastIndex, index);
        NextPart(text, divider, parts, before, index, part, excess);
        excess := excess + if index < lastIndex then lastIndex - index else 0;
        parts := parts + [part];
        lastIndex := index + |divider|;
      }
    }
  }

  ghost function Slice(t: string, a: nat, b: nat): string {
    var from := if a > |t| then |t| else a;
    var to := if b > |t| then |t| else b;
    if from <= to then t[from..to] else ""
  }

  // ----- replacing -----

  /** One turn replaces the leftmost match. */
  ghost predicate Rewrite(t: string, u: string, f: string, r: string) {
    exists i: nat :: MatchAt(t, f, i) && FoundAt(t, f, 0, i) && u == t[..i] + r + t[i + |f|..]
  }

  ghost predicate Rewrites(trace: seq<string>, f: string, r: string) {
    trace != [] && forall k :: 0 <= k < |trace| - 1 ==> Rewrite(trace[k], trace[k + 1], f, r)
  }

  lemma OneText(t: string, f: string, r: string)
    ensures Rewrites([t], f, r)
  {
  }

  lemma MoreText(trace: seq<string>, f: string, r: string, i: nat)
    requires Rewrites(trace, f, r) && f != ""
    requires MatchAt(trace[|trace| - 1], f, i) && FoundAt(trace[|trace| - 1], f, 0, i)
    ensures var t := trace[|trace| - 1];
            Rewrites(trace + [t[..i] + r + t[i + |f|..]], f, r)
  {
    var t := trace[|trace| - 1];
    assert Rewrite(t, t[..i] + r + t[i + |f|..], f, r);
  }

  lemma NothingFound(t: string, f: string)
    requires forall i: nat :: !MatchAt(t, f, i)
    ensures !Occurs(t, f)
  {
  }

  lemma UsesUp(t: string, f: string, r: string, i: nat, c: char)
    requires MatchAt(t, f, i) && multiset(r)[c] < multiset(f)[c]
    ensures multiset(t[..i] + r + t[i + |f|..])[c] < multiset(t)[c]
  {
    assert t == t[..i] + f + t[i + |f|..];
  }

  /** Some character is scarcer in every shorter replacement. */
  lemma ShorterUsesUp(f: string, r: string) returns (c: char)
    requires |r| < |f|
    ensures multiset(r)[c] < multiset(f)[c]
  {
    if multiset(f) <= multiset(r) {
      SubsetSize(multiset(f), multiset(r));
    }
    c :| multiset(r)[c] < multiset(f)[c];
  }

  lemma SubsetSize(a: multiset<char>, b: multiset<char>)
    requires a <= b
    ensures |a| <= |b|
  {
    assert b == a + (b - a);
  }

  lemma RewriteOccurs(t: string, u: string, f: string, r: string)
    requires Rewrite(t, u, f, r)
    ensures Occurs(t, f)
  {
  }

  /** A rewritten text is determined: two complete runs from one text are the same run. */
  lemma {:induction false} RewritesUnique(a: seq<string>, b: seq<string>, f: string, r: string)
    requires Rewrites(a, f, r) && Rewrites(b, f, r) && f != "" && a[0] == b[0]
    requires !Occurs(a[|a| - 1], f) && !Occurs(b[|b| - 1], f)
    ensures a == b
    decreases |a|
  {
    if |a| == 1 {
      if |b| > 1 {
        RewriteOccurs(b[0], b[1], f, r);
      }
    } else {
      assert Rewrite(a[0], a[1], f, r);
      RewriteOccurs(a[0], a[1], f, r);
      if |b| > 1 {
        assert Rewrite(b[0], b[1], f, r);
        RewritesUnique(a[1..], b[1..], f, r);
        assert a == [a[0]] + a[1..] && b == [b[0]] + b[1..];
      }
    }
  }

  /** A replacement that contains the search string never gets rid of it. */
  lemma {:induction false} NeverDone(trace: seq<string>, f: string, r: string)
    requires Rewrites(trace, f, r) && f != "" && Occurs(r, f) && Occurs(trace[0], f)
    ensures Occurs(trace[|trace| - 1], f)
  {
    if |trace| > 1 {
      var n := |trace| - 1;
      assert Rewrite(trace[n - 1], trace[n], f, r);
      var i: nat :| MatchAt(trace[n - 1], f, i) && trace[n] == trace[n - 1][..i] + r + trace[n - 1][i + |f|..];
      var k: nat :| MatchAt(r, f, k);
      assert trace[n][i + k..i + k + |f|] == r[k..k + |f|];
      assert MatchAt(trace[n], f, i + k);
    }
  }

  // ----- splitting -----

  ghost function Join(parts: seq<string>, divider: string): string
    requires parts != []
  {
    if |parts| == 1 then parts[0]
    else Join(parts[..|parts| - 1], divider) + divider + parts[|parts| - 1]
  }

  /** Matches behind the first character and up to `limit` keep clear of each other. */
  ghost predicate Apart(t: string, d: string, limit: nat) {
    forall i: nat, j: nat :: 1 <= i < j <= limit && MatchAt(t, d, i) && MatchAt(t, d, j) ==> i + |d| <= j
  }

  ghost predicate NoOverlap(t: string, d: string) {
    Apart(t, d, |t|)
  }

  lemma MatchInside(t: string, d: string, a: nat, b: nat, i: nat)
    requires a <= b <= |t| && MatchAt(t[a..b], d, i)
    ensures a + i + |d| <= b && MatchAt(t, d, a + i)
  {
    var part := t[a..b];
    forall k | 0 <= k < |d|
      ensures t[a + i + k] == d[k]
    {
      assert part[i..i + |d|][k] == part[i + k];
    }
    assert t[a + i..a + i + |d|] == d;
  }

  lemma JoinOne(part: string, d: string)
    ensures Join([part], d) == part
  {
  }

  lemma FirstPart(t: string, d: string, index: nat)
    requires d != "" || t != ""
    requires d == "" ==> index == 1
    requires d != "" ==> FoundAt(t, d, 1, index)
    ensures index <= |t| && Slice(t, 0, index) == t[..index] && Apart(t, d, index)
    ensures d != "" ==> forall i: nat :: 1 <= i ==> !MatchAt(t[..index], d, i)
    ensures index < |t| ==> 1 <= index && MatchAt(t, d, index)
  {
    if d != "" {
      forall i: nat | 1 <= i
        ensures !MatchAt(t[..index], d, i)
      {
        if MatchAt(t[..index], d, i) {
          MatchInside(t, d, 0, index, i);
        }
      }
    }
  }

  lemma NextPart(t: string, d: string, parts: seq<string>, index: nat, next: nat, part: string, excess: nat)
    requires parts != [] && 1 <= index < |t| && MatchAt(t, d, index)
    requires d == "" ==> next == index + 1
    requires d != "" ==> FoundAt(t, d, index + 1, next)
    requires part == Slice(t, index + |d|, next)
    requires |Join(parts, d)| == index + excess
    requires excess == 0 <==> Apart(t, d, index)
    requires excess == 0 ==> Join(parts, d) == t[..index]
    ensures index < next <= |t| && (next < |t| ==> MatchAt(t, d, next))
    ensures var more := if next < index + |d| then index + |d| - next else 0;
            && |Join(parts + [part], d)| == next + excess + more
            && (excess + more == 0 <==> Apart(t, d, next))
            && (excess + more == 0 ==> Join(parts + [part], d) == t[..next])
            && (more == 0 && d != "" ==> !Occurs(part, d))
  {
    assert (parts + [part])[..|parts|] == parts;
    var more := if next < index + |d| then index + |d| - next else 0;
    if more == 0 {
      assert part == t[index + |d|..next];
      assert t[..next] == t[..index] + t[index..index + |d|] + t[index + |d|..next];
      if d != "" {
        forall i: nat
          ensures !MatchAt(part, d, i)
        {
          if MatchAt(part, d, i) {
            MatchInside(t, d, index + |d|, next, i);
          }
        }
      }
    } else {
      assert part == "";
      assert next < |t| && MatchAt(t, d, next);
    }
  }

  /** The divider, moved by `k`, still fits on itself. */
  ghost predicate FitsItself(d: string, k: nat) {
    0 < k < |d| && d[k..] == d[..|d| - k]
  }

  /** Splitting and joining is the identity on all texts exactly for dividers that do not
      overlap themselves. */
  lemma SafeDividers(d: string)
    ensures (forall t :: NoOverlap(t, d)) <==> !(exists k: nat :: FitsItself(d, k))
  {
    if k: nat :| FitsItself(d, k) {
      OverlapText(d, k);
    } else {
      forall t
        ensures NoOverlap(t, d)
      {
        forall i: nat, j: nat | i < j && MatchAt(t, d, i) && MatchAt(t, d, j)
          ensures i + |d| <= j
        {
          if j < i + |d| {
            OverlapFits(t, d, i, j);
          }
        }
      }
    }
  }

  lemma OverlapFits(t: string, d: string, i: nat, j: nat)
    requires i < j < i + |d| && MatchAt(t, d, i) && MatchAt(t, d, j)
    ensures FitsItself(d, j - i)
  {
    var k := j - i;
    assert d[k..] == t[j..i + |d|];
    assert t[j..j + |d|][..|d| - k] == t[j..i + |d|];
  }

  lemma OverlapText(d: string, k: nat)
    requires FitsItself(d, k)
    ensures !NoOverlap("x" + d[..k] + d, d)
  {
    var t := "x" + d[..k] + d;
    assert t[1 + k..1 + k + |d|] == d;
    assert t[1..1 + |d|] == d[..k] + d[..|d| - k];
    assert d[..k] + d[k..] == d;
    assert MatchAt(t, d, 1) && MatchAt(t, d, 1 + k);
  }
}

/** `Braces`: eats characters until the block opened by a first brace is closed. */
module Brace {

  predicate IsOpenBrace(c: char) { c == '{' || c == '[' || c == '(' }

  predicate IsCloseBrace(c: char) { c == '}' || c == ']' || c == ')' }

  /** `getCloseCharacter`. */
  function Closer(open: char): char
    requires IsOpenBrace(open)
  {
    if open == '{' then '}' else if open == '[' then ']' else ')'
  }

  /** `Mismatch` is the `BracesException`. */
  datatype Eaten = Inside | Done | Mismatch(found: char, expected: char)

  class Braces {
    var state: seq<char>
    var stateCache: char

    /** The block is still open, and the cache is the last brace on the list. */
    ghost predicate Valid()
      reads this
    {
      && state != [] && stateCache == state[|state| - 1]
      && Stack(state)
    }

    /** The source throws when the first brace does not open anything. */
    constructor (brace: char)
      requires IsOpenBrace(brace)
      ensures Valid() && state == [brace]
    {
      state, stateCache := [brace], brace;
    }

    method EatCharacter(data: char) returns (r: Eaten)
      requires Valid()
      modifies this
      ensures r.Inside? ==> Valid() && Feed(old(state), data) == Still(state)
      ensures r.Done? ==> state == [] && Feed(old(state), data) == Closed
      ensures r.Mismatch? ==> Valid() && state == old(state)
                              && Feed(old(state), data) == Wrong && r.found == data
                              && Feed(old(state), r.expected) != Wrong && IsCloseBrace(r.expected)
    {
      if IsOpenBrace(data) {
        state := state + [data];
        stateCache := data;
        return Inside;
      }
      if IsCloseBrace(data) {
        if Closer(stateCache) != data {
          return Mismatch(data, Closer(stateCache));
        }
        if |state| == 1 {
          state := [];
          return Done;
        }
        state := state[..|state| - 1];
        stateCache := state[|state| - 1];
      }
      return Inside;
    }
  }

  // ----- the machine as a function -----

  ghost predicate Stack(stack: seq<char>) {
    forall i :: 0 <= i < |stack| ==> IsOpenBrace(stack[i])
  }

  datatype Fed = Still(stack: seq<char>) | Closed | Wrong

  ghost function Feed(stack: seq<char>, c: char): (f: Fed)
    requires stack != [] && Stack(stack)
    ensures f.Still? ==> f.stack != [] && Stack(f.stack)
  {
    var n := |stack| - 1;
    if IsOpenBrace(c) then Still(stack + [c])
    else if !IsCloseBrace(c) then Still(stack)
    else if c != Closer(stack[n]) then Wrong
    else if n == 0 then Closed
    else Still(stack[..n])
  }

  /** A text fed until the block closes or a brace does not match; `rest` has not been eaten. */
  datatype Verdict = Unfinished(stack: seq<char>) | Block(rest: seq<char>) | Error(rest: seq<char>)

  ghost function FeedAll(stack: seq<char>, s: seq<char>): (v: Verdict)
    requires stack != [] && Stack(stack)
    ensures v.Unfinished? ==> v.stack != [] && Stack(v.stack)
    decreases |s|
  {
    if s == [] then Unfinished(stack)
    else
      match Feed(stack, s[0])
      case Still(next) => FeedAll(next, s[1..])
      case Closed => Block(s[1..])
      case Wrong => Error(s[1..])
  }

  // ----- the grammar -----

  /** Text in which every brace has its partner. */
  datatype Items = End | Plain(c: char, rest: Items) | Group(open: char, inside: Items, rest: Items)

  ghost predicate WellFormed(items: Items) {
    match items
    case End => true
    case Plain(c, rest) => !IsOpenBrace(c) && !IsCloseBrace(c) && WellFormed(rest)
    case Group(open, inside, rest) => IsOpenBrace(open) && WellFormed(inside) && WellFormed(rest)
  }

  ghost function Text(items: Items): seq<char>
    requires WellFormed(items)
  {
    match items
    case End => []
    case Plain(c, rest) => [c] + Text(rest)
    case Group(open, inside, rest) => [open] + Text(inside) + [Closer(open)] + Text(rest)
  }

  /** `s` is what follows `open` in a well-nested block. */
  ghost predicate IsBody(open: char, s: seq<char>)
    requires IsOpenBrace(open)
  {
    exists items :: WellFormed(items) && s == Text(items) + [Closer(open)]
  }

  // ----- machine and grammar -----

  lemma FeedOne(stack: seq<char>, c: char, rest: seq<char>)
    requires stack != [] && Stack(stack)
    ensures FeedAll(stack, [c] + rest) ==
            match Feed(stack, c)
            case Still(next) => FeedAll(next, rest)
            case Closed => Block(rest)
            case Wrong => Error(rest)
  {
    assert ([c] + rest)[1..] == rest;
  }

  /** Well-nested text leaves the machine where it was. */
  lemma {:induction false} FeedText(stack: seq<char>, items: Items, rest: seq<char>)
    requires stack != [] && Stack(stack) && WellFormed(items)
    ensures FeedAll(stack, Text(items) + rest) == FeedAll(stack, rest)
    decreases items
  {
    hide FeedAll, Feed, Closer;
    match items
    case End =>
      assert Text(items) + rest == rest;
    case Plain(c, more) =>
      FeedPlain(stack, c, Text(more) + rest);
      assert Text(items) + rest == [c] + (Text(more) + rest);
      FeedText(stack, more, rest);
    case Group(open, inside, more) =>
      var tail := Text(more) + rest;
      FeedText(stack + [open], inside, [Closer(open)] + tail);
      FeedGroup(stack, open, Text(inside), tail);
      FeedText(stack, more, rest);
      GroupText(open, Text(inside), Text(more), rest);
  }

  lemma GroupText(open: char, inside: seq<char>, more: seq<char>, rest: seq<char>)
    requires IsOpenBrace(open)
    ensures [open] + inside + [Closer(open)] + more + rest == [open] + (inside + ([Closer(open)] + (more + rest)))
  {
    hide Closer;
  }

  lemma FeedPlain(stack: seq<char>, c: char, tail: seq<char>)
    requires stack != [] && Stack(stack) && !IsOpenBrace(c) && !IsCloseBrace(c)
    ensures FeedAll(stack, [c] + tail) == FeedAll(stack, tail)
  {
    FeedOne(stack, c, tail);
  }

  lemma FeedGroup(stack: seq<char>, open: char, inside: seq<char>, tail: seq<char>)
    requires stack != [] && Stack(stack) && IsOpenBrace(open)
    requires FeedAll(stack + [open], inside + ([Closer(open)] + tail))
          == FeedAll(stack + [open], [Closer(open)] + tail)
    ensures FeedAll(stack, [open] + (inside + ([Closer(open)] + tail))) == FeedAll(stack, tail)
  {
    hide FeedAll;
    FeedOne(stack, open, inside + ([Closer(open)] + tail));
    FeedOne(stack + [open], Closer(open), tail);
    assert (stack + [open])[..|stack|] == stack;
  }

  /** The text between each open brace and its partner, outermost brace first. */
  datatype Nest = Empty | Level(outer: Nest, open: char, items: Items)

  ghost function Opens(nest: Nest): seq<char> {
    match nest
    case Empty => []
    case Level(outer, open, _) => Opens(outer) + [open]
  }

  ghost predicate WellNested(nest: Nest) {
    nest.Level? ==> IsOpenBrace(nest.open) && WellFormed(nest.items) && WellNested(nest.outer)
  }

  ghost function Spell(nest: Nest): seq<char>
    requires WellNested(nest)
  {
    match nest
    case Empty => []
    case Level(outer, open, items) => Text(items) + [Closer(open)] + Spell(outer)
  }

  /** What the machine has eaten when it reports the end of the block is well-nested. */
  lemma {:induction false} Parse(stack: seq<char>, s: seq<char>) returns (nest: Nest)
    requires stack != [] && Stack(stack) && FeedAll(stack, s).Block?
    ensures WellNested(nest) && Opens(nest) == stack
    ensures s == Spell(nest) + FeedAll(stack, s).rest
    decreases |s|
  {
    var c, n := s[0], |stack| - 1;
    assert s == [c] + s[1..];
    FeedOne(stack, c, s[1..]);
    hide FeedAll, WellFormed, Spell;
    if IsOpenBrace(c) {
      var more := Parse(stack + [c], s[1..]);
      PopOpens(more, stack, c);
      nest := Grouped(more);
      assert nest.Level?;
    } else if !IsCloseBrace(c) {
      var more := Parse(stack, s[1..]);
      nest := Plained(c, more);
    } else if n == 0 {
      nest := Emptied(Empty, stack[0]);
      assert stack == [stack[0]];
    } else {
      var more := Parse(stack[..n], s[1..]);
      nest := Emptied(more, stack[n]);
      assert stack == stack[..n] + [stack[n]];
    }
  }

  lemma PopOpens(more: Nest, stack: seq<char>, c: char)
    requires Opens(more) == stack + [c] && stack != []
    ensures more.Level? && more.open == c && Opens(more.outer) == stack && more.outer.Level?
  {
    assert Opens(more) == Opens(more.outer) + [more.open];
    assert Opens(more)[..|stack|] == stack;
  }

  lemma Emptied(outer: Nest, open: char) returns (nest: Nest)
    requires WellNested(outer) && IsOpenBrace(open)
    ensures WellNested(nest) && Opens(nest) == Opens(outer) + [open]
    ensures Spell(nest) == [Closer(open)] + Spell(outer)
  {
    nest := Level(outer, open, End);
    EndText();
  }

  lemma EndText()
    ensures WellFormed(End) && Text(End) == []
  {
  }

  /** The innermost level becomes a group in front of the next one. */
  lemma Grouped(more: Nest) returns (nest: Nest)
    requires WellNested(more) && more.Level? && more.outer.Level?
    ensures WellNested(nest) && Opens(nest) == Opens(more.outer)
    ensures Spell(nest) == [more.open] + Spell(more)
  {
    var outer := more.outer;
    nest := Level(outer.outer, outer.open, Group(more.open, more.items, outer.items));
    var tail := [Closer(outer.open)] + Spell(outer.outer);
    assert Spell(outer) == Text(outer.items) + tail;
    assert Spell(more) == Text(more.items) + [Closer(more.open)] + (Text(outer.items) + tail);
    assert Spell(nest) == [more.open] + Text(more.items) + [Closer(more.open)] + Text(outer.items) + tail;
  }

  lemma Plained(c: char, more: Nest) returns (nest: Nest)
    requires WellNested(more) && more.Level? && !IsOpenBrace(c) && !IsCloseBrace(c)
    ensures WellNested(nest) && Opens(nest) == Opens(more)
    ensures Spell(nest) == [c] + Spell(more)
  {
    nest := Level(more.outer, more.open, Plain(c, more.items));
  }

  /** The machine closes the block exactly at the end of a well-nested one. */
  lemma BlockIff(open: char, s: seq<char>, rest: seq<char>)
    requires IsOpenBrace(open)
    ensures FeedAll([open], s) == Block(rest) <==>
              exists body :: IsBody(open, body) && s == body + rest
  {
    if FeedAll([open], s) == Block(rest) {
      var nest := Parse([open], s);
      assert nest.outer == Empty && nest.open == open by {
        assert |Opens(nest)| == |Opens(nest.outer)| + 1;
        assert Opens(nest)[0] == open;
      }
      var body := Text(nest.items) + [Closer(open)];
      assert Spell(nest) == body;
      assert IsBody(open, body);
    }
    if body: seq<char> :| IsBody(open, body) && s == body + rest {
      var items :| WellFormed(items) && body == Text(items) + [Closer(open)];
      assert s == Text(items) + ([Closer(open)] + rest);
      FeedText([open], items, [Closer(open)] + rest);
      FeedOne([open], Closer(open), rest);
    }
  }

  // ----- which brace closes which -----

  /** How often a character occurs. */
  ghost function Times(s: seq<char>, c: char): nat {
    multiset(s)[c]
  }

  /** As many of each closing brace as of the opening one it belongs to. */
  ghost predicate Paired(s: seq<char>) {
    && Times(s, '{') == Times(s, '}')
    && Times(s, '[') == Times(s, ']')
    && Times(s, '(') == Times(s, ')')
  }

  ghost predicate Pair(o: char, c: char) {
    (o == '{' && c == '}') || (o == '[' && c == ']') || (o == '(' && c == ')')
  }

  /** The open braces of the stack still want their partners from `s`. */
  ghost predicate Wanting(stack: seq<char>, s: seq<char>, o: char, c: char) {
    Times(stack, o) + Times(s, o) == Times(s, c)
  }

  lemma TimesCons(c: char, s: seq<char>, d: char)
    ensures Times([c] + s, d) == Times(s, d) + if c == d then 1 else 0
  {
  }

  lemma TimesSnoc(s: seq<char>, c: char, d: char)
    ensures Times(s + [c], d) == Times(s, d) + if c == d then 1 else 0
  {
  }

  /** What one character leaves of the stack. */
  ghost function Next(stack: seq<char>, x: char): (next: seq<char>)
    requires stack != [] && Stack(stack) && !Feed(stack, x).Wrong?
  {
    if Feed(stack, x).Still? then Feed(stack, x).stack else []
  }

  /** One character: it joins the stack, takes its partner off it, or is no brace. */
  lemma WantingOne(stack: seq<char>, x: char, rest: seq<char>, o: char, c: char)
    requires stack != [] && Stack(stack) && !Feed(stack, x).Wrong? && Pair(o, c)
    requires Wanting(Next(stack, x), rest, o, c)
    ensures Wanting(stack, [x] + rest, o, c)
  {
    hide Times;
    var n := |stack| - 1;
    assert stack == stack[..n] + [stack[n]];
    TimesCons(x, rest, o);
    TimesCons(x, rest, c);
    TimesSnoc(stack[..n], stack[n], o);
    TimesSnoc(stack, x, o);
    assert n == 0 ==> stack[..n] == [];
  }

  lemma {:induction false} WantingAll(stack: seq<char>, s: seq<char>, rest: seq<char>, o: char, c: char)
    requires stack != [] && Stack(stack) && FeedAll(stack, s) == Block(rest) && Pair(o, c)
    ensures |rest| <= |s| && s[|s| - |rest|..] == rest && Wanting(stack, s[..|s| - |rest|], o, c)
    decreases |s|
  {
    hide Wanting, Feed, FeedAll, IsOpenBrace;
    if s == [] {
      NothingFed(stack);
    }
    FeedOne(stack, s[0], s[1..]);
    assert s == [s[0]] + s[1..];
    var next := Feed(stack, s[0]);
    var k := |s| - |rest|;
    if next.Still? {
      WantingAll(next.stack, s[1..], rest, o, c);
      WantingOne(stack, s[0], s[1..][..k - 1], o, c);
      assert s[..k] == [s[0]] + s[1..][..k - 1];
    } else {
      assert s[..1] == [s[0]] + [];
      NothingWanted(o, c);
      WantingOne(stack, s[0], [], o, c);
    }
  }

  lemma NothingFed(stack: seq<char>)
    requires stack != [] && Stack(stack)
    ensures FeedAll(stack, []) == Unfinished(stack)
  {
  }

  lemma NothingWanted(o: char, c: char)
    ensures Wanting([], [], o, c)
  {
  }

  lemma BlockPair(open: char, s: seq<char>, rest: seq<char>, o: char, c: char)
    requires IsOpenBrace(open) && FeedAll([open], s) == Block(rest) && Pair(o, c)
    ensures |rest| <= |s| && s == s[..|s| - |rest|] + rest
    ensures var block := [open] + s[..|s| - |rest|];
            Times(block, o) == Times(block, c)
  {
    hide Times, FeedAll, Feed, Wanting;
    WantingAll([open], s, rest, o, c);
    WantingBlock(open, s[..|s| - |rest|], o, c);
  }

  lemma WantingBlock(open: char, body: seq<char>, o: char, c: char)
    requires IsOpenBrace(open) && Pair(o, c) && Wanting([open], body, o, c)
    ensures Times([open] + body, o) == Times([open] + body, c)
  {
    hide Times;
    TimesCons(open, body, o);
    TimesCons(open, body, c);
    TimesOne(open, o);
  }

  lemma TimesOne(x: char, d: char)
    ensures Times([x], d) == if x == d then 1 else 0
  {
  }

  /** In every block the machine accepts, opener included, there are as many of each closing
      brace as of its partner. */
  lemma BlockPaired(open: char, s: seq<char>, rest: seq<char>)
    requires IsOpenBrace(open) && FeedAll([open], s) == Block(rest)
    ensures |rest| <= |s| && s == s[..|s| - |rest|] + rest && Paired([open] + s[..|s| - |rest|])
  {
    hide Times, FeedAll;
    BlockPair(open, s, rest, '{', '}');
    BlockPair(open, s, rest, '[', ']');
    BlockPair(open, s, rest, '(', ')');
  }

  /** Six characters are braces, each with one partner; the machine passes over all others. */
  lemma BracePartners(stack: seq<char>, c: char)
    requires stack != [] && Stack(stack)
    ensures IsOpenBrace(c) <==> c in "{[("
    ensures IsCloseBrace(c) <==> c in "}])"
    ensures c !in "{[(}])" ==> Feed(stack, c) == Still(stack)
    ensures Feed(stack, c).Wrong? <==>
              c in "}])" && (stack[|stack| - 1], c) != ('{', '}') && (stack[|stack| - 1], c) != ('[', ']')
              && (stack[|stack| - 1], c) != ('(', ')')
  {
    assert "{[(" == ['{', '[', '('] && "}])" == ['}', ']', ')'] && "{[(}])" == ['{', '[', '(', '}', ']', ')'];
  }

  // ----- errors come as early as they can -----

  lemma {:induction false} FeedAppend(stack: seq<char>, s: seq<char>, t: seq<char>)
    requires stack != [] && Stack(stack)
    ensures FeedAll(stack, s + t) ==
            match FeedAll(stack, s)
            case Unfinished(next) => FeedAll(next, t)
            case Block(rest) => Block(rest + t)
            case Error(rest) => Error(rest + t)
    decreases |s|
  {
    if s == [] {
      assert s + t == t;
    } else {
      FeedOne(stack, s[0], s[1..] + t);
      assert s + t == [s[0]] + (s[1..] + t);
      if Feed(stack, s[0]).Still? {
        FeedAppend(Feed(stack, s[0]).stack, s[1..], t);
      }
    }
  }

  /** The closers that end all open braces. */
  ghost function Closers(stack: seq<char>): seq<char>
    requires Stack(stack)
  {
    if stack == [] then []
    else [Closer(stack[|stack| - 1])] + Closers(stack[..|stack| - 1])
  }

  lemma {:induction false} CloseAll(stack: seq<char>)
    requires stack != [] && Stack(stack)
    ensures FeedAll(stack, Closers(stack)) == Block([])
    decreases |stack|
  {
    var n := |stack| - 1;
    FeedOne(stack, Closer(stack[n]), Closers(stack[..n]));
    if n > 0 {
      CloseAll(stack[..n]);
    } else {
      assert stack[..0] == [];
    }
  }

  /** Some continuation of `s` ends the block. */
  ghost predicate Viable(open: char, s: seq<char>)
    requires IsOpenBrace(open)
  {
    exists more :: IsBody(open, s + more)
  }

  lemma BodyIff(open: char, s: seq<char>)
    requires IsOpenBrace(open)
    ensures IsBody(open, s) <==> FeedAll([open], s) == Block([])
  {
    BlockIff(open, s, []);
    assert s + [] == s;
    if body: seq<char> :| IsBody(open, body) && s == body + [] {
      assert body == s;
    }
  }

  /** The machine still runs, or has just closed the block, exactly while some continuation
      could be balanced: it throws at the first character that makes this impossible. */
  lemma ThrowsExactly(open: char, s: seq<char>)
    requires IsOpenBrace(open)
    ensures Viable(open, s) <==> FeedAll([open], s).Unfinished? || FeedAll([open], s) == Block([])
    ensures FeedAll([open], s).Error? ==>
              var n := |s| - |FeedAll([open], s).rest|;
              1 <= n <= |s| && Viable(open, s[..n - 1]) && !Viable(open, s[..n])
  {
    ViableIff(open, s);
    if FeedAll([open], s).Error? {
      var n := ErrorAt([open], s);
      ViableIff(open, s[..n - 1]);
      ViableIff(open, s[..n]);
    }
  }

  lemma ViableIff(open: char, s: seq<char>)
    requires IsOpenBrace(open)
    ensures Viable(open, s) <==> FeedAll([open], s).Unfinished? || FeedAll([open], s) == Block([])
  {
    var v := FeedAll([open], s);
    forall more | IsBody(open, s + more)
      ensures v.Unfinished? || v == Block([])
    {
      BodyIff(open, s + more);
      FeedAppend([open], s, more);
    }
    if v.Unfinished? {
      FeedAppend([open], s, Closers(v.stack));
      CloseAll(v.stack);
      BodyIff(open, s + Closers(v.stack));
    } else if v == Block([]) {
      BodyIff(open, s);
      assert s + [] == s;
    }
  }

  lemma {:induction false} ErrorAt(stack: seq<char>, s: seq<char>) returns (n: nat)
    requires stack != [] && Stack(stack) && FeedAll(stack, s).Error?
    ensures 1 <= n <= |s| && n == |s| - |FeedAll(stack, s).rest|
    ensures FeedAll(stack, s[..n - 1]).Unfinished? && FeedAll(stack, s[..n]).Error?
    decreases |s|
  {
    if Feed(stack, s[0]).Still? {
      var m := ErrorAt(Feed(stack, s[0]).stack, s[1..]);
      n := m + 1;
      assert s[..n][1..] == s[1..][..m] && s[..n - 1] == [s[0]] + s[1..][..m - 1];
      assert s[..n - 1][1..] == s[1..][..m - 1];
    } else {
      n := 1;
    }
  }

  /** Eats a text until the block ends, as `readBracesBlock` does for text without quotes. */
  method Eat(open: char, s: seq<char>) returns (r: Eaten, count: nat)
    requires IsOpenBrace(open)
    ensures count <= |s|
    ensures r.Inside? <==> FeedAll([open], s).Unfinished?
    ensures r.Done? <==> FeedAll([open], s) == Block(s[count..])
    ensures r.Mismatch? <==> FeedAll([open], s) == Error(s[count..])
  {
    var b := new Braces(open);
    count := 0;
    r := Inside;
    while count < |s| && r.Inside?
      invariant count <= |s|
      invariant r.Inside? ==> b.Valid() && FeedAll([open], s) == FeedAll(b.state, s[count..])
      invariant r.Done? ==> FeedAll([open], s) == Block(s[count..])
      invariant r.Mismatch? ==> FeedAll([open], s) == Error(s[count..])
      decreases |s| - count, r.Inside?
    {
      r := b.EatCharacter(s[count]);
      assert s[count..][1..] == s[count + 1..];
      count := count + 1;
    }
  }
}

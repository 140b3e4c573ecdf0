/** What the code machines promise: the table is a well-founded set of distinct strings, the
    compressor parses greedily and never needs a wider code, and the decompressor follows it
    one entry behind. */
module LzwProofs {
  import opened Bits
  import opened LzwCodes

  // ----- dictionary -----

  lemma {:induction false} ExpandStable(b: nat, table: Table, entry: Entry, code: nat)
    requires Grounded(b, table + [entry]) && Grounded(b, table) && IsCode(b, code, |table|)
    ensures Expand(b, table + [entry], code) == Expand(b, table, code)
    decreases code
  {
    if code >= Start(b) {
      ExpandStable(b, table, entry, table[code - Start(b)].prefix);
    }
  }

  /** Distinct entries stand for distinct strings. */
  lemma {:induction false} ExpandInjective(b: nat, table: Table, c1: nat, c2: nat)
    requires Grounded(b, table) && Distinct(table)
    requires IsCode(b, c1, |table|) && IsCode(b, c2, |table|)
    requires Expand(b, table, c1) == Expand(b, table, c2)
    ensures c1 == c2
    decreases c1
  {
    var s := Expand(b, table, c1);
    if c1 < Start(b) {
      assert |s| == 1;
    } else if c2 >= Start(b) {
      var e1, e2 := table[c1 - Start(b)], table[c2 - Start(b)];
      assert s[..|s| - 1] == Expand(b, table, e1.prefix) == Expand(b, table, e2.prefix);
      assert s[|s| - 1] == e1.value == e2.value;
      ExpandInjective(b, table, e1.prefix, e2.prefix);
      assert e1 == e2;
    }
  }

  /** The table is closed under taking prefixes of its strings. */
  lemma {:induction false} Ancestor(b: nat, table: Table, code: nat, length: nat) returns (a: nat)
    requires Grounded(b, table) && IsCode(b, code, |table|)
    requires 1 <= length <= |Expand(b, table, code)|
    ensures IsCode(b, a, |table|)
    ensures Expand(b, table, a) == Expand(b, table, code)[..length]
    decreases code
  {
    var s := Expand(b, table, code);
    if length == |s| {
      a := code;
      assert s[..length] == s;
    } else {
      var prefix := table[code - Start(b)].prefix;
      a := Ancestor(b, table, prefix, length);
      assert s[..length] == Expand(b, table, prefix)[..length];
    }
  }

  // ----- compressor -----

  /** The width is the least one that holds every code in use. */
  ghost predicate Fits(b: nat, ioBits: nat, size: nat) {
    ioBits >= 1 && Pow2(ioBits - 1) < Start(b) + size <= Pow2(ioBits)
  }

  ghost predicate SentOk(b: nat, e: Encoder) {
    forall i :: 0 <= i < |e.sent| ==>
      && IsCode(b, e.sent[i].number, |e.table|)
      && e.sent[i].number < Pow2(e.sent[i].width) && e.sent[i].width <= e.ioBits
  }

  ghost predicate EncoderOk(b: nat, e: Encoder) {
    && Grounded(b, e.table) && Distinct(e.table)
    && IsCode(b, e.prefix, |e.table|)
    && Fits(b, e.ioBits, |e.table|)
    && SentOk(b, e)
    && |e.sent| == |e.table|
    && forall i :: 0 <= i < |e.sent| ==> e.sent[i].number == e.table[i].prefix
  }

  lemma NewEncoderOk(b: nat, first: nat)
    requires b >= 1 && first < Pow2(b)
    ensures EncoderOk(b, NewEncoder(b, first))
  {
    Pow2Strict(0, b);
    assert Pow2(b + 1) == 2 * Pow2(b);
  }

  lemma WidthGrows(b: nat, ioBits: nat, size: nat)
    requires Fits(b, ioBits, size)
    ensures Fits(b, if size + Start(b) == Pow2(ioBits) then ioBits + 1 else ioBits, size + 1)
  {
  }

  lemma TableGrows(b: nat, table: Table, entry: Entry)
    requires Grounded(b, table) && Distinct(table) && Find(table, entry) == |table|
    requires IsCode(b, entry.prefix, |table|) && entry.value < Pow2(b)
    ensures Grounded(b, table + [entry]) && Distinct(table + [entry])
  {
  }

  lemma EncodeSymbolOk(b: nat, e: Encoder, symbol: nat)
    requires EncoderOk(b, e) && symbol < Pow2(b)
    ensures EncoderOk(b, EncodeSymbol(b, e, symbol))
  {
    hide Grounded, Distinct, Fits, Pow2, Find;
    var entry := Entry(e.prefix, symbol);
    if Find(e.table, entry) == |e.table| {
      TableGrows(b, e.table, entry);
      WidthGrows(b, e.ioBits, |e.table|);
      CodeFits(b, e.ioBits, |e.table|, e.prefix);
    }
  }

  lemma CodeFits(b: nat, ioBits: nat, size: nat, code: nat)
    requires Fits(b, ioBits, size) && IsCode(b, code, size)
    ensures code < Pow2(ioBits)
  {
  }

  lemma {:induction false} EncodeAllOk(b: nat, e: Encoder, symbols: seq<nat>)
    requires EncoderOk(b, e) && Symbols(b, symbols)
    ensures EncoderOk(b, EncodeAll(b, e, symbols))
  {
    if symbols != [] {
      EncodeAllOk(b, e, symbols[..|symbols| - 1]);
      EncodeSymbolOk(b, EncodeAll(b, e, symbols[..|symbols| - 1]), symbols[|symbols| - 1]);
    }
  }

  /** Every table a stream can reach is well-founded and free of duplicates, the width is the
      least that holds the next free code, and no code loses a bit on the way out. */
  lemma EncodeOk(b: nat, symbols: seq<nat>)
    requires b >= 1 && symbols != [] && Symbols(b, symbols)
    ensures EncoderOk(b, Encode(b, symbols))
    ensures var codes := Finish(Encode(b, symbols));
            forall i :: 0 <= i < |codes| ==>
              codes[i].number < Pow2(codes[i].width) && codes[i].width <= Encode(b, symbols).ioBits
  {
    NewEncoderOk(b, symbols[0]);
    EncodeAllOk(b, NewEncoder(b, symbols[0]), symbols[1..]);
  }

  /** `Encode` one symbol at a time. */
  lemma EncodeSnoc(b: nat, symbols: seq<nat>)
    requires |symbols| >= 2
    ensures Encode(b, symbols)
         == EncodeSymbol(b, Encode(b, symbols[..|symbols| - 1]), symbols[|symbols| - 1])
  {
    var s, n := symbols[1..], |symbols| - 1;
    assert s[..|s| - 1] == symbols[..n][1..];
  }

  ghost predicate AreCodes(b: nat, codes: seq<Code>, size: nat) {
    forall i :: 0 <= i < |codes| ==> IsCode(b, codes[i].number, size)
  }

  /** The strings of a list of codes, one after the other. */
  ghost function ExpandAll(b: nat, table: Table, codes: seq<Code>): seq<nat>
    requires Grounded(b, table) && AreCodes(b, codes, |table|)
  {
    if codes == [] then []
    else ExpandAll(b, table, codes[..|codes| - 1]) + Expand(b, table, codes[|codes| - 1].number)
  }

  lemma {:induction false} ExpandAllStable(b: nat, table: Table, entry: Entry, codes: seq<Code>)
    requires Grounded(b, table + [entry]) && Grounded(b, table) && AreCodes(b, codes, |table|)
    ensures AreCodes(b, codes, |table + [entry]|)
    ensures ExpandAll(b, table + [entry], codes) == ExpandAll(b, table, codes)
  {
    if codes != [] {
      ExpandAllStable(b, table, entry, codes[..|codes| - 1]);
      ExpandStable(b, table, entry, codes[|codes| - 1].number);
    }
  }

  /** The codes sent so far followed by the pending prefix spell the input. */
  ghost predicate Spells(b: nat, e: Encoder, symbols: seq<nat>)
    requires EncoderOk(b, e)
  {
    ExpandAll(b, e.table, e.sent) + Expand(b, e.table, e.prefix) == symbols
  }

  lemma HitExpands(b: nat, table: Table, index: nat)
    requires Grounded(b, table) && index < |table|
    ensures Expand(b, table, index + Start(b)) == Expand(b, table, table[index].prefix) + [table[index].value]
  {
  }

  lemma MissExpands(b: nat, table: Table, sent: seq<Code>, entry: Entry, ioBits: nat)
    requires Grounded(b, table) && Grounded(b, table + [entry]) && AreCodes(b, sent, |table|)
    requires IsCode(b, entry.prefix, |table|)
    ensures var codes := sent + [Code(entry.prefix, ioBits)];
            && AreCodes(b, codes, |table + [entry]|)
            && ExpandAll(b, table + [entry], codes) == ExpandAll(b, table, sent) + Expand(b, table, entry.prefix)
  {
    ExpandAllStable(b, table, entry, sent);
    ExpandStable(b, table, entry, entry.prefix);
    assert (sent + [Code(entry.prefix, ioBits)])[..|sent|] == sent;
  }

  lemma SpellsStep(b: nat, e: Encoder, symbols: seq<nat>, symbol: nat)
    requires EncoderOk(b, e) && Spells(b, e, symbols) && symbol < Pow2(b)
    ensures var next := EncodeSymbol(b, e, symbol);
            EncoderOk(b, next) && Spells(b, next, symbols + [symbol])
  {
    EncodeSymbolOk(b, e, symbol);
    var entry := Entry(e.prefix, symbol);
    var index := Find(e.table, entry);
    var done, p := ExpandAll(b, e.table, e.sent), Expand(b, e.table, e.prefix);
    if index < |e.table| {
      HitExpands(b, e.table, index);
      assert done + (p + [symbol]) == (done + p) + [symbol];
    } else {
      MissExpands(b, e.table, e.sent, entry, e.ioBits);
    }
  }

  lemma {:induction false} Parse(b: nat, symbols: seq<nat>)
    requires b >= 1 && symbols != [] && Symbols(b, symbols)
    ensures EncoderOk(b, Encode(b, symbols)) && Spells(b, Encode(b, symbols), symbols)
    decreases |symbols|
  {
    hide EncoderOk, Spells, EncodeSymbol;
    var n := |symbols| - 1;
    if n == 0 {
      ParseFirst(b, symbols[0]);
      assert symbols[1..] == [] && symbols == [symbols[0]];
    } else {
      Parse(b, symbols[..n]);
      EncodeSnoc(b, symbols);
      SpellsStep(b, Encode(b, symbols[..n]), symbols[..n], symbols[n]);
      assert symbols == symbols[..n] + [symbols[n]];
    }
  }

  lemma ParseFirst(b: nat, first: nat)
    requires b >= 1 && first < Pow2(b)
    ensures EncoderOk(b, NewEncoder(b, first)) && Spells(b, NewEncoder(b, first), [first])
  {
    NewEncoderOk(b, first);
  }

  /** A code sent inside the loop is the longest string of the table that starts the rest of
      the input. */
  lemma Greedy(b: nat, e: Encoder, symbols: seq<nat>, symbol: nat, rest: seq<nat>, code: nat)
    requires EncoderOk(b, e) && Spells(b, e, symbols)
    requires Find(e.table, Entry(e.prefix, symbol)) == |e.table|
    requires IsCode(b, code, |e.table|)
    requires ExpandAll(b, e.table, e.sent) + Expand(b, e.table, code) <= symbols + [symbol] + rest
    ensures |Expand(b, e.table, code)| <= |Expand(b, e.table, e.prefix)|
  {
    var done, p := ExpandAll(b, e.table, e.sent), Expand(b, e.table, e.prefix);
    var other := Expand(b, e.table, code);
    if |other| > |p| {
      LongerMatch(done, p, symbol, rest, other);
      var a := Ancestor(b, e.table, code, |p| + 1);
      GreedyEntry(b, e, symbol, a);
    }
  }

  lemma LongerMatch(done: seq<nat>, p: seq<nat>, symbol: nat, rest: seq<nat>, other: seq<nat>)
    requires done + other <= done + p + [symbol] + rest && |other| > |p|
    ensures other[..|p| + 1] == p + [symbol]
  {
    forall k | 0 <= k <= |p|
      ensures other[k] == (p + [symbol])[k]
    {
      assert (done + other)[|done| + k] == (done + p + [symbol] + rest)[|done| + k];
    }
  }

  /** At every turn that sends a code, whatever the input around it: no table string that
      starts the rest of the input is longer than the one sent. */
  lemma GreedyRun(b: nat, before: seq<nat>, symbol: nat, rest: seq<nat>, code: nat)
    requires b >= 1 && before != [] && Symbols(b, before)
    requires EncoderOk(b, Encode(b, before)) && IsCode(b, code, |Encode(b, before).table|)
    requires EncodeSymbol(b, Encode(b, before), symbol).sent != Encode(b, before).sent
    requires var e := Encode(b, before);
             ExpandAll(b, e.table, e.sent) + Expand(b, e.table, code) <= before + [symbol] + rest
    ensures var e := Encode(b, before);
            && ExpandAll(b, e.table, e.sent) + Expand(b, e.table, e.prefix) == before
            && |Expand(b, e.table, code)| <= |Expand(b, e.table, e.prefix)|
  {
    hide Encode, Expand, ExpandAll, Find;
    Parse(b, before);
    Greedy(b, Encode(b, before), before, symbol, rest, code);
  }

  /** No table code stands for the pending prefix and the missed symbol. */
  lemma GreedyEntry(b: nat, e: Encoder, symbol: nat, a: nat)
    requires EncoderOk(b, e) && IsCode(b, a, |e.table|)
    requires Find(e.table, Entry(e.prefix, symbol)) == |e.table|
    ensures Expand(b, e.table, a) != Expand(b, e.table, e.prefix) + [symbol]
  {
    var longer, p := Expand(b, e.table, a), Expand(b, e.table, e.prefix);
    if longer == p + [symbol] {
      var entry := e.table[a - Start(b)];
      assert longer[..|p|] == Expand(b, e.table, entry.prefix) && longer[|p|] == entry.value;
      ExpandInjective(b, e.table, entry.prefix, e.prefix);
    }
  }

  // ----- decompressor one entry behind -----

  /** A decompressor that is fed codes at the compressor's widths; `Misread` when its own
      width differs. */
  datatype Following = Ahead(d: Decoder) | Stopped | Misread

  ghost function Follow(b: nat, d: Decoder, codes: seq<Code>): (f: Following)
    requires Sound(b, d)
    ensures f.Ahead? ==> Sound(b, f.d)
  {
    if codes == [] then Ahead(d)
    else
      var last := codes[|codes| - 1];
      match Follow(b, d, codes[..|codes| - 1])
      case Stopped => Stopped
      case Misread => Misread
      case Ahead(d1) =>
        if d1.ioBits != last.width then Misread
        else
          match DecodeCode(b, d1, last.number)
          case More(d2) => Ahead(d2)
          case _ => Stopped
  }

  /** The lag: having read all codes sent so far, the decompressor holds the compressor's table
      without its last entry and the same width, and has written all but the pending prefix. */
  ghost predicate Lags(b: nat, e: Encoder, d: Decoder, symbols: seq<nat>)
    requires EncoderOk(b, e)
  {
    && d.ioBits == e.ioBits
    && d.out + Expand(b, e.table, e.prefix) == symbols
    && if e.sent == [] then
         d == NewDecoder(b, d.prefix)
       else
         var n := |e.table| - 1;
         && !d.first
         && d.table == e.table[..n]
         && d.prefix == e.table[n].prefix
         && e.table[n].value == Expand(b, e.table, e.prefix)[0]
  }

  lemma NewDecoderSound(b: nat, prefix: nat)
    ensures Sound(b, NewDecoder(b, prefix))
  {
  }

  lemma {:induction false} PrefixExpand(b: nat, table: Table, n: nat, code: nat)
    requires Grounded(b, table) && n <= |table| && IsCode(b, code, n)
    ensures Grounded(b, table[..n]) && Expand(b, table[..n], code) == Expand(b, table, code)
    decreases code
  {
    if code >= Start(b) {
      PrefixExpand(b, table, n, table[code - Start(b)].prefix);
    }
  }

  /** The decompressor on the pending prefix: it completes the compressor's last entry, also
      when the code names that very entry. */
  lemma FollowPrefix(b: nat, e: Encoder, d: Decoder, symbols: seq<nat>)
    requires b >= 2 && EncoderOk(b, e) && Sound(b, d) && Lags(b, e, d, symbols)
    ensures var o := DecodeCode(b, d, e.prefix);
            o.More? && o.d.table == e.table && o.d.prefix == e.prefix && !o.d.first && o.d.out == symbols
    ensures e.prefix >= Start(b) + |d.table| ==> !d.first && e.prefix == Start(b) + |d.table| == Start(b) + |e.table| - 1
    ensures var o := DecodeCode(b, d, e.prefix);
            o.d.ioBits == if |e.table| + Start(b) == Pow2(e.ioBits) then e.ioBits + 1 else e.ioBits
  {
    var code := e.prefix;
    if e.sent == [] {
      assert code < Pow2(b);
      Pow2Strict(1, b);
    } else {
      var n := |e.table| - 1;
      assert e.table == d.table + [e.table[n]];
      if code < Start(b) + n {
        PrefixExpand(b, e.table, n, code);
      } else {
        assert code == Start(b) + n;
        PrefixExpand(b, e.table, n, d.prefix);
        assert Expand(b, e.table, code)[0] == Expand(b, e.table, d.prefix)[0];
      }
    }
  }

  lemma LagHit(b: nat, e: Encoder, d: Decoder, symbols: seq<nat>, symbol: nat)
    requires EncoderOk(b, e) && Lags(b, e, d, symbols) && symbol < Pow2(b)
    requires Find(e.table, Entry(e.prefix, symbol)) < |e.table|
    ensures var next := EncodeSymbol(b, e, symbol);
            next.sent == e.sent && EncoderOk(b, next) && Lags(b, next, d, symbols + [symbol])
  {
    EncodeSymbolOk(b, e, symbol);
    HitExpands(b, e.table, Find(e.table, Entry(e.prefix, symbol)));
    assert d.out + (Expand(b, e.table, e.prefix) + [symbol]) == symbols + [symbol];
  }

  lemma LagMiss(b: nat, e: Encoder, d: Decoder, symbols: seq<nat>, symbol: nat)
    requires b >= 2 && EncoderOk(b, e) && Sound(b, d) && Lags(b, e, d, symbols) && symbol < Pow2(b)
    requires Find(e.table, Entry(e.prefix, symbol)) == |e.table|
    ensures var next, o := EncodeSymbol(b, e, symbol), DecodeCode(b, d, e.prefix);
            && next.sent == e.sent + [Code(e.prefix, e.ioBits)] && EncoderOk(b, next)
            && o.More? && Lags(b, next, o.d, symbols + [symbol])
  {
    EncodeSymbolOk(b, e, symbol);
    FollowPrefix(b, e, d, symbols);
    var next := EncodeSymbol(b, e, symbol);
    assert next.table[..|e.table|] == e.table;
    assert Expand(b, next.table, next.prefix) == [symbol];
  }

  lemma FollowSnoc(b: nat, d: Decoder, codes: seq<Code>, last: Code)
    requires Sound(b, d) && Follow(b, d, codes).Ahead? && Follow(b, d, codes).d.ioBits == last.width
    requires DecodeCode(b, Follow(b, d, codes).d, last.number).More?
    ensures Follow(b, d, codes + [last]) == Ahead(DecodeCode(b, Follow(b, d, codes).d, last.number).d)
  {
    assert (codes + [last])[..|codes|] == codes;
  }

  /** The decompressor `d0` has followed all codes `e` has sent and lags one entry behind. */
  ghost predicate Behind(b: nat, e: Encoder, d0: Decoder, symbols: seq<nat>) {
    && EncoderOk(b, e) && Sound(b, d0)
    && var f := Follow(b, d0, e.sent);
       f.Ahead? && Lags(b, e, f.d, symbols)
  }

  lemma BehindStep(b: nat, e: Encoder, d0: Decoder, symbols: seq<nat>, symbol: nat)
    requires b >= 2 && Behind(b, e, d0, symbols) && symbol < Pow2(b)
    ensures Behind(b, EncodeSymbol(b, e, symbol), d0, symbols + [symbol])
  {
    hide Find, IsCode;
    var d := Follow(b, d0, e.sent).d;
    if Find(e.table, Entry(e.prefix, symbol)) < |e.table| {
      LagHit(b, e, d, symbols, symbol);
    } else {
      LagMiss(b, e, d, symbols, symbol);
      FollowSnoc(b, d0, e.sent, Code(e.prefix, e.ioBits));
    }
  }

  /** Just before each code the decompressor is exactly one entry behind, at the same width. */
  lemma {:induction false} Lag(b: nat, symbols: seq<nat>, prefix: nat)
    requires b >= 2 && symbols != [] && Symbols(b, symbols)
    ensures Behind(b, Encode(b, symbols), NewDecoder(b, prefix), symbols)
    decreases |symbols|
  {
    hide Behind, EncodeSymbol, NewDecoder;
    var n := |symbols| - 1;
    if n == 0 {
      LagFirst(b, symbols[0], prefix);
      assert symbols[1..] == [] && symbols == [symbols[0]];
    } else {
      Lag(b, symbols[..n], prefix);
      EncodeSnoc(b, symbols);
      assert symbols == symbols[..n] + [symbols[n]];
      BehindStep(b, Encode(b, symbols[..n]), NewDecoder(b, prefix), symbols[..n], symbols[n]);
    }
  }

  lemma LagFirst(b: nat, first: nat, prefix: nat)
    requires b >= 2 && first < Pow2(b)
    ensures Behind(b, NewEncoder(b, first), NewDecoder(b, prefix), [first])
  {
    NewEncoderOk(b, first);
  }
}

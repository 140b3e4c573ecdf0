/** Integers as text: `BasicVariable::makeString` and `Parser::readVariable`. */
module Numbers {
  import opened Bits
  import opened Common

  datatype IntType = Uint8 | Uint16 | Uint32 | Int8 | Int16 | Int32

  predicate IsSigned(t: IntType) { t.Int8? || t.Int16? || t.Int32? }

  /** The range checks of `setSignedInteger` and `setUnsignedInteger`. */
  predicate InRange(t: IntType, v: int) {
    match t
    case Uint8 => 0 <= v <= 0xFF
    case Uint16 => 0 <= v <= 0xFFFF
    case Uint32 => 0 <= v <= 0xFFFF_FFFF
    case Int8 => -128 <= v <= 127
    case Int16 => -32768 <= v <= 32767
    case Int32 => -0x8000_0000 <= v <= 0x7FFF_FFFF
  }

  // ----- digits -----

  predicate IsDigit(c: char) { '0' <= c <= '9' }

  predicate IsLetter(c: char) { 'a' <= c <= 'z' || 'A' <= c <= 'Z' }

  predicate IsWordChar(c: char) { IsLetter(c) || IsDigit(c) || c == '_' }

  function Uppercase(c: char): char {
    if 'a' <= c <= 'z' then (c as int - 32) as char else c
  }

  /** The first sixteen characters of the digit strip. */
  function DigitChar(d: nat): char
    requires d < 16
  {
    if d < 10 then (d + 48) as char else (d + 55) as char
  }

  predicate IsBaseDigit(base: nat, c: char) {
    IsDigit(c) || (base == 16 && 'A' <= Uppercase(c) <= 'F')
  }

  function DigitValue(c: char): nat
    requires IsBaseDigit(16, c)
  {
    if IsDigit(c) then c as int - 48 else Uppercase(c) as int - 55
  }

  ghost predicate Digits(base: nat, s: string) {
    forall i :: 0 <= i < |s| ==> IsBaseDigit(base, s[i])
  }

  /** The number a digit string denotes. */
  ghost function Value(base: nat, s: string): nat
    requires Digits(16, s)
  {
    if s == "" then 0
    else Value(base, s[..|s| - 1]) * base + DigitValue(s[|s| - 1])
  }

  lemma ValueSnoc(base: nat, s: string, c: char)
    requires Digits(16, s) && IsBaseDigit(16, c)
    ensures Digits(16, s + [c]) && Value(base, s + [c]) == Value(base, s) * base + DigitValue(c)
  {
    assert (s + [c])[..|s|] == s;
  }

  lemma DigitCharValue(d: nat)
    requires d < 16
    ensures IsBaseDigit(16, DigitChar(d)) && DigitValue(DigitChar(d)) == d && IsWordChar(DigitChar(d))
    ensures d < 10 ==> IsBaseDigit(10, DigitChar(d))
    ensures Printed(DigitChar(d))
  {
  }

  // ----- printing -----

  /** The loop of the unsigned constructor: digits in front, lowest first. */
  method Decimal(number: nat) returns (s: string)
    requires number < UINT
    ensures s != "" && Digits(10, s) && Digits(16, s) && Value(10, s) == number
    ensures s[0] == '0' ==> s == "0"
    ensures forall i :: 0 <= i < |s| ==> IsWordChar(s[i])
  {
    hide Value, Power, DigitChar;
    s := "";
    var x: nat := number;
    NoDigits();
    if number == 0 {
      s := [DigitChar(0)];
      OneDigit(0);
    }
    while x > 0
      invariant Digits(10, s) && Digits(16, s) && (forall i :: 0 <= i < |s| ==> IsWordChar(s[i]))
      invariant number == x * Power(10, |s|) + Value(10, s)
      invariant x == 0 ==> s != "" && (s[0] == '0' ==> s == "0")
    {
      var digit, before := x % 10, s;
      DigitCharValue(digit);
      DecimalStep(x, s);
      s := [DigitChar(digit)] + s;
      x := x / 10;
    }
  }

  lemma NoDigits()
    ensures Digits(10, "") && Digits(16, "") && Value(10, "") == 0 && Power(10, 0) == 1
  {
  }

  lemma OneDigit(d: nat)
    requires d < 10
    ensures var s := [DigitChar(d)];
            && Digits(10, s) && Digits(16, s) && Value(10, s) == d && IsWordChar(s[0])
            && (s[0] == '0' <==> d == 0) && (d == 0 ==> s == "0")
  {
    DigitCharValue(d);
    NoDigits();
    ValueSnoc(10, "", DigitChar(d));
    assert "" + [DigitChar(d)] == [DigitChar(d)];
  }

  lemma DecimalStep(x: nat, s: string)
    requires Digits(16, s)
    ensures var c := DigitChar(x % 10);
            && IsBaseDigit(16, c) && Digits(16, [c] + s)
            && x * Power(10, |s|) + Value(10, s) == x / 10 * Power(10, |s| + 1) + Value(10, [c] + s)
            && (x > 0 && x / 10 == 0 ==> c != '0')
  {
    hide Value, DigitChar, DigitValue;
    var q, d, p := x / 10, x % 10, Power(10, |s|);
    DigitCharValue(d);
    OneDigit(d);
    ValueCons(DigitChar(d), s);
    assert x == q * 10 + d;
    Regroup(q, d, p);
  }

  ghost function Power(base: nat, n: nat): nat {
    if n == 0 then 1 else base * Power(base, n - 1)
  }

  lemma Regroup(q: nat, d: nat, p: nat)
    ensures (q * 10 + d) * p == q * (10 * p) + d * p
  {
    assert (q * 10 + d) * p == q * 10 * p + d * p;
  }

  lemma {:induction false} ValueAppend(base: nat, a: string, b: string)
    requires Digits(16, a) && Digits(16, b)
    ensures Digits(16, a + b) && Value(base, a + b) == Value(base, a) * Power(base, |b|) + Value(base, b)
  {
    if b == "" {
      assert a + b == a;
    } else {
      var n := |b| - 1;
      ValueAppend(base, a, b[..n]);
      assert a + b == (a + b[..n]) + [b[n]] && b == b[..n] + [b[n]];
      ValueSnoc(base, a + b[..n], b[n]);
      Distribute(Value(base, a), Power(base, n), Value(base, b[..n]), base);
    }
  }

  lemma Distribute(v: nat, p: nat, w: nat, base: nat)
    ensures (v * p + w) * base == v * (base * p) + w * base
  {
    assert (v * p + w) * base == v * p * base + w * base;
    assert v * p * base == v * (p * base);
  }

  lemma ValueCons(c: char, s: string)
    requires IsBaseDigit(16, c) && Digits(16, s)
    ensures Digits(16, [c] + s) && Value(10, [c] + s) == DigitValue(c) * Power(10, |s|) + Value(10, s)
  {
    hide Power;
    NoDigits();
    ValueSnoc(10, "", c);
    assert "" + [c] == [c];
    ValueAppend(10, [c], s);
  }

  function HexByte(v: nat): string
    requires v < 0x100
  {
    [DigitChar(v / 16)] + [DigitChar(v % 16)]
  }

  function HexWord(v: nat): string
    requires v < 0x1_0000
  {
    HexByte(v / 0x100) + HexByte(v % 0x100)
  }

  function HexDword(v: nat): string
    requires v < UINT
  {
    HexWord(v / 0x1_0000) + HexWord(v % 0x1_0000)
  }

  /** A digit as it is printed: with a capital letter. */
  ghost predicate Printed(c: char) {
    '0' <= c <= '9' || 'A' <= c <= 'F'
  }

  /** `s` is the hexadecimal text of `v` with its leading zeros. */
  ghost predicate HexText(s: string, v: nat, width: nat) {
    && |s| == width && Digits(16, s) && Value(16, s) == v
    && forall i :: 0 <= i < |s| ==> IsWordChar(s[i]) && Printed(s[i])
  }

  lemma HexByteText(v: nat)
    requires v < 0x100
    ensures HexText(HexByte(v), v, 2)
  {
    DigitCharValue(v / 16);
    DigitCharValue(v % 16);
    ValueSnoc(16, "", DigitChar(v / 16));
    assert "" + [DigitChar(v / 16)] == [DigitChar(v / 16)] && Value(16, "") == 0;
    ValueSnoc(16, [DigitChar(v / 16)], DigitChar(v % 16));
  }

  lemma HexWordText(v: nat)
    requires v < 0x1_0000
    ensures HexText(HexWord(v), v, 4)
  {
    HexByteText(v / 0x100);
    HexByteText(v % 0x100);
    ValueAppend(16, HexByte(v / 0x100), HexByte(v % 0x100));
    assert Power(16, 2) == 0x100;
  }

  lemma HexDwordText(v: nat)
    requires v < UINT
    ensures HexText(HexDword(v), v, 8)
  {
    HexWordText(v / 0x1_0000);
    HexWordText(v % 0x1_0000);
    ValueAppend(16, HexWord(v / 0x1_0000), HexWord(v % 0x1_0000));
    assert Power(16, 2) == 0x100;
    assert Power(16, 4) == 0x1_0000;
  }

  /** `makeString`: signed types in decimal, unsigned ones in hexadecimal. The absolute value
      of the least 32-bit integer is undefined in the source. */
  method MakeString(t: IntType, v: int) returns (s: string)
    requires InRange(t, v) && v != -0x8000_0000
    ensures Prints(t, v, s)
  {
    if IsSigned(t) {
      var digits := Decimal(if v < 0 then -v else v);
      s := (if v < 0 then "-" else "") + digits;
      assert v < 0 ==> s[1..] == digits;
      assert v >= 0 ==> s == digits;
    } else if t.Uint8? {
      HexByteText(v);
      s := "0x" + HexByte(v);
      assert s[2..] == HexByte(v);
    } else if t.Uint16? {
      HexWordText(v);
      s := "0x" + HexWord(v);
      assert s[2..] == HexWord(v);
    } else {
      HexDwordText(v);
      s := "0x" + HexDword(v);
      assert s[2..] == HexDword(v);
    }
  }

  /** How many hexadecimal digits a value of an unsigned type has. */
  ghost function HexWidth(t: IntType): nat {
    if t.Uint8? then 2 else if t.Uint16? then 4 else 8
  }

  /** What the text of a value looks like. */
  ghost predicate Prints(t: IntType, v: int, s: string) {
    if IsSigned(t) then
      if v < 0 then s != "" && s[0] == '-' && DecimalText(s[1..], -v)
      else DecimalText(s, v)
    else
      v >= 0 && |s| > 2 && s[..2] == "0x" && HexText(s[2..], v, HexWidth(t))
  }

  ghost predicate DecimalText(s: string, v: nat) {
    && s != "" && Digits(10, s) && Digits(16, s) && Value(10, s) == v && (s[0] == '0' ==> s == "0")
    && forall i :: 0 <= i < |s| ==> IsWordChar(s[i])
  }

  // ----- parsing -----

  /** A number word without its long mark. */
  function Unmarked(s: string): (r: string)
    ensures r <= s
  {
    if s != "" && Uppercase(s[|s| - 1]) == 'L' then s[..|s| - 1] else s
  }

  /** The words `isCUnsignedInteger` accepts: 0, decimal not starting with 0, or 0x and
      hexadecimal, the last two with an optional long mark. */
  ghost predicate IsNumber(word: string)
    requires word != ""
  {
    if word[0] == '0' then
      |word| == 1 || (word[1] == 'x' && Digits(16, Unmarked(word[2..])))
    else Digits(10, Unmarked(word))
  }

  ghost function NumberValue(word: string): nat
    requires word != "" && IsNumber(word)
  {
    if word[0] == '0' then if |word| == 1 then 0 else Value(16, Unmarked(word[2..]))
    else Value(10, Unmarked(word))
  }

  class Parser {
    const data: string
    var pointer: nat

    ghost predicate Valid()
      reads this
    {
      pointer <= |data|
    }

    constructor (data: string)
      ensures Valid() && this.data == data && pointer == 0
    {
      this.data, pointer := data, 0;
    }

    predicate IsEOS()
      requires Valid()
      reads this
    {
      pointer == |data| || data[pointer] == '\0'
    }

    /** `readCString(false)`: one character of any kind, then letters, digits and underscores. */
    method ReadCString() returns (r: Result<string>)
      requires Valid()
      modifies this
      ensures Valid()
      ensures r.Error? <==> old(IsEOS())
      ensures r.Ok? ==>
                && old(pointer) < pointer && r.value == data[old(pointer)..pointer]
                && (forall i :: old(pointer) < i < pointer ==> IsWordChar(data[i]))
                && (pointer < |data| ==> !IsWordChar(data[pointer]))
    {
      if IsEOS() {
        return Error;
      }
      var from := pointer;
      pointer := pointer + 1;
      while !IsEOS() && IsWordChar(data[pointer])
        invariant Valid() && from < pointer
        invariant forall i :: from < i < pointer ==> IsWordChar(data[i])
        decreases |data| - pointer
      {
        pointer := pointer + 1;
      }
      return Ok(data[from..pointer]);
    }

    /** `readSignedValue`. */
    method ReadSignedValue() returns (r: Result<bool>)
      requires Valid()
      modifies this
      ensures Valid()
      ensures r.Error? <==> old(IsEOS())
      ensures r.Ok? ==> r.value == (data[old(pointer)] == '-')
                        && pointer == old(pointer) + if data[old(pointer)] in "-+" then 1 else 0
    {
      if IsEOS() {
        return Error;
      }
      if data[pointer] == '-' {
        pointer := pointer + 1;
        return Ok(true);
      } else if data[pointer] == '+' {
        pointer := pointer + 1;
      }
      return Ok(false);
    }

    /** The digits of a word from `start`; the accumulator wraps at 32 bits. */
    static method Accumulate(base: nat, word: string) returns (r: Result<nat>)
      requires base == 10 || base == 16
      ensures r.Ok? <==> Digits(base, Unmarked(word))
      ensures r.Ok? ==> Digits(16, Unmarked(word)) && r.value == Value(base, Unmarked(word)) % UINT
    {
      hide Value, DigitValue, Uppercase, IsBaseDigit;
      NoValue(base);
      var ret := 0;
      var i := 0;
      assert word[..0] == "";
      while i < |word|
        invariant 0 <= i <= |word|
        invariant Digits(base, word[..i]) && Digits(16, word[..i])
        invariant forall k :: 0 <= k < i ==> Uppercase(word[k]) != 'L'
        invariant ret == Value(base, word[..i]) % UINT
      {
        var nextDigit := Uppercase(word[i]);
        if nextDigit == 'L' {
          if i != |word| - 1 {
            LongInside(base, word, i);
            return Error;
          }
          return Ok(ret);
        }
        if !IsBaseDigit(base, word[i]) {
          LongInside(base, word, i);
          return Error;
        }
        BaseDigit(base, word[i]);
        ValueSnoc(base, word[..i], word[i]);
        assert word[..i + 1] == word[..i] + [word[i]];
        WrapStep(Value(base, word[..i]), base, DigitValue(word[i]));
        ret := (ret * base + DigitValue(word[i])) % UINT;
        i := i + 1;
      }
      assert word[..|word|] == word;
      return Ok(ret);
    }

    /** `readCUnsignedInteger`. */
    method ReadCUnsignedInteger() returns (r: Result<nat>)
      requires Valid()
      modifies this
      ensures Valid()
      ensures old(IsEOS()) ==> r.Error?
      ensures !old(IsEOS()) ==>
                && old(pointer) < pointer
                && (forall i :: old(pointer) < i < pointer ==> IsWordChar(data[i]))
                && (pointer < |data| ==> !IsWordChar(data[pointer]))
                && var word := data[old(pointer)..pointer];
                   && (r.Ok? <==> IsNumber(word))
                   && (r.Ok? ==> r.value == NumberValue(word) % UINT)
    {
      var number := ReadCString();
      if number.Error? {
        return Error;
      }
      var word := number.value;
      if word[0] == '0' {
        if |word| == 1 {
          return Ok(0);
        }
        if word[1] != 'x' {
          return Error;
        }
        r := Accumulate(16, word[2..]);
      } else {
        r := Accumulate(10, word);
      }
    }

    /** The first part of `readVariable`: a sign for the signed types, then a number word. */
    method ReadParts(t: IntType) returns (isNegative: bool, number: Result<nat>)
      requires Valid()
      modifies this
      ensures Valid()
      ensures var from := old(pointer);
              var mid := if IsSigned(t) && from < |data| && data[from] in "-+" then from + 1 else from;
              if from == |data| || data[from] == '\0' || mid == |data| || data[mid] == '\0' then number.Error?
              else
                && isNegative == (IsSigned(t) && data[from] == '-')
                && mid < pointer
                && (forall i :: mid < i < pointer ==> IsWordChar(data[i]))
                && (pointer < |data| ==> !IsWordChar(data[pointer]))
                && (number.Ok? <==> IsNumber(data[mid..pointer]))
                && (number.Ok? ==> number.value == NumberValue(data[mid..pointer]) % UINT)
    {
      hide NumberValue, IsNumber;
      isNegative := false;
      if IsSigned(t) {
        var sign := ReadSignedValue();
        if sign.Error? {
          return false, Error;
        }
        isNegative := sign.value;
      }
      number := ReadCUnsignedInteger();
    }

    /** `readVariable` for the integer types. It accepts a number word exactly when some value of
        the type is what the signed word denotes modulo 2^32, and returns that value; a minus
        sign takes at most 2^31. */
    method ReadVariable(t: IntType) returns (r: Result<int>)
      requires Valid()
      modifies this
      ensures Valid()
      ensures var from := old(pointer);
              var mid := if IsSigned(t) && from < |data| && data[from] in "-+" then from + 1 else from;
              if from == |data| || data[from] == '\0' || mid == |data| || data[mid] == '\0' then r.Error?
              else
                && mid < pointer
                && (forall i :: mid < i < pointer ==> IsWordChar(data[i]))
                && (pointer < |data| ==> !IsWordChar(data[pointer]))
                && Reads(t, IsSigned(t) && data[from] == '-', data[mid..pointer], r)
    {
      hide NumberValue, IsNumber;
      ghost var mid := if IsSigned(t) && pointer < |data| && data[pointer] in "-+" then pointer + 1 else pointer;
      var isNegative, number := ReadParts(t);
      ghost var word := if mid < pointer then data[mid..pointer] else "";
      if number.Error? {
        return Error;
      }
      if isNegative {
        if number.value > 0x8000_0000 {
          return Error;
        }
        CheckedReads(t, true, word, number.value, ToInt32(UINT - number.value));
        return Checked(t, ToInt32(UINT - number.value));
      }
      CheckedReads(t, false, word, number.value, if IsSigned(t) then ToInt32(number.value) else number.value);
      return Checked(t, if IsSigned(t) then ToInt32(number.value) else number.value);
    }
  }

  function Negated(isNegative: bool, n: int): int {
    if isNegative then -n else n
  }

  /** Two numbers that differ by a multiple of 2^32. */
  ghost predicate Congruent(a: int, b: int) {
    (a - b) % UINT == 0
  }

  /** What reading a number word with or without a minus sign gives. */
  ghost predicate Reads(t: IntType, isNegative: bool, word: string, r: Result<int>)
    requires word != ""
  {
    && (r.Ok? ==>
          && IsNumber(word) && InRange(t, r.value)
          && Congruent(r.value, Negated(isNegative, NumberValue(word)))
          && (isNegative ==> NumberValue(word) % UINT <= 0x8000_0000))
    && (r.Error? ==>
          || !IsNumber(word)
          || (isNegative && NumberValue(word) % UINT > 0x8000_0000)
          || forall v :: InRange(t, v) ==>
               !Congruent(v, Negated(isNegative, NumberValue(word))))
  }

  /** Values of one type that differ by a multiple of 2^32 are equal. */
  lemma CongruentEqual(t: IntType, v: int, w: int, n: int)
    requires InRange(t, v) && (InRange(t, w) || (IsSigned(t) && InRange(Int32, w)))
    requires Congruent(v, n) && Congruent(w, n)
    ensures v == w
  {
    assert (v - w) % UINT == 0;
  }

  /** The result of the range check reads the word. */
  lemma CheckedReads(t: IntType, isNegative: bool, word: string, n: nat, w: int)
    requires word != "" && IsNumber(word) && n == NumberValue(word) % UINT
    requires isNegative ==> IsSigned(t) && n <= 0x8000_0000 && w == ToInt32(UINT - n)
    requires !isNegative ==> w == if IsSigned(t) then ToInt32(n) else n
    ensures Reads(t, isNegative, word, Checked(t, w))
  {
    hide IsNumber, NumberValue;
    var signed: int := Negated(isNegative, NumberValue(word));
    assert Congruent(w, signed) by {
      Wraps(NumberValue(word), n);
    }
    forall v | InRange(t, v) && Congruent(v, signed)
      ensures v == w
    {
      CongruentEqual(t, v, w, signed);
    }
  }

  lemma MultipleCongruent(a: int, b: int, k: int)
    requires a - b == k * UINT
    ensures Congruent(a, b)
  {
  }

  lemma Wraps(value: nat, n: nat)
    requires n == value % UINT
    ensures Congruent(n, value) && Congruent(ToInt32(n), value)
    ensures Congruent(UINT - n, Negated(true, value)) && Congruent(ToInt32(UINT - n), Negated(true, value))
  {
    hide Congruent;
    var q, r := Euclid(value, UINT);
    var k: int := q;
    MultipleCongruent(n, value, -k);
    MultipleCongruent(UINT - n, Negated(true, value), k + 1);
    var up, down := ToInt32(n), ToInt32(UINT - n);
    assert up == n || up == n - UINT;
    MultipleCongruent(up, value, if up == n then -k else -k - 1);
    assert down == UINT - n || down == 0 - n;
    MultipleCongruent(down, Negated(true, value), if down == UINT - n then k + 1 else k);
  }

  /** A text without its minus sign. */
  ghost function Unsigned(v: int, text: string): string {
    if v < 0 && text != "" then text[1..] else text
  }

  /** The text of a value of the type stands at a place of the data. */
  ghost predicate Expected(t: IntType, v: int, text: string, data: string, from: nat) {
    InRange(t, v) && v != -0x8000_0000 && Prints(t, v, text) && Ahead(data, from, text)
  }

  /** A 32-bit number read as a signed one. */
  function ToInt32(n: nat): int {
    var m := n % UINT;
    if m >= 0x8000_0000 then m - UINT else m
  }

  /** `setSignedInteger`, `setUnsignedInteger`. */
  function Checked(t: IntType, v: int): (r: Result<int>)
    ensures r.Ok? <==> InRange(t, v)
    ensures r.Ok? ==> r.value == v
  {
    if InRange(t, v) then Ok(v) else Error
  }

  /** The text stands at the position and no word goes on behind it. */
  ghost predicate Ahead(data: string, from: nat, text: string) {
    from + |text| <= |data| && data[from..from + |text|] == text
    && (from + |text| < |data| ==> !IsWordChar(data[from + |text|]))
  }

  lemma NoValue(base: nat)
    ensures Digits(base, "") && Digits(16, "") && Value(base, "") == 0
  {
  }

  lemma BaseDigit(base: nat, c: char)
    requires base == 10 || base == 16
    requires IsBaseDigit(base, c)
    ensures IsBaseDigit(16, c)
  {
  }

  /** A character that is no digit spoils the word, unless it is the mark at the end. */
  lemma LongInside(base: nat, word: string, i: nat)
    requires base == 10 || base == 16
    requires i < |word| && (if Uppercase(word[i]) == 'L' then i != |word| - 1 else !IsBaseDigit(base, word[i]))
    ensures !Digits(base, Unmarked(word))
  {
    assert Unmarked(word)[i] == word[i];
    assert !IsBaseDigit(base, word[i]);
  }

  /** Printed digits carry no long mark and denote what was printed. */
  lemma PrintedDecimal(word: string, v: nat)
    requires DecimalText(word, v) && v < UINT
    ensures word != "" && IsNumber(word) && NumberValue(word) == v && v % UINT == v
  {
    assert IsBaseDigit(10, word[|word| - 1]);
    if word[0] == '0' {
      NoDigits();
      OneDigit(0);
    }
  }

  lemma PrintedHex(word: string, v: nat, width: nat)
    requires |word| > 2 && word[..2] == "0x" && HexText(word[2..], v, width) && v < UINT
    ensures IsNumber(word) && NumberValue(word) == v && v % UINT == v
  {
    assert word[0] == '0' && word[1] == 'x';
    assert IsBaseDigit(16, word[2..][|word| - 3]);
  }

  /** The word a run of word characters makes is all of it. */
  lemma WholeWord(data: string, from: nat, word: string, end: nat)
    requires Ahead(data, from, word) && word != "" && (forall i :: 1 <= i < |word| ==> IsWordChar(word[i]))
    requires from < end <= |data| && (forall i :: from < i < end ==> IsWordChar(data[i]))
    requires end < |data| ==> !IsWordChar(data[end])
    ensures end == from + |word| && data[from..end] == word
  {
    forall i | from + 1 <= i < from + |word|
      ensures IsWordChar(data[i])
    {
      assert data[from..from + |word|][i - from] == word[i - from];
    }
  }

  /** A printed number starts with a sign if it is negative, and goes on as one word. */
  lemma PrintedFirst(t: IntType, v: int, text: string, data: string, from: nat)
    requires Expected(t, v, text, data, from)
    ensures text != "" && from < |data| && data[from] == text[0] && text[0] != '\0'
    ensures v < 0 ==> IsSigned(t) && text[0] == '-'
    ensures v >= 0 ==> text[0] !in "-+"
    ensures |Unsigned(v, text)| == |text| - if v < 0 then 1 else 0
    ensures var word := Unsigned(v, text);
            var mid := if v < 0 then from + 1 else from;
            && word != "" && Ahead(data, mid, word) && data[mid] != '\0'
            && forall i :: 1 <= i < |word| ==> IsWordChar(word[i])
  {
    assert data[from] == data[from..from + |text|][0];
    if v < 0 {
      var word := text[1..];
      assert data[from + 1..from + 1 + |word|] == data[from..from + |text|][1..];
      assert IsWordChar(word[0]) && data[from + 1] == word[0];
    } else if IsSigned(t) {
      assert IsWordChar(text[0]);
    } else {
      HexChars(text, v, HexWidth(t));
      assert text[0] == text[..2][0];
    }
  }

  lemma PrintedWord(t: IntType, v: int, text: string)
    requires InRange(t, v) && v != -0x8000_0000 && Prints(t, v, text)
    ensures var word := Unsigned(v, text);
            word != "" && IsNumber(word) && NumberValue(word) % UINT == if v < 0 then -v else v
  {
    var word := Unsigned(v, text);
    hide DecimalText, HexText, IsNumber, NumberValue;
    if v < 0 {
      PrintedDecimal(word, -v);
    } else if IsSigned(t) {
      PrintedDecimal(word, v);
    } else {
      PrintedHex(word, v, HexWidth(t));
    }
  }

  lemma HexChars(text: string, v: nat, width: nat)
    requires |text| > 2 && text[..2] == "0x" && HexText(text[2..], v, width)
    ensures forall i :: 1 <= i < |text| ==> IsWordChar(text[i])
  {
    forall i | 1 <= i < |text|
      ensures IsWordChar(text[i])
    {
      if i == 1 {
        assert text[1] == text[..2][1];
      } else {
        assert text[i] == text[2..][i - 2];
      }
    }
  }

  /** What reads the word of a printed value is the value. */
  lemma PrintedReads(t: IntType, v: int, text: string, r: Result<int>)
    requires InRange(t, v) && v != -0x8000_0000 && Prints(t, v, text) && Unsigned(v, text) != ""
    requires Reads(t, v < 0, Unsigned(v, text), r)
    ensures r == Ok(v)
  {
    PrintedWord(t, v, text);
    hide IsNumber, NumberValue, Prints, Unsigned;
    var value := NumberValue(Unsigned(v, text));
    var n: nat := if v < 0 then -v else v;
    Wraps(value, n);
    var signed: int := Negated(v < 0, value);
    assert Congruent(v, signed);
    if r.Ok? {
      CongruentEqual(t, r.value, v, signed);
    }
  }

  /** Every value but the least 32-bit one comes back from its own text, whatever non-word
      text follows. */
  method PrintAndRead(t: IntType, v: int, tail: string) returns (r: Result<int>)
    requires InRange(t, v) && v != -0x8000_0000
    requires tail != "" ==> !IsWordChar(tail[0])
    ensures r == Ok(v)
  {
    hide Prints, Reads, Unsigned, Ahead;
    var text := MakeString(t, v);
    var parser := new Parser(text + tail);
    assert Ahead(text + tail, 0, text) by {
      TextAhead(text, tail);
    }
    PrintedFirst(t, v, text, text + tail, 0);
    r := parser.ReadVariable(t);
    var mid := if v < 0 then 1 else 0;
    WholeWord(text + tail, mid, Unsigned(v, text), parser.pointer);
    PrintedReads(t, v, text, r);
  }

  lemma TextAhead(text: string, tail: string)
    requires tail != "" ==> !IsWordChar(tail[0])
    ensures Ahead(text + tail, 0, text)
  {
    assert (text + tail)[0..|text|] == text;
  }

  lemma WrapStep(v: nat, base: nat, d: nat)
    ensures (v % UINT * base + d) % UINT == (v * base + d) % UINT
  {
    var q, r := Euclid(v, UINT);
    assert v * base + d == (r * base + d) + (q * base) * UINT by {
      assert v * base == (q * UINT + r) * base == q * UINT * base + r * base;
      assert q * UINT * base == (q * base) * UINT;
    }
    AddMultiple(r * base + d, q * base, UINT);
  }

  lemma AddMultiple(n: nat, k: nat, d: nat)
    requires d >= 1
    ensures (n + k * d) % d == n % d
  {
    var q, r := Euclid(n, d);
    var q2, r2 := Euclid(n + k * d, d);
    assert (q + k) * d == q * d + k * d;
    DivisionUnique(d, q + k, r, q2, r2);
  }

  // ----- the characters themselves -----

  /** The digits as the source lists them, and as they may be read. */
  const STRIP: string := "0123456789ABCDEF"
  const LOWER_STRIP: string := "0123456789abcdef"

  /** Digits are printed off the strip and read in either case, for what they stand for. */
  lemma DigitsFromStrip(d: nat)
    requires d < 16
    ensures |STRIP| == |LOWER_STRIP| == 16 && DigitChar(d) == STRIP[d]
    ensures IsBaseDigit(16, STRIP[d]) && DigitValue(STRIP[d]) == d
    ensures IsBaseDigit(16, LOWER_STRIP[d]) && DigitValue(LOWER_STRIP[d]) == d
    ensures d < 10 <==> IsBaseDigit(10, STRIP[d])
  {
  }

  /** Nothing else is a digit. */
  lemma OnlyDigits(c: char)
    ensures IsBaseDigit(10, c) <==> c in STRIP[..10]
    ensures IsBaseDigit(16, c) <==> c in STRIP || c in LOWER_STRIP
  {
    if IsBaseDigit(16, c) {
      var d := DigitValue(c);
      assert c == STRIP[d] || c == LOWER_STRIP[d];
    }
    if IsBaseDigit(10, c) {
      assert c == STRIP[..10][DigitValue(c)];
    }
    if k: nat :| k < |LOWER_STRIP| && c == LOWER_STRIP[k] {
      DigitsFromStrip(k);
    }
    if k: nat :| k < |STRIP| && c == STRIP[k] {
      DigitsFromStrip(k);
    }
    if k: nat :| k < 10 && c == STRIP[k] {
      DigitsFromStrip(k);
    }
  }

  const CAPITALS: string := "ABCDEFGHIJKLMNOPQRSTUVWXYZ"
  const SMALL: string := "abcdefghijklmnopqrstuvwxyz"

  lemma CapitalLetters(c: char)
    ensures 'A' <= c <= 'Z' <==> c in CAPITALS
  {
    if 'A' <= c <= 'Z' {
      assert c == CAPITALS[c as int - 65];
    }
  }

  lemma SmallLetters(c: char)
    ensures 'a' <= c <= 'z' <==> c in SMALL
  {
    if 'a' <= c <= 'z' {
      assert c == SMALL[c as int - 97];
    }
  }

  /** A word goes on with a letter, a digit or an underscore. */
  lemma WordCharacters(c: char)
    ensures IsWordChar(c) <==> c in CAPITALS || c in SMALL || c in STRIP[..10] || c == '_'
  {
    CapitalLetters(c);
    SmallLetters(c);
    OnlyDigits(c);
  }

  /** The ranges of the types are those of their bits. */
  lemma RangeOfBits(t: IntType, v: int)
    ensures var w := if t.Uint8? || t.Int8? then 8 else if t.Uint16? || t.Int16? then 16 else 32;
            InRange(t, v) <==> if IsSigned(t) then -v <= Pow2(w - 1) && v < Pow2(w - 1) else 0 <= v < Pow2(w)
  {
    assert Pow2(8) == 0x100;
    assert Pow2(16) == 0x1_0000;
    assert Pow2(24) == 0x100_0000;
    assert Pow2(32) == 0x1_0000_0000;
  }

  // ----- case -----

  /** `getLowercase`. */
  function Lowercase(c: char): char {
    if 'A' <= c <= 'Z' then (c as int + 32) as char else c
  }

  function Lowered(s: string): (r: string)
    ensures |r| == |s|
  {
    seq(|s|, i requires 0 <= i < |s| => Lowercase(s[i]))
  }

  /** The same characters but for the case of letters. */
  ghost predicate SameButCase(u: string, v: string) {
    |u| == |v| && forall i :: 0 <= i < |u| ==> Lowercase(u[i]) == Lowercase(v[i])
  }

  lemma CaseOfDigit(c: char, d: char)
    requires Lowercase(c) == Lowercase(d)
    ensures forall base :: IsBaseDigit(base, c) <==> IsBaseDigit(base, d)
    ensures IsBaseDigit(16, c) ==> DigitValue(c) == DigitValue(d)
    ensures Uppercase(c) == 'L' <==> Uppercase(d) == 'L'
  {
  }

  lemma {:induction false} CaseOfValue(base: nat, u: string, v: string)
    requires SameButCase(u, v)
    ensures Digits(base, u) <==> Digits(base, v)
    ensures Digits(16, u) <==> Digits(16, v)
    ensures Digits(16, u) ==> Value(base, u) == Value(base, v)
  {
    hide IsBaseDigit, DigitValue, Lowercase;
    forall i | 0 <= i < |u|
      ensures forall b :: IsBaseDigit(b, u[i]) <==> IsBaseDigit(b, v[i])
    {
      CaseOfDigit(u[i], v[i]);
    }
    if u != "" {
      var n := |u| - 1;
      CaseOfDigit(u[n], v[n]);
      CaseOfValue(base, u[..n], v[..n]);
    }
  }

  lemma CaseOfMark(u: string, v: string)
    requires SameButCase(u, v)
    ensures SameButCase(Unmarked(u), Unmarked(v))
  {
    if u != "" {
      CaseOfDigit(u[|u| - 1], v[|v| - 1]);
    }
  }

  /** Reading ignores the case of all letters but the x of a leading 0x. */
  lemma CaseIgnored(u: string, v: string)
    requires u != "" && SameButCase(u, v) && (u[0] == '0' && |u| > 1 ==> u[1] == v[1])
    ensures IsNumber(u) <==> IsNumber(v)
    ensures IsNumber(u) ==> NumberValue(u) == NumberValue(v)
  {
    hide Value, Digits, Unmarked, Uppercase;
    assert Lowercase(u[0]) == Lowercase(v[0]);
    if u[0] == '0' {
      if |u| > 1 {
        SameButCaseFrom(u, v, 2);
        CaseOfMark(u[2..], v[2..]);
        CaseOfValue(16, Unmarked(u[2..]), Unmarked(v[2..]));
      }
    } else {
      CaseOfMark(u, v);
      CaseOfValue(10, Unmarked(u), Unmarked(v));
      DecimalIsHex(Unmarked(u));
    }
  }

  lemma SameButCaseFrom(u: string, v: string, k: nat)
    requires SameButCase(u, v) && k <= |u|
    ensures SameButCase(u[k..], v[k..])
  {
  }

  lemma DecimalIsHex(s: string)
    ensures Digits(10, s) ==> Digits(16, s)
  {
  }

  /** A long mark of either case changes nothing. */
  lemma MarkIgnored(word: string, mark: char)
    requires word != "" && IsNumber(word) && word != "0" && Unmarked(word) == word && (mark == 'l' || mark == 'L')
    ensures IsNumber(word + [mark]) && NumberValue(word + [mark]) == NumberValue(word)
  {
    hide Value, Digits;
    assert Uppercase(mark) == 'L';
    if word[0] == '0' {
      assert (word + [mark])[2..] == word[2..] + [mark];
      assert (word[2..] + [mark])[..|word| - 2] == word[2..];
      assert |word| > 2 ==> word[2..][|word| - 3] == word[|word| - 1];
    } else {
      assert (word + [mark])[..|word|] == word;
    }
  }

  /** The hexadecimal text of a value in small letters, with or without a long mark, reads as
      that value. */
  method ReadLowered(v: nat, mark: string) returns (r: Result<nat>)
    requires v < UINT && (mark == "" || mark == "l" || mark == "L")
    ensures r == Ok(v)
  {
    hide HexText, IsNumber, NumberValue, HexDword, Lowered, Unmarked, Value;
    HexDwordText(v);
    var text := HexDword(v);
    var word := "0x" + Lowered(text) + mark;
    LoweredReads(v, text, mark);
    var parser := new Parser(word);
    r := parser.ReadCUnsignedInteger();
    LoweredWord(v, text, mark);
    WholeWord(word, 0, word, parser.pointer);
    SmallMod(v, UINT);
  }

  lemma LowercaseSame(c: char)
    ensures Lowercase(Lowercase(c)) == Lowercase(c)
    ensures IsWordChar(c) ==> IsWordChar(Lowercase(c))
  {
  }

  lemma LoweredWord(v: nat, text: string, mark: string)
    requires HexText(text, v, 8) && (mark == "" || mark == "l" || mark == "L")
    ensures var word := "0x" + Lowered(text) + mark;
            forall i :: 0 <= i < |word| ==> IsWordChar(word[i])
  {
    hide Lowercase, IsWordChar;
    assert IsWordChar('0') && IsWordChar('x') && IsWordChar('l') && IsWordChar('L') by {
      MarkChars();
    }
    forall i | 0 <= i < |text|
      ensures IsWordChar(Lowered(text)[i])
    {
      LowercaseSame(text[i]);
    }
  }

  lemma MarkChars()
    ensures IsWordChar('0') && IsWordChar('x') && IsWordChar('l') && IsWordChar('L')
  {
  }

  lemma LoweredReads(v: nat, text: string, mark: string)
    requires HexText(text, v, 8) && v < UINT && (mark == "" || mark == "l" || mark == "L")
    ensures var word := "0x" + Lowered(text) + mark; word != "" && IsNumber(word) && NumberValue(word) == v
  {
    hide Value, Digits, Unmarked, Lowercase, IsNumber, NumberValue, Lowered;
    var upper, lower := "0x" + text, "0x" + Lowered(text);
    assert upper[2..] == text && upper[..2] == "0x";
    PrintedHex(upper, v, 8);
    LoweredSame(text);
    CaseIgnored(upper, lower);
    if mark != "" {
      NoMark(text, v);
      assert lower != "0" && mark == [mark[0]];
      MarkIgnored(lower, mark[0]);
    } else {
      assert lower + mark == lower;
    }
  }

  lemma LoweredSame(text: string)
    ensures SameButCase("0x" + text, "0x" + Lowered(text))
  {
    var u, v := "0x" + text, "0x" + Lowered(text);
    forall i | 0 <= i < |u|
      ensures Lowercase(u[i]) == Lowercase(v[i])
    {
      if i >= 2 {
        LowercaseSame(text[i - 2]);
      }
    }
  }

  lemma NoMark(text: string, v: nat)
    requires HexText(text, v, 8)
    ensures Unmarked("0x" + Lowered(text)) == "0x" + Lowered(text)
  {
    assert IsBaseDigit(16, text[7]);
    assert ("0x" + Lowered(text))[9] == Lowercase(text[7]);
  }
}

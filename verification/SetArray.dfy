/** `cSetArray`: a set of small numbers packed into 32-bit words. */
module SetArrays {
  import opened Bits

  const WORD: nat := 32

  /** A word as its 32 bits. */
  ghost function WordBits(w: nat): (bits: seq<bool>)
    ensures |bits| == WORD
  {
    ToBits(w, WORD)
  }

  /** `((w >> bit) & 1) == 1` */
  function BitOf(w: nat, bit: nat): (on: bool)
    requires bit < WORD
    ensures on == WordBits(w)[bit]
  {
    ToBits(w, WORD)[bit]
  }

  /** `w | (1 << bit)` when `on`, `w & ~(1 << bit)` otherwise. */
  function Changed(w: nat, bit: nat, on: bool): (r: nat)
    requires bit < WORD
    ensures WordBits(r) == WordBits(w)[bit := on] && r < Pow2(WORD)
  {
    var bits := ToBits(w, WORD)[bit := on];
    ToFromBits(bits);
    FromBitsBound(bits);
    assert |bits| == WORD;
    FromBits(bits)
  }

  lemma {:induction false} ZeroBits(n: nat, width: nat)
    requires n == 0
    ensures forall i :: 0 <= i < width ==> !ToBits(n, width)[i]
  {
    if width > 0 {
      ZeroBits(n / 2, width - 1);
    }
  }

  lemma ZeroOff(w: nat)
    requires w == 0
    ensures forall i :: 0 <= i < WORD ==> !BitOf(w, i)
    ensures w < Pow2(WORD)
  {
    hide ToBits;
    ZeroBits(w, WORD);
  }

  /** How many words hold so many bits. */
  function Words(length: nat): (n: nat)
    ensures length <= 32 * n < length + 32
  {
    (length + 31) / 32
  }

  ghost predicate InWords(data: seq<nat>) {
    forall i :: 0 <= i < |data| ==> data[i] < Pow2(WORD)
  }

  predicate IsOn(data: seq<nat>, location: nat)
    requires location / 32 < |data|
  {
    BitOf(data[location / 32], location % 32)
  }

  /** Location 32 * w + k is bit k of word w. */
  lemma PlaceOfBit(data: seq<nat>, location: nat)
    requires location / 32 < |data|
    ensures IsOn(data, location) <==> data[location / 32] / Pow2(location % 32) % 2 == 1
  {
    hide ToBits, Pow2;
    ToBitsAt(data[location / 32], WORD, location % 32);
  }

  class SetArray {
    var data: seq<nat>
    var length: nat

    /** There may be stale bits past the length, in the last word only. */
    ghost predicate Valid()
      reads this
    {
      |data| == Words(length) && InWords(data)
    }

    ghost function Members(): set<nat>
      requires Valid()
      reads this
    {
      set i: nat | i < length && IsOn(data, i)
    }

    /** New words hold whatever was in memory. */
    constructor (initializedSize: nat, shouldResetArray: bool, resetAsSet: bool)
      ensures Valid() && length == initializedSize
      ensures shouldResetArray ==>
                forall i: nat :: i in Members() <==> resetAsSet && i < initializedSize
    {
      hide ToBits, Pow2, IsOn, InWords, Members;
      length := initializedSize;
      data := *;
      new;
      data := Memory(Words(initializedSize));
      if shouldResetArray {
        ResetArray();
        if resetAsSet {
          for i := 0 to initializedSize
            invariant Valid() && length == initializedSize
            invariant forall k: nat :: k in Members() <==> k < i
          {
            var ok := Put(i, true);
          }
        }
      }
    }

    lemma InLength()
      requires Valid()
      ensures forall i :: i in Members() ==> 0 <= i < length
    {
    }

    /** `isSet`; a location out of range throws. */
    method IsSet(location: nat) returns (ok: bool, on: bool)
      requires Valid()
      ensures ok <==> location < length
      ensures ok ==> on == (location in Members())
    {
      if location >= length {
        return false, false;
      }
      return true, IsOn(data, location);
    }

    /** `set` and `clear`; a location out of range throws. */
    method Put(location: nat, on: bool) returns (ok: bool)
      requires Valid()
      modifies this`data
      ensures Valid() && ok == (location < length)
      ensures Members() == if !ok then old(Members()) else if on then old(Members()) + {location}
                           else old(Members()) - {location}
    {
      if location >= length {
        return false;
      }
      hide ToBits, Pow2;
      var w := location / 32;
      ghost var before := data;
      data := data[w := Changed(data[w], location % 32, on)];
      forall i: nat | i < length
        ensures IsOn(data, i) == if i == location then on else IsOn(before, i)
      {
      }
      return true;
    }

    method ResetArray()
      requires Valid()
      modifies this`data
      ensures Valid() && Members() == {}
    {
      hide ToBits, Pow2;
      var zero: nat := 0;
      data := seq(|data|, _ => zero);
      ZeroOff(zero);
    }

    /** `first`: the least member, or the length. */
    method First() returns (location: nat)
      requires Valid()
      ensures location <= length
      ensures location < length ==> location in Members()
      ensures forall i :: i in Members() ==> location <= i
    {
      hide ToBits, Pow2;
      var arrayIndex := 0;
      var arraySize := Words(length);
      while arrayIndex < arraySize && data[arrayIndex] == 0
        invariant 0 <= arrayIndex <= arraySize
        invariant forall i: nat :: i < 32 * arrayIndex && i < length ==> !IsOn(data, i)
      {
        ZeroOff(data[arrayIndex]);
        arrayIndex := arrayIndex + 1;
      }
      if arrayIndex >= arraySize {
        return length;
      }
      var k := LowestBit(data[arrayIndex], length - arrayIndex * 32);
      location := arrayIndex * 32 + k;
      forall i: nat | i < location
        ensures !IsOn(data, i)
      {
        if 32 * arrayIndex <= i {
          assert i / 32 == arrayIndex && i % 32 == i - 32 * arrayIndex;
        }
      }
    }

    /** The scan of one word in `first`: it gives up `limit` places on. */
    static method LowestBit(w: nat, limit: nat) returns (k: nat)
      requires 0 < w < Pow2(WORD) && limit > 0
      ensures k <= limit && k <= WORD && (k < limit ==> k < WORD && BitOf(w, k))
      ensures forall i :: 0 <= i < k && i < WORD ==> !BitOf(w, i)
    {
      hide ToBits, Pow2;
      var word := w;
      k := 0;
      Whole(w);
      while word % 2 == 0
        invariant 0 <= k < WORD && k < limit
        invariant 0 < word < Pow2(WORD - k)
        invariant ToBits(word, WORD - k) == WordBits(w)[k..]
        invariant forall i :: 0 <= i < k ==> !BitOf(w, i)
        decreases WORD - k
      {
        LowBit(word, WORD - k);
        assert !WordBits(w)[k..][0];
        word := word / 2;
        k := k + 1;
        if k >= limit {
          return;
        }
      }
      LowBit(word, WORD - k);
      assert WordBits(w)[k..][0];
    }

    /** `isSetInOnePlace`. */
    method IsSetInOnePlace() returns (found: bool)
      requires Valid()
      ensures found <==> |Members()| == 1
    {
      hide Members, InWords, ToBits, Pow2;
      InLength();
      found := false;
      ghost var place: nat := 0;
      for i := 0 to length
        invariant found ==> place < i && place in Members() && forall k: nat :: k < i && k in Members() ==> k == place
        invariant !found ==> forall k: nat :: k < i ==> k !in Members()
      {
        var ok, on := IsSet(i);
        if on && found {
          TwoMembers(Members(), place, i);
          return false;
        } else if on {
          found, place := true, i;
        }
      }
      if found {
        assert Members() == {place};
      } else {
        assert Members() == {};
      }
    }

    /** `operator&=` and `operator|=`; sets of different lengths throw. The other set may be
        this one. */
    method Combine(other: SetArray, both: bool) returns (ok: bool)
      requires Valid() && other.Valid()
      modifies this`data
      ensures Valid() && ok == (length == other.length)
      ensures Members() == if !ok then old(Members())
                           else if both then old(Members()) * old(other.Members())
                           else old(Members()) + old(other.Members())
    {
      hide Members, InWords, ToBits, Pow2;
      if length != other.length {
        return false;
      }
      ghost var mine, others := Members(), other.Members();
      InLength();
      other.InLength();
      for i := 0 to length
        invariant Valid() && other.Valid()
        invariant forall k: nat :: k < i ==>
                    (k in Members() <==> if both then k in mine && k in others else k in mine || k in others)
        invariant forall k: nat :: i <= k ==> (k in Members() <==> k in mine)
        invariant forall k: nat :: i <= k ==> (k in other.Members() <==> k in others)
      {
        var ok1, on1 := IsSet(i);
        var ok2, on2 := other.IsSet(i);
        var done := Put(i, if both then on1 && on2 else on1 || on2);
      }
      assert Members() == if both then mine * others else mine + others;
      return true;
    }

    /** `changeSize` with its contents saved. What a growing array finds in its new places,
        stale bits included, is left open. */
    method ChangeSize(newSize: nat)
      requires Valid()
      modifies this
      ensures Valid() && length == newSize
      ensures forall i: nat :: i < newSize && i < old(length) ==> (i in Members() <==> i in old(Members()))
      ensures newSize <= old(length) ==> Members() == set i | i in old(Members()) && i < newSize
    {
      hide ToBits, Pow2, BitOf;
      var arraySize := Words(newSize);
      if arraySize <= |data| {
        data := data[..arraySize];
      } else {
        var more := Memory(arraySize - |data|);
        data := data + more;
      }
      length := newSize;
    }
  }

  /** Words of unknown contents. */
  method Memory(n: nat) returns (words: seq<nat>)
    ensures |words| == n && InWords(words)
  {
    words := [];
    for i := 0 to n
      invariant |words| == i && InWords(words)
    {
      var w: nat := *;
      Euclid32(w);
      words := words + [w % 0x1_0000_0000];
    }
  }

  lemma Euclid32(w: nat)
    ensures w % 0x1_0000_0000 < Pow2(WORD)
  {
    assert Pow2(8) == 0x100;
    assert Pow2(16) == 0x1_0000;
    assert Pow2(24) == 0x100_0000;
    assert Pow2(32) == 0x1_0000_0000;
  }

  lemma Whole(w: nat)
    ensures ToBits(w, WORD) == WordBits(w)[0..]
  {
    hide ToBits;
  }

  /** Halving a word drops its lowest bit. */
  lemma LowBit(word: nat, width: nat)
    requires width >= 1 && word < Pow2(width)
    ensures ToBits(word, width)[0] == (word % 2 == 1)
    ensures ToBits(word / 2, width - 1) == ToBits(word, width)[1..]
    ensures word / 2 < Pow2(width - 1)
    ensures word % 2 == 0 && word != 0 ==> word / 2 != 0 && width >= 2
  {
  }

  lemma TwoMembers(s: set<nat>, a: nat, b: nat)
    requires a in s && b in s && a != b
    ensures |s| != 1
  {
    assert |s - {a}| >= 1 by {
      assert b in s - {a};
    }
  }
}

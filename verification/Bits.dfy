/** Bytes, numbers and their bits. Bit strings list the least significant bit first,
    the order in which `cBitStream` moves bits. */
module Bits {

  newtype byte = b: int | 0 <= b < 256

  function Pow2(n: nat): (p: nat)
    ensures p >= 1
  {
    if n == 0 then 1 else 2 * Pow2(n - 1)
  }

  function Min(a: nat, b: nat): nat {
    if a < b then a else b
  }

  /** The `width` low bits of `n`. */
  function ToBits(n: nat, width: nat): (bits: seq<bool>)
    ensures |bits| == width
  {
    if width == 0 then [] else [n % 2 == 1] + ToBits(n / 2, width - 1)
  }

  function FromBits(bits: seq<bool>): nat {
    if bits == [] then 0 else (if bits[0] then 1 else 0) + 2 * FromBits(bits[1..])
  }

  function ByteBits(b: byte): (bits: seq<bool>)
    ensures |bits| == 8
  {
    ToBits(b as nat, 8)
  }

  function BytesBits(bytes: seq<byte>): (bits: seq<bool>)
    ensures |bits| == 8 * |bytes|
  {
    if bytes == [] then [] else ByteBits(bytes[0]) + BytesBits(bytes[1..])
  }

  lemma Pow2Strict(a: nat, b: nat)
    requires a < b
    ensures 2 * Pow2(a) <= Pow2(b)
  {
    if a + 1 < b {
      Pow2Strict(a, b - 1);
    }
  }

  lemma {:induction false} FromToBits(n: nat, width: nat)
    ensures FromBits(ToBits(n, width)) == n % Pow2(width)
  {
    if width > 0 {
      FromToBits(n / 2, width - 1);
      var p := Pow2(width - 1);
      assert ToBits(n, width)[1..] == ToBits(n / 2, width - 1);
      SplitMod(n, p);
    }
  }

  lemma Euclid(n: nat, d: nat) returns (q: nat, r: nat)
    requires d >= 1
    ensures n == q * d + r && r < d && q == n / d && r == n % d
  {
    q, r := n / d, n % d;
  }

  lemma SplitMod(n: nat, p: nat)
    requires p >= 1
    ensures n % (2 * p) == n % 2 + 2 * (n / 2 % p)
  {
    var q, r := Euclid(n / 2, p);
    var k, s := Euclid(n, 2 * p);
    SplitModQuotients(n, p, q, r, k, s);
  }

  lemma SplitModQuotients(n: nat, p: nat, q: nat, r: nat, k: nat, s: nat)
    requires p >= 1 && n / 2 == q * p + r && r < p && n == k * (2 * p) + s && s < 2 * p
    ensures s == n % 2 + 2 * r
  {
    assert q * (2 * p) == 2 * (q * p);
    DivisionUnique(2 * p, q, 2 * r + n % 2, k, s);
  }

  lemma MultipleAtLeast(k: int, d: nat)
    requires k >= 1
    ensures k * d >= d
  {
  }

  lemma DivisionUnique(d: nat, q: nat, r: nat, k: nat, s: nat)
    requires q * d + r == k * d + s && r < d && s < d
    ensures q == k && r == s
  {
    assert (q - k) * d == q * d - k * d;
    assert (k - q) * d == k * d - q * d;
    if k < q {
      MultipleAtLeast(q - k, d);
    } else if k > q {
      MultipleAtLeast(k - q, d);
    }
  }

  lemma DivideTwice(v: nat, x: nat, y: nat)
    requires x >= 1 && y >= 1
    ensures x * y >= 1 && v / x / y == v / (x * y)
  {
    ProductPositive(x, y);
    var q, r := Euclid(v, x);
    var k, s := Euclid(q, y);
    var m, u := Euclid(v, x * y);
    assert v == (k * y + s) * x + r == k * (x * y) + (s * x + r);
    ProductBelow(s, x, y);
    DivisionUnique(x * y, k, s * x + r, m, u);
  }

  lemma ProductPositive(x: nat, y: nat)
    requires x >= 1 && y >= 1
    ensures x * y >= 1
  {
  }

  lemma ProductBelow(s: nat, x: nat, y: nat)
    requires s < y
    ensures s * x + x <= x * y
  {
    assert (s + 1) * x <= y * x;
  }

  lemma SmallMod(n: nat, d: nat)
    requires n < d
    ensures n % d == n
  {
  }

  /** The bits of a number are listed from the lowest one up. */
  lemma {:induction false} ToBitsAt(n: nat, width: nat, i: nat)
    requires i < width
    ensures ToBits(n, width)[i] <==> n / Pow2(i) % 2 == 1
  {
    if i > 0 {
      ToBitsAt(n / 2, width - 1, i - 1);
      DivideTwice(n, 2, Pow2(i - 1));
    }
  }

  /** Bit `i` of a byte string is bit `i % 8` of byte `i / 8`, the lowest bit being bit 0. */
  lemma {:induction false} BytesBitsAt(bytes: seq<byte>, i: nat)
    requires i < 8 * |bytes|
    ensures BytesBits(bytes)[i] <==> bytes[i / 8] as nat / Pow2(i % 8) % 2 == 1
  {
    hide ToBits, Pow2;
    if i < 8 {
      ToBitsAt(bytes[0] as nat, 8, i);
    } else {
      BytesBitsAt(bytes[1..], i - 8);
      assert (i - 8) / 8 == i / 8 - 1 && (i - 8) % 8 == i % 8;
    }
  }

  /** A number that fits its width survives. */
  lemma FromToBitsFits(n: nat, width: nat)
    requires n < Pow2(width)
    ensures FromBits(ToBits(n, width)) == n
  {
    FromToBits(n, width);
    SmallMod(n, Pow2(width));
  }

  lemma {:induction false} FromBitsBound(bits: seq<bool>)
    ensures FromBits(bits) < Pow2(|bits|)
  {
    if bits != [] {
      FromBitsBound(bits[1..]);
    }
  }

  lemma {:induction false} ToFromBits(bits: seq<bool>)
    ensures ToBits(FromBits(bits), |bits|) == bits
  {
    if bits != [] {
      ToFromBits(bits[1..]);
    }
  }

  lemma {:induction false} FromBitsSnoc(bits: seq<bool>, last: bool)
    ensures FromBits(bits + [last]) == FromBits(bits) + (if last then Pow2(|bits|) else 0)
  {
    if bits == [] {
      assert (bits + [last])[1..] == [];
    } else {
      FromBitsSnoc(bits[1..], last);
      assert (bits + [last])[1..] == bits[1..] + [last];
    }
  }

  lemma {:induction false} BytesBitsAppend(a: seq<byte>, b: seq<byte>)
    ensures BytesBits(a + b) == BytesBits(a) + BytesBits(b)
  {
    hide ByteBits, ToBits;
    if a == [] {
      assert a + b == b;
    } else {
      BytesBitsAppend(a[1..], b);
      assert (a + b)[1..] == a[1..] + b;
      var head, rest, tail := ByteBits(a[0]), BytesBits(a[1..]), BytesBits(b);
      assert head + (rest + tail) == (head + rest) + tail;
    }
  }

  lemma BytesBitsOne(b: byte)
    ensures BytesBits([b]) == ByteBits(b)
  {
    assert [b][1..] == [];
  }

  lemma BytePow()
    ensures Pow2(8) == 256
  {
    assert Pow2(4) == 16;
  }

  lemma ByteFromBits(b: byte)
    ensures FromBits(ByteBits(b)) == b as nat
  {
    hide ToBits, FromBits, Pow2;
    FromToBits(b as nat, 8);
    BytePow();
    SmallMod(b as nat, 256);
  }

  lemma ByteBitsInjective(a: byte, b: byte)
    requires ByteBits(a) == ByteBits(b)
    ensures a == b
  {
    ByteFromBits(a);
    ByteFromBits(b);
  }

  lemma {:induction false} BytesBitsInjective(a: seq<byte>, b: seq<byte>)
    requires BytesBits(a) == BytesBits(b)
    ensures a == b
  {
    assert |a| == |b|;
    if a != [] {
      BytesBitsSplit(a);
      BytesBitsSplit(b);
      ByteBitsInjective(a[0], b[0]);
      BytesBitsInjective(a[1..], b[1..]);
      assert a == [a[0]] + a[1..] && b == [b[0]] + b[1..];
    }
  }

  lemma BytesBitsSplit(a: seq<byte>)
    requires a != []
    ensures BytesBits(a)[..8] == ByteBits(a[0]) && BytesBits(a)[8..] == BytesBits(a[1..])
  {
  }

  lemma BytesBitsPrefix(bytes: seq<byte>, n: nat)
    requires n <= |bytes|
    ensures BytesBits(bytes[..n]) == BytesBits(bytes)[..8 * n]
    ensures BytesBits(bytes[n..]) == BytesBits(bytes)[8 * n..]
  {
    assert bytes == bytes[..n] + bytes[n..];
    BytesBitsAppend(bytes[..n], bytes[n..]);
  }

  /** `(b >> position) & 1` */
  predicate BitAt(b: byte, position: nat)
    requires position < 8
  {
    ByteBits(b)[position]
  }

  /** `b | (1 << position)` when `on`, `b & (0xFF - (1 << position))` otherwise. */
  function WithBit(b: byte, position: nat, on: bool): (r: byte)
    requires position < 8
    ensures ByteBits(r) == ByteBits(b)[position := on]
  {
    var bits := ByteBits(b)[position := on];
    FromBitsBound(bits);
    ToFromBits(bits);
    BytePow();
    FromBits(bits) as byte
  }
}

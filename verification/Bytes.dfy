/** Bytes, network byte order and the fixed-width integers of the C++ code. */
module Bytes {

  type byte = b: int | 0 <= b < 256

  const TWO_31: nat := 0x8000_0000
  const TWO_32: nat := 0x1_0000_0000
  const TWO_64: nat := 0x1_0000_0000_0000_0000

  type int32 = x: int | -0x8000_0000 <= x < 0x8000_0000
  type uint64 = x: int | 0 <= x < 0x1_0000_0000_0000_0000

  /** Number of values of a `width`-byte integer. */
  function Range(width: nat): (r: nat)
    ensures r >= 1
    ensures width > 0 ==> r % 2 == 0
  {
    if width == 0 then 1 else 256 * Range(width - 1)
  }

  /** Conversion to a signed `width`-byte integer: what a C++ narrowing cast does. */
  function ToSigned(x: int, width: nat): int {
    var m := x % Range(width);
    if 2 * m >= Range(width) then m - Range(width) else m
  }

  /** Is `x` representable as a signed `width`-byte integer? */
  predicate Fits(x: int, width: nat) {
    -(Range(width) as int) <= 2 * x < Range(width)
  }

  function ToInt32(x: int): (r: int32)
    ensures 0 <= x ==> r <= x
  {
    var m := x % 0x1_0000_0000;
    if m >= 0x8000_0000 then m - 0x1_0000_0000 else m
  }

  /** The memory image of `HTONxx(x)`: the `width` low-order bytes of `x`, most significant first. */
  function BigEndian(x: int, width: nat): (r: seq<byte>)
    ensures |r| == width
    decreases width
  {
    if width == 0 then [] else BigEndian(x / 256, width - 1) + [x % 256]
  }

  /** The unsigned value of a big-endian byte string. */
  function FromBigEndian(s: seq<byte>): (r: nat)
    ensures r < Range(|s|)
  {
    if s == [] then 0 else FromBigEndian(s[..|s| - 1]) * 256 + s[|s| - 1]
  }

  lemma {:induction false} BigEndianValue(x: int, width: nat)
    ensures FromBigEndian(BigEndian(x, width)) == x % Range(width)
    decreases width
  {
    if width > 0 {
      BigEndianValue(x / 256, width - 1);
      var s := BigEndian(x, width);
      assert s[..|s| - 1] == BigEndian(x / 256, width - 1);
      NestedModulo(x, Range(width - 1));
    }
  }

  lemma NestedModulo(x: int, m: nat)
    requires m > 0
    ensures (x / 256) % m * 256 + x % 256 == x % (256 * m)
  {
    var y := x / 256;
    var r := y % m * 256 + x % 256;
    assert x == (y / m * m + y % m) * 256 + x % 256;
    assert x == (256 * m) * (y / m) + r;
    QuotientUnique(x, 256 * m, y / m, r);
  }

  lemma QuotientUnique(x: int, m: int, q: int, r: int)
    requires 0 <= r < m
    requires x == m * q + r
    ensures x % m == r && x / m == q
  {
    var d := q - x / m;
    assert m * d == m * q - m * (x / m);
    assert m * d == x % m - r;
    if d >= 1 { MultipleAtLeast(m, d); }
    if d <= -1 { MultipleAtLeast(m, -d); }
  }

  /** Whole multiples of 2^32 do not show in an int32. */
  lemma Int32Shift(x: int, q: int)
    ensures ToInt32(x + q * 0x1_0000_0000) == ToInt32(x)
  {
    var m := 0x1_0000_0000;
    QuotientUnique(x + q * m, m, x / m + q, x % m);
  }

  lemma MultipleAtLeast(m: int, d: int)
    requires 0 < m && 1 <= d
    ensures m * d >= m
  {
    assert m * d == m * (d - 1) + m;
  }

  /** Writing a byte string's own value reproduces the byte string. */
  lemma {:induction false} BigEndianInverse(s: seq<byte>)
    ensures BigEndian(FromBigEndian(s), |s|) == s
  {
    if s != [] {
      var init := s[..|s| - 1];
      BigEndianInverse(init);
      assert FromBigEndian(s) / 256 == FromBigEndian(init);
      assert FromBigEndian(s) % 256 == s[|s| - 1];
      assert s == init + [s[|s| - 1]];
    }
  }

  /** The bytes depend only on the value modulo the range. */
  lemma BigEndianCongruent(x: int, y: int, width: nat)
    requires x % Range(width) == y % Range(width)
    ensures BigEndian(x, width) == BigEndian(y, width)
  {
    BigEndianValue(x, width);
    BigEndianValue(y, width);
    BigEndianInverse(BigEndian(x, width));
    BigEndianInverse(BigEndian(y, width));
  }

  lemma BigEndianOfSigned(u: nat, width: nat)
    requires u < Range(width)
    ensures BigEndian(ToSigned(u, width), width) == BigEndian(u, width)
  {
    var m := Range(width);
    QuotientUnique(u, m, 0, u);
    if 2 * u >= m {
      QuotientUnique(u - m, m, -1, u);
    }
    BigEndianCongruent(ToSigned(u, width), u, width);
  }

  lemma SignedFits(x: int, width: nat)
    requires width > 0
    ensures Fits(ToSigned(x, width), width)
  {
  }

  /** Integers of every width survive the trip through network byte order. */
  lemma SignedRoundTrip(x: int, width: nat)
    requires width > 0
    ensures Fits(x, width) <==> ToSigned(FromBigEndian(BigEndian(x, width)), width) == x
  {
    BigEndianValue(x, width);
    SignedResidue(x, Range(width));
    SignedResidue(x % Range(width), Range(width));
  }

  /** Reduction to the symmetric range around zero, for an even modulus. */
  lemma SignedResidue(x: int, m: int)
    requires m > 0
    ensures x % m % m == x % m
    ensures -m <= 2 * x < m <==> x == (if 2 * (x % m) >= m then x % m - m else x % m)
  {
    var r := x % m;
    QuotientUnique(r, m, 0, r);
    if 0 <= 2 * x < m {
      QuotientUnique(x, m, 0, x);
    } else if -m <= 2 * x < 0 {
      QuotientUnique(x, m, -1, x + m);
    }
  }

  lemma Range4()
    ensures Range(4) == TWO_32
  {
    assert Range(1) == 256;
    assert Range(2) == 0x1_0000;
    assert Range(3) == 0x100_0000;
  }

  lemma Int32Fits(x: int32)
    ensures Fits(x, 4) && ToInt32(x) == x
  {
    Range4();
  }

  lemma Int32Signed(x: int)
    ensures ToSigned(x, 4) == ToInt32(x)
  {
    Range4();
  }

  /** A 32-bit word in network byte order is read back as the int32 it converts to. */
  lemma WordValue(x: int)
    ensures ToInt32(FromBigEndian(BigEndian(x, 4))) == ToInt32(x)
  {
    Range4();
    BigEndianValue(x, 4);
  }

  /** Two words have the same four bytes exactly when they are the same int32. */
  lemma WordInjective(x: int, y: int)
    ensures BigEndian(x, 4) == BigEndian(y, 4) <==> ToInt32(x) == ToInt32(y)
    ensures ToInt32(x) == ToInt32(y) <==> x % TWO_32 == y % TWO_32
  {
    WordValue(x);
    WordValue(y);
    Range4();
    BigEndianValue(x, 4);
    BigEndianValue(y, 4);
    if x % TWO_32 == y % TWO_32 {
      BigEndianInverse(BigEndian(x, 4));
      BigEndianInverse(BigEndian(y, 4));
    }
  }

  /** The unsigned value of four bytes, most significant first. */
  function Word(s: seq<byte>): nat
    requires |s| == 4
  {
    var a: nat, b: nat, c: nat, d: nat := s[0], s[1], s[2], s[3];
    0x100_0000 * a + 0x1_0000 * b + 0x100 * c + d
  }

  lemma WordExact(s: seq<byte>)
    requires |s| == 4
    ensures FromBigEndian(s) == Word(s) < 0x1_0000_0000
  {
    assert FromBigEndian(s[..1]) == s[0];
    assert s[..2][..1] == s[..1] && s[..3][..2] == s[..2];
    assert FromBigEndian(s[..2]) == (s[0] as nat) * 0x100 + s[1];
    assert FromBigEndian(s[..3]) == (s[0] as nat) * 0x1_0000 + (s[1] as nat) * 0x100 + s[2];
  }

  /** What the four bytes of an integer say about it, and that no other four bytes say the same. */
  lemma WordOf(x: int, s: seq<byte>)
    requires |s| == 4
    ensures Word(BigEndian(x, 4)) == x % 0x1_0000_0000
    ensures Word(s) == x % 0x1_0000_0000 ==> s == BigEndian(x, 4)
  {
    WordExact(BigEndian(x, 4));
    WordExact(s);
    Range4();
    BigEndianValue(x, 4);
    BigEndianInverse(BigEndian(x, 4));
    BigEndianInverse(s);
  }

  /** The conversion to int32 keeps the value modulo 2^32; the type says the rest. */
  lemma Int32Exact(x: int)
    ensures (x - ToInt32(x)) % 0x1_0000_0000 == 0
  {
  }

  /** Two words are the same int32 exactly when they are equal. */
  lemma Int32Equal(x: nat, y: nat)
    requires x < 0x1_0000_0000 && y < 0x1_0000_0000
    ensures ToInt32(x) == ToInt32(y) <==> x == y
  {
  }

  /** Network byte order, for integers of any width: the first byte counts most. */
  lemma {:induction false} MostSignificantFirst(a: byte, s: seq<byte>)
    ensures FromBigEndian([a] + s) == a * Range(|s|) + FromBigEndian(s)
    decreases |s|
  {
    if s == [] {
      assert [a] + s == [a] && [a][..0] == [];
    } else {
      var init, last := s[..|s| - 1], s[|s| - 1];
      assert ([a] + s)[..|s|] == [a] + init;
      MostSignificantFirst(a, init);
      Times256(a, Range(|init|));
    }
  }

  lemma Times256(a: nat, r: nat)
    ensures a * (256 * r) == a * r * 256
  {
  }

  /** The integers of the buffer have 1, 2, 4 and 8 bytes, in two's complement. */
  lemma Ranges()
    ensures Range(1) == 0x100 && Range(2) == 0x1_0000
    ensures Range(4) == 0x1_0000_0000 && Range(8) == 0x1_0000_0000_0000_0000
    ensures forall x: int :: Fits(x, 1) <==> -0x80 <= x < 0x80
    ensures forall x: int :: Fits(x, 2) <==> -0x8000 <= x < 0x8000
    ensures forall x: int :: Fits(x, 4) <==> -0x8000_0000 <= x < 0x8000_0000
    ensures forall x: int :: Fits(x, 8) <==> -0x8000_0000_0000_0000 <= x < 0x8000_0000_0000_0000
  {
    Range4();
    assert Range(5) == 0x100_0000_0000 && Range(6) == 0x1_0000_0000_0000;
    assert Range(7) == 0x100_0000_0000_0000;
  }

  /** `set_id(int32_t)` on a fixed64 field: sign extension, then conversion to unsigned. */
  function Widen(id: int32): (r: uint64) {
    if id >= 0 then id else id + 0x1_0000_0000_0000_0000
  }

  /** `int32_t id = msg->id()`: truncation to the low 32 bits. */
  function Narrow(id: uint64): int32 {
    ToInt32(id)
  }

  /** A call id survives the fixed64 field; a foreign field value survives exactly when some int32 widens to it. */
  lemma IdRoundTrip(id: int32, wide: uint64)
    ensures Narrow(Widen(id)) == id
    ensures Widen(Narrow(wide)) == wide <==> wide < 0x8000_0000 || 0xffff_ffff_8000_0000 <= wide
    ensures Widen(id) == if id < 0 then 0x1_0000_0000_0000_0000 + id else id
    ensures (wide - Narrow(wide)) % 0x1_0000_0000 == 0
  {
    assert TWO_64 % TWO_32 == 0;
    if id < 0 {
      assert (id + TWO_64) % TWO_32 == id + TWO_32;
    }
  }
}

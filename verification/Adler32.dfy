/**
 The checksum of a frame body: Adler-32 by the per-byte recurrence of RFC 1950,
 section 2.2, its closed form, and exactly which one- and two-byte changes it misses.
 */
module Adler32 {
  import opened Bytes

  const BASE: nat := 65521

  /** The two running sums after reading `s` from the initial value 1. */
  function Sums(s: seq<byte>): (r: (nat, nat))
    ensures r.0 < BASE && r.1 < BASE
  {
    if s == [] then (1, 0)
    else
      var (a, b) := Sums(s[..|s| - 1]);
      var a' := (a + s[|s| - 1]) % BASE;
      (a', (b + a') % BASE)
  }

  function Adler(s: seq<byte>): (r: nat)
    ensures r < TWO_32
  {
    var (a, b) := Sums(s);
    b * 0x1_0000 + a
  }

  /** Plain sum of the bytes. */
  function Total(s: seq<byte>): nat {
    if s == [] then 0 else Total(s[..|s| - 1]) + s[|s| - 1]
  }

  /** Sum of the bytes, each weighted by its distance from the end (the last byte has weight 1). */
  function Weighted(s: seq<byte>): nat {
    if s == [] then 0 else Weighted(s[..|s| - 1]) + Total(s)
  }

  lemma {:induction false} ClosedForm(s: seq<byte>)
    ensures Sums(s).0 == (1 + Total(s)) % 65521
    ensures Sums(s).1 == (|s| + Weighted(s)) % 65521
  {
    if s != [] {
      var init := s[..|s| - 1];
      ClosedForm(init);
      AddModulo(1 + Total(init), s[|s| - 1]);
      AddModulo(|init| + Weighted(init), 1 + Total(s));
    }
  }

  /** The checksum itself: the weighted sum in the upper half, the plain sum in the lower. */
  lemma AdlerValue(s: seq<byte>)
    ensures Adler(s) == (|s| + Weighted(s)) % 65521 * 65536 + (1 + Total(s)) % 65521
  {
    hide Sums, Weighted, Total;
    ClosedForm(s);
  }

  lemma AddModulo(x: nat, y: nat)
    ensures (x % BASE + y) % BASE == (x + y) % BASE
    ensures (x % BASE + y % BASE) % BASE == (x + y) % BASE
  {
    QuotientUnique(x + y, BASE, x / BASE + (x % BASE + y) / BASE, (x % BASE + y) % BASE);
    QuotientUnique(x + y, BASE, x / BASE + y / BASE + (x % BASE + y % BASE) / BASE, (x % BASE + y % BASE) % BASE);
  }

  /** Replacing byte `i` by `v` moves the plain sum by the difference, the weighted sum by weight times difference. */
  lemma {:induction false} ReplaceByte(s: seq<byte>, i: nat, v: byte)
    requires i < |s|
    ensures Total(s[i := v]) - Total(s) == v - s[i]
    ensures Weighted(s[i := v]) - Weighted(s) == (|s| - i) * (v - s[i])
  {
    var t := s[i := v];
    var init := s[..|s| - 1];
    if i == |s| - 1 {
      assert t[..|t| - 1] == init;
    } else {
      assert t[..|t| - 1] == init[i := v];
      ReplaceByte(init, i, v);
      OneMore(|init| - i, v - s[i]);
    }
  }

  /** Both sums are 0 for zeros, so with `ReplaceByte` byte `i` counts `|s| - i` times in the weighted one. */
  lemma {:induction false} ZeroSums(s: seq<byte>)
    requires forall i :: 0 <= i < |s| ==> s[i] == 0
    ensures Total(s) == 0 && Weighted(s) == 0
  {
    if s != [] { ZeroSums(s[..|s| - 1]); }
  }

  lemma OneMore(w: int, d: int)
    ensures (w + 1) * d == w * d + d
  {
  }

  predicate Divides(d: int, x: int)
    requires d != 0
  {
    x % d == 0
  }

  lemma SameResidue(x: int, y: int)
    ensures x % BASE == y % BASE <==> Divides(BASE, x - y)
  {
  }

  /** The checksum is the pair of sums, so it changes exactly when one of them does. */
  lemma AdlerDiffers(s: seq<byte>, t: seq<byte>)
    requires |s| == |t|
    ensures Adler(s) == Adler(t) <==>
              Divides(BASE, Total(s) - Total(t)) && Divides(BASE, Weighted(s) - Weighted(t))
  {
    hide Divides, Total, Weighted;
    ClosedForm(s);
    ClosedForm(t);
    SameResidue(1 + Total(s), 1 + Total(t));
    SameResidue(|s| + Weighted(s), |t| + Weighted(t));
  }

  /** 65521 has no divisor that fits in a byte, so it shares no factor with a byte difference. */
  lemma NoByteDivisor(d: nat)
    requires 2 <= d < 256
    ensures BASE % d != 0
  {
  }

  /** Euclid's lemma for 65521 and a factor that fits in a byte, by descent on the factor. */
  lemma {:induction false} CancelByte(k: int, d: nat)
    requires 0 < d < 256
    requires Divides(BASE, k * d)
    ensures Divides(BASE, k)
    decreases d
  {
    if d == 1 {
      assert k * d == k;
    } else {
      NoByteDivisor(d);
      var q, r := BASE / d, BASE % d;
      var m := k * d / BASE;
      assert k * d == BASE * m;
      assert k * r == k * (BASE - q * d) == BASE * k - q * (k * d) == BASE * (k - q * m) by {
        assert BASE == q * d + r;
        assert q * (k * d) == q * (BASE * m) == BASE * (q * m);
        assert k * (q * d) == q * (k * d);
      }
      MultipleDivides(k - q * m);
      CancelByte(k, r);
    }
  }

  lemma MultipleDivides(m: int)
    ensures Divides(BASE, BASE * m)
  {
    QuotientUnique(BASE * m, BASE, m, 0);
  }

  /**
   Exactly which changes of two bytes Adler-32 misses: the two differences cancel
   and the positions are a multiple of 65521 apart.
   */
  lemma TwoByteChange(s: seq<byte>, i: nat, j: nat, v: byte, w: byte)
    requires i < j < |s|
    requires v != s[i] || w != s[j]
    ensures Adler(s[i := v][j := w]) == Adler(s) <==>
              v - s[i] == s[j] - w && Divides(BASE, j - i)
  {
    hide Adler, Divides;
    var t := s[i := v][j := w];
    ReplaceByte(s, i, v);
    ReplaceByte(s[i := v], j, w);
    AdlerDiffers(t, s);
    TwoDifferences(v - s[i], w - s[j], |s| - i, |s| - j);
  }

  /** Two weighted byte differences vanish modulo 65521 exactly when they cancel and the weights agree. */
  lemma TwoDifferences(x: int, y: int, a: int, b: int)
    requires -256 < x < 256 && -256 < y < 256 && (x != 0 || y != 0)
    ensures Divides(BASE, x + y) && Divides(BASE, a * x + b * y) <==> x == -y && Divides(BASE, a - b)
  {
    if x + y != 0 {
      SmallSum(x + y);
    } else if x > 0 {
      CancelIff(a - b, x);
      assert a * x + b * y == (a - b) * x;
    } else {
      CancelIff(a - b, y);
      assert a * x + b * y == -((a - b) * y);
      NegateDivides((a - b) * y);
    }
  }

  lemma SmallSum(z: int)
    requires -65521 < z < BASE && z != 0
    ensures !Divides(BASE, z)
  {
  }

  lemma NegateDivides(x: int)
    ensures Divides(BASE, -x) <==> Divides(BASE, x)
  {
  }

  lemma CancelIff(k: int, d: nat)
    requires 0 < d < 256
    ensures Divides(BASE, k * d) <==> Divides(BASE, k)
  {
    if Divides(BASE, k) {
      var m := k / BASE;
      assert k * d == BASE * m * d == BASE * (m * d);
      MultipleDivides(m * d);
    } else if Divides(BASE, k * d) {
      CancelByte(k, d);
    }
  }

  /** Changing one byte always changes the checksum. */
  lemma OneByteChange(s: seq<byte>, i: nat, v: byte)
    requires i < |s| && v != s[i]
    ensures Adler(s[i := v]) != Adler(s)
  {
    hide Adler, Divides;
    ReplaceByte(s, i, v);
    AdlerDiffers(s[i := v], s);
    SmallSum(v - s[i]);
  }
}

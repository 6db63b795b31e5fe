/** Python's integer bit operations on non-negative integers.
    The client applies `|`, `&`, `<<` and `>>` to unbounded integers (the remaining
    length, the keep-alive, received lengths and packet ids); these functions give them
    their bit-by-bit meaning, and the lemmas connect them with ordinary arithmetic. */
module Bits {

  /** 2 to the power k. */
  function Pow2(k: nat): (r: nat)
    ensures r >= 1
  {
    if k == 0 then 1 else 2 * Pow2(k - 1)
  }

  /** `a | b`, defined one bit at a time from the least significant bit. */
  function Or(a: nat, b: nat): nat
    decreases a + b
  {
    if a == 0 then b
    else if b == 0 then a
    else 2 * Or(a / 2, b / 2) + (if a % 2 == 1 || b % 2 == 1 then 1 else 0)
  }

  /** `a & b`, defined one bit at a time from the least significant bit. */
  function And(a: nat, b: nat): nat
    decreases a + b
  {
    if a == 0 || b == 0 then 0
    else 2 * And(a / 2, b / 2) + (if a % 2 == 1 && b % 2 == 1 then 1 else 0)
  }

  /** `a << k` */
  function Shl(a: nat, k: nat): nat
  {
    a * Pow2(k)
  }

  /** `a >> k` */
  function Shr(a: nat, k: nat): nat
  {
    DivNat(a, Pow2(k));
    a / Pow2(k)
  }

  lemma DivNat(a: nat, d: nat)
    requires d > 0
    ensures a / d >= 0
  {
  }

  lemma {:induction false} Pow2Add(j: nat, k: nat)
    ensures Pow2(j + k) == Pow2(j) * Pow2(k)
  {
    if k > 0 {
      Pow2Add(j, k - 1);
      assert Pow2(j + k) == 2 * Pow2(j + k - 1);
    }
  }

  lemma {:induction false} OrComm(a: nat, b: nat)
    ensures Or(a, b) == Or(b, a)
    decreases a + b
  {
    if a != 0 && b != 0 {
      OrComm(a / 2, b / 2);
    }
  }

  /** Or-ing in a value shifted above every bit of `a` is addition: the bits do not overlap. */
  lemma {:induction false} OrShifted(a: nat, b: nat, k: nat)
    requires a < Pow2(k)
    ensures Or(a, Shl(b, k)) == a + Shl(b, k)
  {
    if k == 0 || a == 0 || b == 0 {
      if k == 0 { assert a == 0; }
    } else {
      var p := Pow2(k - 1);
      assert Pow2(k) == 2 * p;
      assert b * Pow2(k) == 2 * (b * p);
      assert (b * Pow2(k)) / 2 == b * p && (b * Pow2(k)) % 2 == 0;
      OrShifted(a / 2, b, k - 1);
      assert Or(a, Shl(b, k)) == 2 * Or(a / 2, b * p) + a % 2;
    }
  }

  /** The same, with the high part on the left: `(b << k) | a`. */
  lemma OrShiftedLow(b: nat, k: nat, a: nat)
    requires a < Pow2(k)
    ensures Or(Shl(b, k), a) == Shl(b, k) + a
  {
    OrComm(Shl(b, k), a);
    OrShifted(a, b, k);
  }

  lemma ModOfSplit(a: nat, d: nat, m: nat, r: nat)
    requires m > 0 && r < m && a == d * m + r
    ensures a % m == r && a / m == d
  {
    var q, s := a / m, a % m;
    assert q * m + s == d * m + r;
    if q > d {
      MulAtLeast(q - d, m);
      assert false;
    } else if q < d {
      MulAtLeast(d - q, m);
      assert false;
    }
  }

  lemma MulAtLeast(x: nat, m: nat)
    requires x >= 1
    ensures x * m >= m
  {
  }

  /** Halving commutes with reduction modulo an even number. */
  lemma ModDouble(a: nat, p: nat)
    requires p > 0
    ensures a % (2 * p) == 2 * ((a / 2) % p) + a % 2
  {
    var q := a / 2;
    var d, r := q / p, q % p;
    assert q == d * p + r;
    assert a == d * (2 * p) + (2 * r + a % 2);
    ModOfSplit(a, d, 2 * p, 2 * r + a % 2);
  }

  /** Masking with k one-bits keeps the value modulo 2^k. */
  lemma {:induction false} AndLowMask(a: nat, k: nat)
    ensures And(a, Pow2(k) - 1) == a % Pow2(k)
  {
    if k == 0 {
      assert Pow2(k) - 1 == 0;
    } else if a == 0 {
      ModOfSplit(0, 0, Pow2(k), 0);
    } else {
      var p := Pow2(k - 1);
      var m := Pow2(k) - 1;
      assert m == 2 * p - 1 && m / 2 == p - 1 && m % 2 == 1;
      assert And(a, m) == 2 * And(a / 2, p - 1) + a % 2;
      AndLowMask(a / 2, k - 1);
      ModDouble(a, p);
      assert a % Pow2(k) == a % (2 * p);
    }
  }

  /** Or-ing two values below 2^k stays below 2^k. */
  lemma {:induction false} OrBound(a: nat, b: nat, k: nat)
    requires a < Pow2(k) && b < Pow2(k)
    ensures Or(a, b) < Pow2(k)
    decreases k
  {
    if a != 0 && b != 0 {
      assert Pow2(k) == 2 * Pow2(k - 1);
      OrBound(a / 2, b / 2, k - 1);
    }
  }

  /** Dividing twice is dividing by the product. */
  lemma DivTwice(n: nat, a: nat, b: nat)
    requires a > 0 && b > 0
    ensures n / a / b == n / (b * a)
  {
    var x := n / a;
    var q, r, s := x / b, x % b, n % a;
    MulAdd(x, q, b, r, a);
    MulBound(r, b, a, s);
    ModOfSplit(n, q, b * a, r * a + s);
  }

  lemma MulAdd(x: nat, q: nat, b: nat, r: nat, a: nat)
    requires x == q * b + r
    ensures x * a == q * (b * a) + r * a
  {
  }

  lemma MulBound(r: nat, b: nat, a: nat, s: nat)
    requires r < b && s < a
    ensures r * a + s < b * a
  {
    MulAtMost(r, b - 1, a);
    assert (b - 1) * a == b * a - a;
  }

  lemma MulAtMost(x: nat, y: nat, m: nat)
    requires x <= y
    ensures x * m <= y * m
  {
  }

  lemma ShrHalf(a: nat, k: nat)
    ensures Shr(a / 2, k) == Shr(a, k + 1)
  {
    assert Pow2(k + 1) == 2 * Pow2(k);
    DivTwice(a, 2, Pow2(k));
  }

  lemma ShlDouble(c: nat, k: nat)
    requires k > 0
    ensures Shl(c, k) == 2 * Shl(c, k - 1)
  {
    assert Pow2(k) == 2 * Pow2(k - 1);
  }

  /** Masking with a shifted mask is masking the shifted-down value, shifted back up. */
  lemma {:induction false} AndShl(a: nat, c: nat, k: nat)
    ensures And(a, Shl(c, k)) == Shl(And(Shr(a, k), c), k)
  {
    if k > 0 {
      var m := Shl(c, k - 1);
      ShlDouble(c, k);
      ShlDouble(And(Shr(a, k), c), k);
      if a != 0 && c != 0 {
        assert And(a, 2 * m) == 2 * And(a / 2, m);
        AndShl(a / 2, c, k - 1);
        ShrHalf(a, k - 1);
      } else if a == 0 {
        assert Shr(0, k) == 0;
      }
    }
  }

  /** `x & 0xF0` keeps the packet type nibble of a byte. */
  lemma TypeNibble(x: nat)
    requires x < 256
    ensures And(x, 0xF0) == 16 * (x / 16)
  {
    var h := x / 16;
    assert Pow2(4) == 16;
    assert Shl(15, 4) == 0xF0;
    assert Shr(x, 4) == h;
    AndShl(x, 15, 4);
    AndLowMask(h, 4);
    assert h < 16;
    assert h % 16 == h;
  }

  /** `x & 6` keeps the two QoS bits of a PUBLISH type byte. */
  lemma QosBits(x: nat)
    ensures And(x, 6) == 2 * (x / 2 % 4)
  {
    assert Pow2(1) == 2 && Pow2(2) == 4;
    assert Shl(3, 1) == 6;
    AndShl(x, 3, 1);
    AndLowMask(x / 2, 2);
  }

  /** `x & 0x80` tests the top bit of a byte. */
  lemma TopBit(x: nat)
    requires x < 256
    ensures (And(x, 0x80) == 0) == (x < 0x80)
  {
    assert Pow2(7) == 128 && Pow2(1) == 2;
    assert Shl(1, 7) == 0x80;
    AndShl(x, 1, 7);
    AndLowMask(x / 128, 1);
  }
  /** One step of `|`: the lowest bit, then the rest shifted down, for every pair of operands. */
  lemma OrStep(a: nat, b: nat)
    ensures Or(a, b) == 2 * Or(a / 2, b / 2) + (if a % 2 == 1 || b % 2 == 1 then 1 else 0)
  {
  }

  /** Or-ing a value below 2^k into a number leaves its bits from k upwards alone. */
  lemma {:induction false} OrHigh(h: nat, x: nat, y: nat, k: nat)
    requires x < Pow2(k) && y < Pow2(k)
    ensures Or(Shl(h, k) + x, y) == Shl(h, k) + Or(x, y)
    decreases k
  {
    if k > 0 {
      var a := Shl(h, k) + x;
      ShlDouble(h, k);
      assert Pow2(k) == 2 * Pow2(k - 1);
      assert a / 2 == Shl(h, k - 1) + x / 2 && a % 2 == x % 2;
      OrStep(a, y);
      OrHigh(h, x / 2, y / 2, k - 1);
      OrStep(x, y);
    }
  }

  /** Or-ing `x` into `f` is addition when the bits of `x` lie between j and k and the
      bits of `f` in that range are clear. */
  lemma OrBelow(f: nat, x: nat, j: nat, k: nat)
    requires j <= k && f % Pow2(k) < Pow2(j) && x % Pow2(j) == 0 && x < Pow2(k)
    ensures Or(f, x) == f + x
  {
    var p, q := Pow2(k), Pow2(j);
    var h, l := Shr(f, k), f % p;
    DivMod(f, p);
    DivMod(x, q);
    assert Shl(h, k) + l == f;
    assert Shl(Shr(x, j), j) == x;
    assert Or(l, x) == l + x by {
      OrShifted(l, Shr(x, j), j);
    }
    OrHigh(h, l, x, k);
  }

  lemma DivMod(a: nat, d: nat)
    requires d > 0
    ensures a == (a / d) * d + a % d
  {
  }

  /** `hi << 8 | lo` for two bytes is the big-endian 16-bit value. */
  lemma OrHighByte(hi: nat, lo: nat)
    requires lo < 256
    ensures Or(Shl(hi, 8), lo) == 256 * hi + lo
  {
    assert Pow2(8) == 256;
    OrShiftedLow(hi, 8, lo);
  }
  /** The powers of two that bound one to four Remaining Length bytes. */
  lemma Pow2Table()
    ensures Pow2(7) == 128 && Pow2(14) == 16384 && Pow2(21) == 2097152 && Pow2(28) == 268435456
  {
    assert Pow2(7) == 128;
    Pow2Add(7, 7);
    Pow2Add(14, 7);
    Pow2Add(21, 7);
  }
}

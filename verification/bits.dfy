/**
 Machine words of the fastrand package, modelled on unbounded integers.

 Go's fixed-width integers become subset types of `int`; the operators the
 package uses on them are written out explicitly: `x >> s` on an unsigned
 word is division by 2^s, `byte(x)` keeps the value modulo 256, unsigned
 `n - 1` wraps modulo 2^width, and `a & b` on non-negative words is the
 recursive bitwise AND `And` below.
 */
module Bits {

  const MaxUint32: nat := 0xFFFF_FFFF
  const MaxUint64: nat := 0xFFFF_FFFF_FFFF_FFFF
  /** maxInt32 is maxUint32 >> 1. */
  const MaxInt32: nat := MaxUint32 / 2
  /** maxInt64 is maxUint64 >> 1. */
  const MaxInt64: nat := MaxUint64 / 2

  type Uint32 = x: int | 0 <= x <= MaxUint32
  type Uint64 = x: int | 0 <= x <= MaxUint64
  type Int32 = x: int | -(MaxInt32 as int) - 1 <= x <= MaxInt32
  type Int64 = x: int | -(MaxInt64 as int) - 1 <= x <= MaxInt64
  type Byte = x: int | 0 <= x < 256

  /** `int32(x)`: the low 32 bits of x, read as a two's-complement value. */
  function Int32Of(x: int): (r: Int32)
    ensures (x - r) % 0x1_0000_0000 == 0
    ensures -(MaxInt32 as int) - 1 <= x <= MaxInt32 ==> r == x
    ensures x >= 0 ==> r <= x
  {
    var m := x % 0x1_0000_0000;
    if m <= MaxInt32 then m else m - 0x1_0000_0000
  }

  /** `int64(x)`: the low 64 bits of x, read as a two's-complement value. */
  function Int64Of(x: int): (r: Int64)
    ensures (x - r) % 0x1_0000_0000_0000_0000 == 0
    ensures -(MaxInt64 as int) - 1 <= x <= MaxInt64 ==> r == x
    ensures x >= 0 ==> r <= x
  {
    var m := x % 0x1_0000_0000_0000_0000;
    if m <= MaxInt64 then m else m - 0x1_0000_0000_0000_0000
  }

  function Pow2(k: nat): (r: nat)
    ensures r >= 1
  {
    if k == 0 then 1 else 2 * Pow2(k - 1)
  }

  /** `v >> s` on an unsigned word. */
  function Shr(v: nat, s: nat): nat
  {
    var p := Pow2(s);
    DivBounds(v, p);
    v / p
  }

  /** Dividing a natural number by a positive one gives a natural number no larger. */
  lemma DivBounds(a: nat, p: nat)
    requires p >= 1
    ensures 0 <= a / p <= a
  {
    var q := a / p;
    assert a == p * q + a % p;
    if q < 0 {
      MulAtLeast(p, -q);
      assert false;
    }
    if q > a {
      MulAtLeast(q, p);
      assert false;
    }
  }

  /** `byte(v >> (8 * k))`: byte number `k` of `v`, counting from the least significant. */
  function ByteOf(v: nat, k: nat): Byte
  {
    Shr(v, 8 * k) % 256
  }

  /** Bitwise AND of two non-negative integers, one binary digit at a time. */
  function And(a: nat, b: nat): (r: nat)
    ensures r <= a && r <= b
    decreases a
  {
    if a == 0 || b == 0 then 0
    else 2 * And(a / 2, b / 2) + (if a % 2 == 1 && b % 2 == 1 then 1 else 0)
  }

  /** n is 2^k for some k. */
  predicate IsPow2(n: nat)
    decreases n
  {
    n == 1 || (n >= 2 && n % 2 == 0 && IsPow2(n / 2))
  }

  lemma {:induction false} Pow2IsPow2(k: nat)
    ensures IsPow2(Pow2(k))
  {
    if k > 0 {
      Pow2IsPow2(k - 1);
      assert Pow2(k) / 2 == Pow2(k - 1);
    }
  }

  lemma Pow2Of8()
    ensures Pow2(8) == 256
  {
  }

  lemma Pow2Of32()
    ensures Pow2(32) == 0x1_0000_0000
  {
    Pow2Of8();
    Pow2Add(8, 8);
    Pow2Add(16, 16);
  }

  lemma Pow2Of64()
    ensures Pow2(64) == 0x1_0000_0000_0000_0000
  {
    Pow2Of32();
    Pow2Add(32, 32);
  }

  /** Each width's range, 0 through its maximum, counts a power of two values. */
  lemma WordSizes()
    ensures Pow2(32) == MaxUint32 + 1
    ensures Pow2(64) == MaxUint64 + 1
    ensures Pow2(31) == MaxInt32 + 1
    ensures Pow2(63) == MaxInt64 + 1
  {
    Pow2Of32();
    Pow2Of64();
    assert Pow2(32) == 2 * Pow2(31);
    assert Pow2(64) == 2 * Pow2(63);
  }

  /** The number of values of each word type is a power of two. */
  lemma WordRanges()
    ensures IsPow2(MaxUint32 + 1) && IsPow2(MaxUint64 + 1)
    ensures IsPow2(MaxInt32 + 1) && IsPow2(MaxInt64 + 1)
  {
    WordSizes();
    Pow2IsPow2(31);
    Pow2IsPow2(32);
    Pow2IsPow2(63);
    Pow2IsPow2(64);
  }

  lemma {:induction false} AndSelf(m: nat)
    ensures And(m, m) == m
    decreases m
  {
    if m > 0 {
      AndSelf(m / 2);
    }
  }

  /**
   The test `n & (n-1) == 0` the samplers use to pick the masking path:
   for a positive n it holds exactly when n is a power of two.
   */
  lemma {:induction false} PowerOfTwoTest(n: nat)
    requires n >= 1
    ensures And(n, n - 1) == 0 <==> IsPow2(n)
    decreases n
  {
    if n == 1 {
    } else if n % 2 == 0 {
      var m := n / 2;
      assert (n - 1) / 2 == m - 1 && (n - 1) % 2 == 1;
      assert And(n, n - 1) == 2 * And(m, m - 1);
      PowerOfTwoTest(m);
    } else {
      var m := n / 2;
      assert (n - 1) / 2 == m && (n - 1) % 2 == 0;
      assert And(n, n - 1) == 2 * And(m, m);
      AndSelf(m);
      assert !IsPow2(n);
    }
  }

  /** `n - 1` modulo m for 0 <= n < m: n - 1 itself, except that 0 wraps to m - 1. */
  lemma PredMod(m: int, n: int)
    requires 0 <= n < m
    ensures n >= 1 ==> (n - 1) % m == n - 1
    ensures n == 0 ==> (n - 1) % m == m - 1
  {
    if n >= 1 {
      DivModUnique(n - 1, m, 0, n - 1);
    } else {
      DivModUnique(-1, m, -1, m - 1);
    }
  }

  /** The remainder of a natural number is no larger than the number itself. */
  lemma ModBounds(a: nat, n: nat)
    requires n >= 1
    ensures a % n <= a
  {
    DivBounds(a, n);
    var q := a / n;
    assert a == n * q + a % n;
    if q >= 1 {
      MulAtLeast(n, q);
    }
  }

  /** Euclidean division has a unique quotient and remainder. */
  lemma DivModUnique(a: int, m: int, q: int, r: int)
    requires m > 0 && 0 <= r < m && a == m * q + r
    ensures a / m == q && a % m == r
  {
    var q' := a / m;
    var r' := a % m;
    assert a == m * q' + r';
    if q > q' {
      MulAtLeast(m, q - q');
      assert false;
    } else if q < q' {
      MulAtLeast(m, q' - q);
      assert false;
    }
  }

  lemma {:induction false} MulAtLeast(m: nat, x: int)
    requires x >= 1
    ensures m * x >= m
    decreases x
  {
    if x > 1 {
      MulAtLeast(m, x - 1);
      assert m * x == m * (x - 1) + m;
    }
  }

  /** Dividing by b and then by c is dividing by b * c; the remainders combine likewise. */
  lemma DivModSplit(a: nat, b: nat, c: nat)
    requires b >= 1 && c >= 1
    ensures a / (b * c) == (a / b) / c
    ensures a % (b * c) == a % b + b * ((a / b) % c)
  {
    var q1, r1 := a / b, a % b;
    var q2, r2 := q1 / c, q1 % c;
    var bc := b * c;
    assert a == bc * q2 + (b * r2 + r1) by {
      assert a == b * q1 + r1;
      assert q1 == c * q2 + r2;
      MulRegroup(b, c, q2, r2);
    }
    assert b * r2 + r1 < bc by {
      MulBelow(b, r2, c);
    }
    DivModUnique(a, bc, q2, b * r2 + r1);
  }

  lemma MulSucc(c: int, n: int)
    ensures (c + 1) * n == c * n + n
  {
  }

  lemma MulRegroup(b: int, c: int, q: int, r: int)
    ensures b * (c * q + r) == (b * c) * q + b * r
  {
  }

  /** For r < c, b * r stays at least b below b * c. */
  lemma MulBelow(b: nat, r: nat, c: nat)
    requires r < c
    ensures b * r + b <= b * c
  {
    MulAtLeast(b, c - r);
    assert b * (c - r) == b * c - b * r;
  }

  lemma {:induction false} Pow2Add(i: nat, j: nat)
    ensures Pow2(i + j) == Pow2(i) * Pow2(j)
    decreases i
  {
    if i > 0 {
      Pow2Add(i - 1, j);
    }
  }

  /**
   Masking with n - 1 for a power of two n keeps the residue modulo n:
   `v & (n-1) == v % n`.
   */
  lemma {:induction false} MaskIsMod(v: nat, n: nat)
    requires IsPow2(n)
    ensures And(v, n - 1) == v % n
    decreases n
  {
    if n > 1 && v > 0 {
      var m := n / 2;
      MaskIsMod(v / 2, m);
      MaskStep(v, m);
    }
  }

  /** One binary digit of MaskIsMod: `v & (2m-1)` peels off the low bit of v. */
  lemma MaskStep(v: nat, m: nat)
    requires m >= 1 && v >= 1
    requires And(v / 2, m - 1) == (v / 2) % m
    ensures And(v, 2 * m - 1) == v % (2 * m)
  {
    AndLowMask(v, m);
    DivModSplit(v, 2, m);
  }

  /** AND with the odd mask 2m - 1 keeps the low bit of v and masks the rest with m - 1. */
  lemma AndLowMask(v: nat, m: nat)
    requires m >= 1 && v >= 1
    ensures And(v, 2 * m - 1) == 2 * And(v / 2, m - 1) + v % 2
  {
    var k := 2 * m - 1;
    assert k % 2 == 1 && k / 2 == m - 1 by {
      DivModUnique(k, 2, m - 1, 1);
    }
    AndOdd(v, k);
  }

  /** AND with an odd number keeps the low bit of v. */
  lemma AndOdd(v: nat, k: nat)
    requires v >= 1 && k % 2 == 1
    ensures And(v, k) == 2 * And(v / 2, k / 2) + v % 2
  {
  }

  /** Shifting right by 8 and then by 8k is shifting right by 8(k+1). */
  lemma ShrShr(v: nat, k: nat)
    ensures Shr(v / 256, 8 * k) == Shr(v, 8 * (k + 1))
  {
    Pow2Add(8, 8 * k);
    Pow2Of8();
    DivModSplit(v, 256, Pow2(8 * k));
  }

  /** The product of two odd numbers is odd. */
  lemma OddProduct(a: nat, b: nat)
    requires a % 2 == 1 && b % 2 == 1
    ensures (a * b) % 2 == 1
  {
    var x := a / 2;
    var y := b / 2;
    assert a * b == 2 * (2 * x * y + x + y) + 1 by {
      assert a == 2 * x + 1 && b == 2 * y + 1;
    }
    DivModUnique(a * b, 2, 2 * x * y + x + y, 1);
  }

  /** Every divisor of a power of two is a power of two. */
  lemma {:induction false} DivisorOfPow2(p: nat, n: nat, c: nat)
    requires IsPow2(p) && n >= 1 && p == n * c
    ensures IsPow2(n)
    decreases p
  {
    if p == 1 {
      assert c >= 1;
      MulAtLeast(n, c);
    } else if n % 2 == 0 {
      var h := n / 2;
      assert p / 2 == h * c by {
        assert p == 2 * (h * c);
      }
      DivisorOfPow2(p / 2, h, c);
    } else {
      if c % 2 == 1 {
        OddProduct(n, c);
        assert false;
      }
      var h := c / 2;
      assert p / 2 == n * h by {
        assert c == 2 * h;
        assert n * c == n * (2 * h) == 2 * (n * h);
      }
      DivisorOfPow2(p / 2, n, h);
    }
  }

  /** A power of two divides every power of two at least as large. */
  lemma {:induction false} Pow2Divides(a: nat, b: nat)
    requires IsPow2(a) && IsPow2(b) && a <= b
    ensures b % a == 0
    decreases a
  {
    if a > 1 {
      Pow2Divides(a / 2, b / 2);
      var c := (b / 2) / (a / 2);
      assert b / 2 == (a / 2) * c;
      assert b == a * c;
      DivModUnique(b, a, c, 0);
    }
  }
}

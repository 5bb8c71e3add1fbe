/**
 Machine words and the bit tricks of utils.h.

 Words are modelled as integers with the wrap-around written out. Bitwise "and" is
 defined by recursion on the binary digits, so that what the masks compute is proved by
 induction for every word, and not bit by bit for one width.
 */
module Bits {

  /** An `unsigned char`. */
  type byte = x: int | 0 <= x < 0x100

  /** The number of values of an `unsigned long`; both index fields wrap here. */
  const WORD: nat := 0x1_0000_0000_0000_0000

  /** The width of an `unsigned long`. */
  const WORD_BITS: nat := 64

  type u64 = x: int | 0 <= x < WORD

  /** Unsigned addition and subtraction, which wrap. */
  function Add(a: int, b: int): u64 {
    (a + b) % WORD
  }

  function Sub(a: int, b: int): u64 {
    (a - b) % WORD
  }

  /** The value an `int` gets when an unsigned integer is converted to it. */
  function ToInt32(n: nat): int {
    var low := n % 0x1_0000_0000;
    if low < 0x8000_0000 then low else low - 0x1_0000_0000
  }

  function Min(a: nat, b: nat): nat {
    if a <= b then a else b
  }

  function Pow2(k: nat): (p: nat)
    ensures p >= 1
  {
    if k == 0 then 1 else 2 * Pow2(k - 1)
  }

  ghost predicate IsPow2(n: nat) {
    exists k: nat :: n == Pow2(k)
  }

  /** Bitwise "and", one binary digit at a time. */
  function And(a: nat, b: nat): nat {
    if a == 0 || b == 0 then 0
    else (if a % 2 == 1 && b % 2 == 1 then 1 else 0) + 2 * And(a / 2, b / 2)
  }

  // ---------- arithmetic used throughout ----------

  lemma MulBound(m: nat, d: int)
    requires m > 0
    ensures d >= 1 ==> m * d >= m
    ensures d <= -1 ==> m * d + m <= 0
  {
  }

  /** The quotient and remainder are the only pair that fits. */
  lemma ModUnique(a: int, m: nat, q: int, r: int)
    requires m > 0 && 0 <= r < m && a == m * q + r
    ensures a / m == q && a % m == r
  {
    var d := q - a / m;
    MulBound(m, d);
    assert m * d == m * q - m * (a / m);
  }

  lemma ModAddOnce(b: int, m: nat)
    requires m > 0
    ensures (b + m) % m == b % m
  {
    var q, r := b / m, b % m;
    assert b + m == m * (q + 1) + r;
    ModUnique(b + m, m, q + 1, r);
  }

  lemma {:induction false} ModAddMultiple(a: int, m: nat, t: nat)
    requires m > 0
    ensures (a + m * t) % m == a % m
    decreases t
  {
    if t > 0 {
      ModAddMultiple(a, m, t - 1);
      var b := a + m * (t - 1);
      assert a + m * t == b + m;
      ModAddOnce(b, m);
    }
  }

  /** Counters less than `m` apart fall into different cells. */
  lemma ModDistinct(a: nat, b: nat, m: nat)
    requires m > 0 && a < b < a + m
    ensures a % m != b % m
  {
    MulBound(m, b / m - a / m);
    assert m * (b / m - a / m) == m * (b / m) - m * (a / m);
  }

  /** Moving `i` cells on from a counter wraps at most once around `m` cells. */
  lemma ModStep(c: nat, i: nat, m: nat)
    requires m > 0 && i <= m
    ensures (c + i) % m == if c % m + i < m then c % m + i else c % m + i - m
  {
    var q, r := c / m, c % m;
    if r + i < m {
      ModUnique(c + i, m, q, r + i);
    } else if r + i < 2 * m {
      assert c + i == m * (q + 1) + (r + i - m);
      ModUnique(c + i, m, q + 1, r + i - m);
    }
  }

  /** Dividing by an even number can be done one halving at a time. */
  lemma HalfSplit(x: nat, p: nat)
    requires p > 0
    ensures x / (2 * p) == (x / 2) / p
    ensures x % (2 * p) == 2 * ((x / 2) % p) + x % 2
  {
    var h := x / 2;
    var q, r := h / p, h % p;
    assert x == (2 * p) * q + (2 * r + x % 2) by {
      assert h == p * q + r;
      assert (2 * p) * q == 2 * (p * q);
    }
    ModUnique(x, 2 * p, q, 2 * r + x % 2);
  }

  // ---------- powers of two ----------

  lemma {:induction false} Pow2Add(i: nat, j: nat)
    ensures Pow2(i + j) == Pow2(i) * Pow2(j)
    decreases i
  {
    if i > 0 {
      Pow2Add(i - 1, j);
      assert Pow2(i + j) == 2 * Pow2(i - 1 + j);
    }
  }

  lemma {:induction false} Pow2Mono(i: nat, j: nat)
    requires i < j
    ensures 2 * Pow2(i) <= Pow2(j)
    decreases j
  {
    if i < j - 1 { Pow2Mono(i, j - 1); }
  }

  lemma Pow2Word()
    ensures Pow2(WORD_BITS) == WORD
  {
    assert Pow2(4) == 16 by { assert Pow2(2) == 4; }
    Pow2Add(4, 4);
    Pow2Add(8, 8);
    Pow2Add(16, 16);
    Pow2Add(32, 32);
  }

  // ---------- masks ----------

  lemma AndOdd(x: nat, m: nat)
    ensures And(x, 2 * m + 1) == x % 2 + 2 * And(x / 2, m)
  {
  }

  /** Masking with one less than a power of two is reduction modulo that power. */
  lemma {:induction false} MaskIsMod(x: nat, k: nat)
    ensures And(x, Pow2(k) - 1) == x % Pow2(k)
    decreases k
  {
    if k > 0 {
      var p := Pow2(k - 1);
      MaskIsMod(x / 2, k - 1);
      HalfSplit(x, p);
      AndOdd(x, p - 1);
    }
  }

  lemma MulAssoc(a: int, b: int, c: int)
    ensures (a * b) * c == a * (b * c)
  {
  }

  /** A number is its remainder and a multiple of any factor of the divisor. */
  lemma SplitMultiple(c: nat, p: nat, t: nat) returns (k: nat)
    requires p * t > 0
    ensures c == c % (p * t) + p * k
  {
    var w := p * t;
    k := t * (c / w);
    MulAssoc(p, t, c / w);
  }

  lemma ModOfMod(c: nat, p: nat, t: nat)
    requires p > 0 && t > 0
    ensures p * t > 0 && (c % (p * t)) % p == c % p
  {
    MulBound(p, t);
    var k := SplitMultiple(c, p, t);
    ModAddMultiple(c % (p * t), p, k);
  }

  /**
   A free-running index that wraps at the word size still addresses the right cell: the
   masked word is the unbounded counter modulo the size, because the size divides the word.
   */
  lemma MaskedIndex(c: nat, k: nat)
    requires k <= WORD_BITS
    ensures And(c % WORD, Pow2(k) - 1) == c % Pow2(k)
  {
    MaskIsMod(c % WORD, k);
    var t := Pow2(WORD_BITS - k);
    Pow2Word();
    Pow2Add(k, WORD_BITS - k);
    ModOfMod(c, Pow2(k), t);
  }

  /** Masking the low digits away leaves the high part. */
  lemma {:induction false} HighMask(x: nat, k: nat, m: nat)
    requires x < Pow2(k + m)
    ensures And(x, Pow2(k) * (Pow2(m) - 1)) == Pow2(k) * (x / Pow2(k))
    decreases k
  {
    if k == 0 {
      MaskIsMod(x, m);
      ModUnique(x, Pow2(m), 0, x);
    } else {
      var p := Pow2(k - 1);
      var h := p * (Pow2(m) - 1);
      assert Pow2(k) == 2 * p;
      MulAssoc(2, p, Pow2(m) - 1);
      HalfSplit(x, p);
      HighMask(x / 2, k - 1, m);
      MulAssoc(2, p, (x / 2) / p);
      if x > 0 && h > 0 {
        assert And(x, 2 * h) == 2 * And(x / 2, h);
      }
    }
  }

  // ---------- is_power_of_2 and roundup_pow_of_two ----------

  predicate IsPowerOf2(n: nat) {
    n != 0 && And(n, n - 1) == 0
  }

  lemma {:induction false} AndSelf(n: nat)
    ensures And(n, n) == n
  {
    if n > 0 { AndSelf(n / 2); }
  }

  /** Clearing the lowest set bit leaves nothing exactly when there was only one. */
  lemma {:induction false} IsPowerOf2Correct(n: nat)
    ensures IsPowerOf2(n) <==> IsPow2(n)
  {
    if n == 1 {
      assert 1 == Pow2(0);
    } else if n > 1 {
      var h := n / 2;
      if n % 2 == 1 {
        AndSelf(h);
        assert (n - 1) / 2 == h && (n - 1) % 2 == 0;
        assert And(n, n - 1) == 2 * And(h, h);
        assert !IsPow2(n) by {
          forall k: nat ensures n != Pow2(k) { if k > 0 { assert Pow2(k) == 2 * Pow2(k - 1); } }
        }
      } else {
        IsPowerOf2Correct(h);
        assert (n - 1) / 2 == h - 1;
        assert And(n, n - 1) == 2 * And(h, h - 1);
        if IsPow2(h) {
          var k: nat :| h == Pow2(k);
          assert n == Pow2(k + 1);
        }
        if IsPow2(n) {
          var k: nat :| n == Pow2(k);
          assert k > 0;
          assert h == Pow2(k - 1);
        }
      }
    }
  }

  /** The number of zero bits above the highest set bit of a word of the given width. */
  function Clz(n: nat, width: nat): (z: nat)
    requires n < Pow2(width)
    ensures z <= width
  {
    if width == 0 then 0
    else if n >= Pow2(width - 1) then 0
    else 1 + Clz(n, width - 1)
  }

  lemma {:induction false} ClzBrackets(n: nat, width: nat)
    requires 0 < n < Pow2(width)
    ensures Clz(n, width) < width
    ensures Pow2(width - Clz(n, width) - 1) <= n < 2 * Pow2(width - Clz(n, width) - 1)
    decreases width
  {
    if n < Pow2(width - 1) { ClzBrackets(n, width - 1); }
  }

  /** utils.h's `roundup_pow_of_two`, which despite its name rounds down. */
  function RoundupPowOfTwo(n: u64): nat {
    if n == 0 then 0
    else
      Pow2Word();
      ClzBrackets(n, WORD_BITS);
      Pow2(WORD_BITS - Clz(n, WORD_BITS) - 1) % WORD
  }

  lemma RoundupIsPow2(n: u64) returns (k: nat)
    requires n > 0
    ensures k < WORD_BITS && RoundupPowOfTwo(n) == Pow2(k) <= n < 2 * Pow2(k)
  {
    Pow2Word();
    ClzBrackets(n, WORD_BITS);
    k := WORD_BITS - Clz(n, WORD_BITS) - 1;
  }

  /** The result is the largest power of two that does not exceed the argument. */
  lemma RoundupRoundsDown(n: u64)
    requires n > 0
    ensures IsPow2(RoundupPowOfTwo(n))
    ensures RoundupPowOfTwo(n) <= n < 2 * RoundupPowOfTwo(n)
    ensures RoundupPowOfTwo(n) == n <==> IsPow2(n)
    ensures exists k: nat :: k < WORD_BITS && RoundupPowOfTwo(n) == Pow2(k)
  {
    var k := RoundupIsPow2(n);
    if IsPow2(n) && n != Pow2(k) {
      var j: nat :| n == Pow2(j);
      if j < k { Pow2Mono(j, k); } else { Pow2Mono(k, j); }
      assert false;
    }
  }

  /** The header's comment promises the next power up; five is rounded to four, not eight. */
  lemma RoundupIsNotUp()
    ensures RoundupPowOfTwo(5) == 4
  {
    RoundupRoundsDown(5);
    var k: nat :| k < WORD_BITS && RoundupPowOfTwo(5) == Pow2(k);
    if k > 2 { Pow2Mono(2, k); }
  }
}

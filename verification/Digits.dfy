/** What the arithmetic unit's logic and shift operations do to the single bits of a word. */
module Digits {
  import opened Words
  import opened Isa

  lemma {:induction false} CombineDigit(f: (bool, bool) -> bool, a: nat, b: nat, bits: nat, k: nat)
    requires k < bits
    ensures Digit(Combine(f, a, b, bits), k) == f(Digit(a, k), Digit(b, k))
  {
    var rest := Combine(f, a / 2, b / 2, bits - 1);
    assert Combine(f, a, b, bits) / 2 == rest;
    if k > 0 {
      CombineDigit(f, a / 2, b / 2, bits - 1, k - 1);
    }
  }

  /** Adding a multiple of a power of two leaves the bits below it alone. */
  lemma {:induction false} LowDigits(x: int, m: int, bits: nat, k: nat)
    requires k < bits
    ensures Digit(x + m * Pow2(bits), k) == Digit(x, k)
    decreases k
  {
    assert Pow2(bits) == 2 * Pow2(bits - 1);
    assert m * Pow2(bits) == 2 * (m * Pow2(bits - 1));
    assert (x + m * Pow2(bits)) / 2 == x / 2 + m * Pow2(bits - 1);
    if k > 0 {
      LowDigits(x / 2, m, bits - 1, k - 1);
    }
  }

  lemma {:induction false} ZeroDigit(k: nat)
    ensures !Digit(0, k)
  {
    if k > 0 {
      ZeroDigit(k - 1);
    }
  }

  lemma WrapDigit(x: int, k: nat)
    requires k < 32
    ensures Digit(Wrap(x), k) == Digit(x, k)
  {
    Pow2Word();
    assert x == Wrap(x) + x / WORD_LIMIT * WORD_LIMIT;
    LowDigits(Wrap(x), x / WORD_LIMIT, 32, k);
  }

  lemma {:induction false} ScaledDigit(x: int, n: nat, k: nat)
    ensures Digit(x * Pow2(n), k) == (k >= n && Digit(x, k - n))
    decreases n
  {
    if n > 0 {
      assert x * Pow2(n) == 2 * (x * Pow2(n - 1));
      if k > 0 {
        ScaledDigit(x, n - 1, k - 1);
      }
    }
  }

  lemma {:induction false} QuotientDigit(x: int, n: nat, k: nat)
    ensures Digit(x / Pow2(n), k) == Digit(x, k + n)
    decreases n
  {
    if n > 0 {
      HalveThenDivide(x, Pow2(n - 1));
      QuotientDigit(x / 2, n - 1, k);
    }
  }

  lemma HalveThenDivide(x: int, d: nat)
    requires d > 0
    ensures x / (2 * d) == x / 2 / d
  {
    var q := x / 2 / d;
    assert x == 2 * (q * d + x / 2 % d) + x % 2;
    assert 0 <= 2 * (x / 2 % d) + x % 2 < 2 * d;
    QuotientUnique(x, 2 * d, q, 2 * (x / 2 % d) + x % 2);
  }

  lemma QuotientUnique(x: int, d: nat, q: int, r: nat)
    requires r < d && x == q * d + r
    ensures x / d == q
  {
    var e := x / d - q;
    assert e * d == r - x % d;
    assert e > 0 ==> e * d >= d;
    assert e < 0 ==> e * d <= 0 - d;
  }

  lemma {:induction false} SignDigits(x: int, bits: nat, k: nat)
    requires k >= bits && -(Pow2(bits) as int) <= x < Pow2(bits)
    ensures Digit(x, k) == (x < 0)
    decreases k
  {
    if k > 0 {
      SignDigits(x / 2, if bits == 0 then 0 else bits - 1, k - 1);
    }
  }

  /** Bit by bit, each logic operation is the one its name says. */
  lemma LogicByDigit(a: Word, b: Word, k: nat)
    requires k < 32
    ensures Digit(And(a, b), k) == (Digit(a, k) && Digit(b, k))
    ensures Digit(Or(a, b), k) == (Digit(a, k) || Digit(b, k))
    ensures Digit(Xor(a, b), k) == (Digit(a, k) != Digit(b, k))
    ensures Digit(WORD_LIMIT - 1 - Or(a, b), k) == !(Digit(a, k) || Digit(b, k))
  {
    hide Combine, Digit;
    CombineDigit((x, y) => x && y, a, b, 32, k);
    CombineDigit((x, y) => x || y, a, b, 32, k);
    CombineDigit((x, y) => x != y, a, b, 32, k);
    ComplementDigit(Or(a, b), k);
    WrapDigit(-1 - Or(a, b), k);
  }

  lemma {:induction false} ComplementDigit(x: int, k: nat)
    ensures Digit(-1 - x, k) == !Digit(x, k)
    decreases k
  {
    assert (-1 - x) / 2 == -1 - x / 2;
    if k > 0 {
      ComplementDigit(x / 2, k - 1);
    }
  }

  /** Each shift moves the bits by its count and fills with zeros or the sign. */
  lemma ShiftByDigit(a: Word, n: Word, k: nat)
    requires k < 32 && n < 32
    ensures Digit(ShiftLeft(a, n), k) == (k >= n && Digit(a, k - n))
    ensures Digit(ShiftRight(a, n), k) == (k + n < 32 && Digit(a, k + n))
    ensures Digit(ShiftRightSigned(a, n), k) == Digit(a, if k + n < 32 then k + n else 31)
  {
    hide Digit, Pow2;
    WrapDigit(a * Pow2(n), k);
    ScaledDigit(a, n, k);
    WrapDigit(a / Pow2(n), k);
    QuotientDigit(a, n, k);
    Pow2Word();
    if k + n >= 32 { SignDigits(a, 32, k + n); }
    WrapDigit(SignedValue(a) / Pow2(n), k);
    QuotientDigit(SignedValue(a), n, k);
    SignedDigit(a, k + n);
  }

  /** Read as a signed number, a word repeats its top bit for ever. */
  lemma SignedDigit(a: Word, k: nat)
    ensures Digit(SignedValue(a), k) == Digit(a, if k < 32 then k else 31)
  {
    hide Digit, Pow2;
    Pow2Word();
    var s := SignedValue(a);
    var top := if k < 32 then k else 31;
    LowDigits(a, if a < 0x8000_0000 then 0 else -1, 32, top);
    if k >= 31 {
      SignDigits(s, 31, k);
      SignDigits(s, 31, 31);
    }
  }

  /** Words with the same 32 bits are equal. */
  lemma {:induction false} DigitsDetermine(a: nat, b: nat, bits: nat)
    requires a < Pow2(bits) && b < Pow2(bits)
    requires forall k: nat :: k < bits ==> Digit(a, k) == Digit(b, k)
    ensures a == b
  {
    if bits > 0 {
      assert Digit(a, 0) == Digit(b, 0);
      forall k: nat | k < bits - 1
        ensures Digit(a / 2, k) == Digit(b / 2, k)
      {
        assert Digit(a, k + 1) == Digit(b, k + 1);
      }
      DigitsDetermine(a / 2, b / 2, bits - 1);
    }
  }

  lemma ProductGrows(u: nat, v: nat, m: nat)
    requires u <= m && v <= m
    ensures 0 <= u * v <= m * m
  {
    assert u * v <= u * m;
    assert u * m <= m * m;
  }

  lemma ProductBound(x: int, y: int, m: int)
    requires -m <= x <= m && -m <= y <= m
    ensures -(m * m) <= x * y <= m * m
    ensures x >= 0 && y >= 0 ==> x * y >= 0
  {
    ProductGrows(if x < 0 then -x else x, if y < 0 then -y else y, m);
    assert (-x) * y == -(x * y) && x * (-y) == -(x * y) && (-x) * (-y) == x * y;
  }

  /** HI and LO together are the exact product, signed or unsigned. */
  lemma ProductExact(signed: bool, a: Word, b: Word)
    ensures var p := Multiply(signed, a, b);
            if signed then SignedValue(p.high) * WORD_LIMIT + p.low == SignedValue(a) * SignedValue(b)
            else p.high * WORD_LIMIT + p.low == a * b
  {
    hide Split, Wrap;
    if signed {
      ProductBound(SignedValue(a), SignedValue(b), 0x8000_0000);
      HalvesExact(true, SignedValue(a) * SignedValue(b));
    } else {
      ProductBound(a, b, WORD_LIMIT - 1);
      HalvesExact(false, a as int * b as int);
    }
  }

  lemma HalvesExact(signed: bool, p: int)
    requires if signed then -0x4000_0000_0000_0000 <= p <= 0x4000_0000_0000_0000
             else 0 <= p < WORD_LIMIT * WORD_LIMIT
    ensures (if signed then SignedValue(Split(p).high) else Split(p).high as int) * WORD_LIMIT + Split(p).low == p
  {
    var q := p / WORD_LIMIT;
    assert p == q * WORD_LIMIT + Wrap(p);
    assert if signed then -0x4000_0000 <= q <= 0x4000_0000 else 0 <= q < WORD_LIMIT;
  }

  /** The digits of a number put together from a high and a low part. */
  lemma {:induction false} ComposeDigit(x: int, y: nat, n: nat, k: nat)
    requires y < Pow2(n)
    ensures Digit(x * Pow2(n) + y, k) == if k < n then Digit(y, k) else Digit(x, k - n)
    decreases n
  {
    if k < n {
      LowDigits(y, x, n, k);
    } else if n > 0 {
      assert x * Pow2(n) == 2 * (x * Pow2(n - 1));
      assert (x * Pow2(n) + y) / 2 == x * Pow2(n - 1) + y / 2;
      ComposeDigit(x, y / 2, n - 1, k - 1);
    }
  }

  /** Replacing the `n` digits from `low` on replaces those and no others. */
  lemma FieldDigits(h: int, m: nat, l: nat, v: nat, low: nat, n: nat, k: nat)
    requires l < Pow2(low) && m < Pow2(n) && v < Pow2(n)
    ensures Digit((h * Pow2(n) + v) * Pow2(low) + l, k)
            == if low <= k < low + n then Digit(v, k - low) else Digit((h * Pow2(n) + m) * Pow2(low) + l, k)
  {
    hide Digit, Pow2;
    ComposeDigit(h * Pow2(n) + v, l, low, k);
    ComposeDigit(h * Pow2(n) + m, l, low, k);
    if k >= low {
      ComposeDigit(h, v, n, k - low);
      ComposeDigit(h, m, n, k - low);
    }
  }

  /** The same for a word and a field given by its weight and size. */
  lemma ReplacedDigits(w: Word, v: nat, low: nat, n: nat, scale: nat, size: nat, k: nat)
    requires k < 32 && Pow2(low) == scale && Pow2(n) == size && v < size
    ensures Digit(Wrap(w - (w / scale) % size * scale + v * scale), k)
            == if low <= k < low + n then Digit(v, k - low) else Digit(w, k)
  {
    hide Digit, Pow2;
    var l, q := w % scale, w / scale;
    var m, h := q % size, q / size;
    assert w == q * scale + l;
    assert q == h * size + m;
    assert w - m * scale + v * scale == (h * size + v) * scale + l by {
      assert q * scale - m * scale == (q - m) * scale;
      assert (h * size) * scale + v * scale == (h * size + v) * scale;
    }
    FieldDigits(h, m, l, v, low, n, k);
    WrapDigit(w - m * scale + v * scale, k);
  }
}

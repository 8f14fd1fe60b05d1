/** Unsigned-integer bit operations used by the codec, defined on `nat`.
    The C code uses `<<`, `&` and `^` on 32-bit unsigned values; the sector mask's
    `0xFFFF << bit_sector` stays below 2^31 and every other use in the codec below
    2^24, so the 32-bit truncation never takes effect and these definitions on
    unbounded naturals agree with the C operators. */
module Bitwise {

  /** 2^n. */
  function Pow2(n: nat): (r: nat)
    ensures r >= 1
  {
    if n == 0 then 1 else 2 * Pow2(n - 1)
  }

  /** The powers of two that name the codec's constants. */
  lemma Pow2Table()
    ensures Pow2(1) == 2 && Pow2(2) == 4 && Pow2(4) == 16 && Pow2(8) == 256
    ensures Pow2(10) == 1024 && Pow2(13) == 0x2000 && Pow2(15) == 0x8000 && Pow2(16) == 0x10000
  {
    assert Pow2(0) == 1;
    assert Pow2(1) == 2;
    assert Pow2(2) == 4;
    assert Pow2(3) == 8;
    assert Pow2(4) == 16;
    assert Pow2(5) == 32;
    assert Pow2(6) == 64;
    assert Pow2(7) == 128;
    assert Pow2(8) == 256;
    assert Pow2(9) == 512;
    assert Pow2(10) == 1024;
    assert Pow2(11) == 2048;
    assert Pow2(12) == 4096;
    assert Pow2(13) == 8192;
    assert Pow2(14) == 16384;
    assert Pow2(15) == 32768;
  }

  /** Bitwise AND of two naturals, bit by bit from the least significant end. */
  function BitAnd(x: nat, y: nat): nat
    decreases x
  {
    if x == 0 || y == 0 then 0
    else 2 * BitAnd(x / 2, y / 2) + (if x % 2 == 1 && y % 2 == 1 then 1 else 0)
  }

  /** Bitwise exclusive OR of two naturals. */
  function Xor(x: nat, y: nat): nat
    decreases x + y
  {
    if x == 0 then y
    else if y == 0 then x
    else 2 * Xor(x / 2, y / 2) + (if x % 2 != y % 2 then 1 else 0)
  }

  /** `x << s`. */
  function Shl(x: nat, s: nat): nat
    decreases s
  {
    if s == 0 then x else 2 * Shl(x, s - 1)
  }

  lemma {:induction false} Pow2Add(a: nat, b: nat)
    ensures Pow2(a + b) == Pow2(a) * Pow2(b)
  {
    if a > 0 {
      Pow2Add(a - 1, b);
    }
  }

  lemma {:induction false} Pow2Monotone(a: nat, b: nat)
    requires a <= b
    ensures Pow2(a) <= Pow2(b)
  {
    if a < b {
      Pow2Monotone(a, b - 1);
    }
  }

  /** A positive multiple of m is at least m. */
  lemma MulAtLeast(m: int, k: int)
    requires m > 0 && k >= 1
    ensures m * k >= m
  {
    assert m * k == m * (k - 1) + m;
    assert m * (k - 1) >= 0;
  }

  /** Multiplication by a natural is monotone. */
  lemma MulMonotone(a: int, b: int, c: int)
    requires 0 <= a <= b && c >= 0
    ensures a * c <= b * c
  {
    assert b * c - a * c == (b - a) * c;
  }

  /** a + v * 2^e, for a below 2^e and v below 2^w, lies below 2^(e + w). */
  lemma FieldBound(a: nat, e: nat, v: nat, w: nat)
    requires a < Pow2(e) && v < Pow2(w)
    ensures 0 <= v * Pow2(e) && a + v * Pow2(e) < Pow2(e + w)
  {
    var m, k := Pow2(e), Pow2(w);
    Pow2Add(e, w);
    MulMonotone(v, k - 1, m);
    MulPred(m, k);
    assert (k - 1) * m == m * (k - 1);
  }

  lemma MulPred(a: int, b: int)
    ensures a * (b - 1) == a * b - a
  {
  }

  /** Division with remainder is unique. */
  lemma DivModUnique(x: int, m: int, q: int, r: int)
    requires m > 0 && 0 <= r < m && x == m * q + r
    ensures x / m == q && x % m == r
  {
    var q0, r0 := x / m, x % m;
    assert x == m * q0 + r0;
    assert m * q - m * q0 == r0 - r;
    assert m * (q - q0) == r0 - r;
    if q > q0 {
      MulAtLeast(m, q - q0);
    } else if q < q0 {
      MulAtLeast(m, q0 - q);
    }
  }

  /** Division of a natural by a positive number. */
  lemma DivBelow(x: int, m: int, k: int)
    requires x >= 0 && m > 0 && x < m * k
    ensures x / m < k
  {
    DivModNat(x, m);
  }

  lemma DivModNat(x: int, m: int)
    requires x >= 0 && m > 0
    ensures x / m >= 0 && 0 <= x % m < m && x == m * (x / m) + x % m
  {
  }

  /** x mod 2^n, split off its lowest bit. */
  lemma ModPow2Split(x: nat, n: nat)
    requires n >= 1
    ensures x % Pow2(n) == 2 * ((x / 2) % Pow2(n - 1)) + x % 2
  {
    var m := Pow2(n - 1);
    var h := x / 2;
    assert x == 2 * h + x % 2;
    assert h == m * (h / m) + h % m;
    assert x == Pow2(n) * (h / m) + (2 * (h % m) + x % 2);
    DivModUnique(x, Pow2(n), h / m, 2 * (h % m) + x % 2);
  }

  /** Masking with 2^n - 1 keeps the low n bits: `x & (2^n - 1) == x mod 2^n`. */
  lemma {:induction false} AndLowMask(x: nat, n: nat)
    ensures BitAnd(x, Pow2(n) - 1) == x % Pow2(n)
  {
    if n == 0 {
      assert BitAnd(x, 0) == 0;
      DivModUnique(x, 1, x, 0);
    } else if x == 0 {
      DivModUnique(0, Pow2(n), 0, 0);
    } else {
      AndLowMask(x / 2, n - 1);
      LowMaskStep(x, n);
    }
  }

  /** The inductive step of AndLowMask: the mask's lowest bit is set. */
  lemma LowMaskStep(x: nat, n: nat)
    requires n >= 1 && x > 0
    requires BitAnd(x / 2, Pow2(n - 1) - 1) == (x / 2) % Pow2(n - 1)
    ensures BitAnd(x, Pow2(n) - 1) == x % Pow2(n)
  {
    var y := Pow2(n) - 1;
    var h := Pow2(n - 1);
    assert Pow2(n) == 2 * h;
    DivModUnique(y, 2, h - 1, 1);
    BitAndStep(x, y);
    ModPow2Split(x, n);
  }

  /** `x & 0xFF` is the low byte of x. */
  lemma AndByte(x: nat)
    ensures BitAnd(x, 0xFF) == x % 256
  {
    Pow2Table();
    AndLowMask(x, 8);
  }

  /** Masking a value below 2^n with 2^n - 2^s clears its low s bits. */
  lemma {:induction false} AndHighMask(x: nat, s: nat, n: nat)
    requires s <= n && x < Pow2(n)
    ensures Pow2(s) <= Pow2(n) && BitAnd(x, Pow2(n) - Pow2(s)) == x - x % Pow2(s)
    decreases s, 1
  {
    Pow2Monotone(s, n);
    if s == 0 {
      HighMaskWhole(x, n);
    } else if s == n {
      HighMaskEmpty(x, n);
    } else {
      HighMaskShift(x, s, n);
    }
  }

  /** AndHighMask for 0 < s < n, from the same fact about x / 2. */
  lemma {:induction false} HighMaskShift(x: nat, s: nat, n: nat)
    requires 0 < s < n && x < Pow2(n)
    ensures Pow2(s) <= Pow2(n) && BitAnd(x, Pow2(n) - Pow2(s)) == x - x % Pow2(s)
    decreases s, 0
  {
    Pow2Monotone(s, n);
    if x == 0 {
      DivModUnique(0, Pow2(s), 0, 0);
    } else {
      var h := x / 2;
      assert h < Pow2(n - 1);
      AndHighMask(h, s - 1, n - 1);
      HighMaskStep(x, h, s, n);
    }
  }

  /** The mask 2^n - 1 keeps a value below 2^n whole. */
  lemma HighMaskWhole(x: nat, n: nat)
    requires x < Pow2(n)
    ensures BitAnd(x, Pow2(n) - Pow2(0)) == x - x % Pow2(0)
  {
    AndLowMask(x, n);
    DivModUnique(x, Pow2(n), 0, x);
    DivModUnique(x, 1, x, 0);
  }

  /** The empty mask clears a value below 2^n. */
  lemma HighMaskEmpty(x: nat, n: nat)
    requires x < Pow2(n)
    ensures BitAnd(x, Pow2(n) - Pow2(n)) == x - x % Pow2(n)
  {
    DivModUnique(x, Pow2(n), 0, x);
    assert BitAnd(x, 0) == 0;
  }

  /** The inductive step of AndHighMask: the mask's lowest bit is clear. */
  lemma HighMaskStep(x: nat, h: nat, s: nat, n: nat)
    requires 1 <= s < n && 0 < x && h == x / 2 && Pow2(s - 1) <= Pow2(n - 1)
    requires BitAnd(h, Pow2(n - 1) - Pow2(s - 1)) == h - h % Pow2(s - 1)
    ensures BitAnd(x, Pow2(n) - Pow2(s)) == x - x % Pow2(s)
  {
    var y := Pow2(n) - Pow2(s);
    HighMaskHalf(s, n);
    BitAndStep(x, y);
    var hm := h % Pow2(s - 1);
    assert BitAnd(x, y) == 2 * (h - hm);
    ModPow2Split(x, s);
    DivModNat(x, 2);
  }

  /** One bit of BitAnd. */
  lemma BitAndStep(x: nat, y: nat)
    requires x > 0 && y > 0
    ensures BitAnd(x, y) == 2 * BitAnd(x / 2, y / 2) + (if x % 2 == 1 && y % 2 == 1 then 1 else 0)
  {
  }

  lemma HighMaskHalf(s: nat, n: nat)
    requires 1 <= s < n
    ensures Pow2(n) - Pow2(s) > 0
    ensures (Pow2(n) - Pow2(s)) / 2 == Pow2(n - 1) - Pow2(s - 1)
    ensures (Pow2(n) - Pow2(s)) % 2 == 0
  {
    Pow2Monotone(s, n - 1);
  }

  /** XOR of two values below 2^n stays below 2^n. */
  lemma {:induction false} XorBound(x: nat, y: nat, n: nat)
    requires x < Pow2(n) && y < Pow2(n)
    ensures Xor(x, y) < Pow2(n)
  {
    if x != 0 && y != 0 {
      XorBound(x / 2, y / 2, n - 1);
    }
  }

  lemma Pow2Of32()
    ensures Pow2(32) == 0x1_0000_0000
  {
    Pow2Table();
    Pow2Add(16, 16);
  }

  /** Reducing modulo a multiple of n first does not change the remainder mod n. */
  lemma ModOfMultiple(x: int, n: int, w: int)
    requires n > 0 && w > 0
    ensures n * w > 0 && (x % (n * w)) % n == x % n
  {
    var m := n * w;
    MulAtLeast(n, w);
    var q, r := x / m, x % m;
    var q2, r2 := r / n, r % n;
    assert x == m * q + r;
    assert r == n * q2 + r2;
    assert m * q == n * (w * q);
    assert x == n * (w * q + q2) + r2;
    DivModUnique(x, n, w * q + q2, r2);
  }

  /** Masking the 32-bit wrap of x with 2^db - 1 gives x mod 2^db: the C
      expression `(a - b) & (2^db - 1)` on unsigned values is the Euclidean
      remainder of a - b. */
  lemma WrapMask(x: int, db: nat)
    requires db <= 32
    ensures BitAnd(x % 0x1_0000_0000, Pow2(db) - 1) == x % Pow2(db)
  {
    Pow2Of32();
    Pow2Add(db, 32 - db);
    AndLowMask(x % 0x1_0000_0000, db);
    ModOfMultiple(x, Pow2(db), Pow2(32 - db));
  }
}

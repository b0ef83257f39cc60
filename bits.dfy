/**
 * Arithmetic on bit patterns: powers of two, quotient and remainder, and the
 * shift and mask operators of C on `uint32_t` written as arithmetic.
 *
 * Every nonlinear step is taken by a small lemma about plain numbers; the
 * lemmas about powers of two only instantiate those.
 */
module Bits {

  /** 2^32: one past the largest 32-bit pattern. */
  const WORD: nat := 0x1_0000_0000

  /** The bit pattern of an `int32_t` or `uint32_t`. */
  type u32 = x: int | 0 <= x < WORD

  function Min(a: nat, b: nat): nat {
    if a < b then a else b
  }

  // ---------------------------------------------------------------------------
  // Products, quotients and remainders
  // ---------------------------------------------------------------------------

  lemma MulLe(d: int, a: int, b: int)
    requires d >= 0 && a <= b
    ensures d * a <= d * b
  {
    assert d * b - d * a == d * (b - a);
  }

  /** A number below `p`, scaled by `q`, is at least `q` below `p * q`. */
  lemma MulBelow(f: nat, p: nat, q: nat)
    requires f < p
    ensures f * q <= p * q - q
  {
    MulLe(q, f, p - 1);
    assert q * (p - 1) == p * q - q;
  }

  lemma MulAssoc(a: int, b: int, c: int)
    ensures a * (b * c) == (a * b) * c
    ensures a * (b * c) == b * (a * c)
  {
  }

  /** A product known by another name scales by that name. */
  lemma MulCongr(a: int, b: int, k: int, c: int)
    requires a * b == k
    ensures k * c == a * (b * c)
  {
  }

  lemma MulNonneg(a: nat, b: nat)
    ensures a * b >= 0
  {
  }

  lemma MulAdd(a: int, b: int, c: int)
    ensures a * (b + c) == a * b + a * c
  {
  }

  /** The quotient-remainder equation. */
  lemma DivMod(x: int, d: int)
    requires d > 0
    ensures x == d * (x / d) + x % d && 0 <= x % d < d
  {
  }

  /** Division and remainder are fixed by the quotient-remainder equation. */
  lemma DivModUnique(x: int, d: int, q: int, r: int)
    requires d > 0 && 0 <= r < d && x == d * q + r
    ensures x / d == q && x % d == r
  {
    var q', r' := x / d, x % d;
    if q' < q {
      MulLe(d, q' + 1, q);
    } else if q' > q {
      MulLe(d, q + 1, q');
    }
  }

  lemma ModSmall(m: int, d: int)
    requires 0 <= m < d
    ensures m % d == m
  {
    DivModUnique(m, d, 0, m);
  }

  /** A product that fits in a word is its own remainder modulo 2^32. */
  lemma ShlSmall(m: nat, q: nat)
    requires m * q < WORD
    ensures m * q % WORD == m * q
  {
    ModSmall(m * q, WORD);
  }

  /** `x + d` in 32-bit arithmetic, as an atomic increment by `d` leaves a word. */
  function AddWrap(x: u32, d: int): (r: u32)
    ensures 0 <= x + d < WORD ==> r == x + d
  {
    (x + d) % 0x1_0000_0000
  }

  /** A 32-bit increment followed by a 32-bit decrement gives the value back. */
  lemma IncDec(n: u32)
    ensures AddWrap(AddWrap(n, 1), -1) == n
  {
  }


  lemma AddMulDiv(a: int, m: int, q: int)
    requires m > 0
    ensures (a + m * q) / m == a / m + q
    ensures (a + m * q) % m == a % m
  {
    DivModUnique(a + m * q, m, a / m + q, a % m);
  }

  /** Adding whole multiples of `m` moves the quotient and keeps the remainder. */
  lemma DivAdd(x: int, a: int, m: int, q: int)
    requires m > 0 && x == a + m * q
    ensures x / m == a / m + q && x % m == a % m
  {
    DivMod(a, m);
    MulAdd(m, a / m, q);
    DivModUnique(x, m, a / m + q, a % m);
  }


  lemma DivDiv(x: nat, a: nat, b: nat)
    requires a > 0 && b > 0
    ensures x / a / b == x / (a * b)
    ensures x % (a * b) == x % a + a * (x / a % b)
  {
    var q := x / a / b;
    var r := x % a + a * (x / a % b);
    assert x / a == b * q + x / a % b;
    assert x == (a * b) * q + r by {
      calc {
        x;
        a * (x / a) + x % a;
        a * (b * q + x / a % b) + x % a;
        (a * b) * q + r;
      }
    }
    assert a * (x / a % b) <= a * (b - 1);
    DivModUnique(x, a * b, q, r);
  }

  // ---------------------------------------------------------------------------
  // Powers of two
  // ---------------------------------------------------------------------------

  function Pow2(n: nat): (p: nat)
    ensures p >= 1
  {
    if n == 0 then 1 else 2 * Pow2(n - 1)
  }

  lemma {:induction false} Pow2Add(a: nat, b: nat)
    ensures Pow2(a + b) == Pow2(a) * Pow2(b)
    decreases a
  {
    if a > 0 {
      Pow2Add(a - 1, b);
      MulAssoc(2, Pow2(a - 1), Pow2(b));
      assert Pow2(a + b) == 2 * Pow2(a - 1 + b);
    }
  }

  /** `Pow2Add` with the sum named, so that callers need not match `a + b`. */
  lemma Pow2Sum(a: nat, b: nat, c: nat)
    requires a + b == c
    ensures Pow2(c) == Pow2(a) * Pow2(b)
  {
    Pow2Add(a, b);
  }

  lemma {:induction false} Pow2Mono(a: nat, b: nat)
    requires a <= b
    ensures Pow2(a) <= Pow2(b)
    decreases b
  {
    if a < b {
      Pow2Mono(a, b - 1);
    }
  }

  lemma Pow2Word()
    ensures Pow2(32) == WORD
  {
    assert Pow2(8) == 256;
    Pow2Add(8, 8);
    Pow2Add(16, 16);
  }

  /** No power of two up to 2^32 exceeds a word. */
  lemma LowMaskFits(n: nat)
    requires n <= 32
    ensures Pow2(n) <= WORD
  {
    Pow2Mono(n, 32);
    Pow2Word();
  }

  // ---------------------------------------------------------------------------
  // Bits of a number
  // ---------------------------------------------------------------------------

  /** `x` without its low `s` bits: `x >> s` on an unbounded number, one bit at a time. */
  function Drop(x: nat, s: nat): (r: nat)
    ensures r <= x
    decreases s
  {
    if s == 0 then x else Drop(x / 2, s - 1)
  }

  /** `Drop` as division. */
  lemma {:induction false} DropDef(x: nat, s: nat)
    ensures Drop(x, s) == x / Pow2(s)
    decreases s
  {
    if s > 0 {
      DropDef(x / 2, s - 1);
      DivDiv(x, 2, Pow2(s - 1));
    }
  }

  /** The low `n` bits of `x`: `x & ((1 << n) - 1)` on an unbounded number. */
  function Low(x: nat, n: nat): (r: nat)
    ensures r < Pow2(n)
    decreases n
  {
    if n == 0 then 0 else x % 2 + 2 * Low(x / 2, n - 1)
  }

  /** The lowest bit survives any nonempty mask. */
  lemma LowParity(x: nat, n: nat)
    requires n > 0
    ensures Low(x, n) % 2 == x % 2
  {
  }

  /** `Low` as a remainder. */
  lemma {:induction false} LowDef(x: nat, n: nat)
    ensures Low(x, n) == x % Pow2(n)
    decreases n
  {
    if n > 0 {
      LowDef(x / 2, n - 1);
      DivDiv(x, 2, Pow2(n - 1));
    }
  }

  /** `x` is its low `s` bits under the rest. */
  lemma DropMod(x: nat, s: nat)
    ensures x == Pow2(s) * Drop(x, s) + Low(x, s)
  {
    DropDef(x, s);
    LowDef(x, s);
    DivMod(x, Pow2(s));
  }

  /** A number below `2^s` has nothing left once `s` bits are removed. */
  lemma DropSmall(x: nat, s: nat)
    requires x < Pow2(s)
    ensures Drop(x, s) == 0 && Low(x, s) == x
  {
    DropDef(x, s);
    LowDef(x, s);
    DivModUnique(x, Pow2(s), 0, x);
  }

  /** `hi << r` on an unbounded number. */
  function Shift(hi: nat, r: nat): nat
    decreases r
  {
    if r == 0 then hi else 2 * Shift(hi, r - 1)
  }

  /** `Shift` as arithmetic. */
  lemma {:induction false} ShiftDef(hi: nat, r: nat)
    ensures Shift(hi, r) == Pow2(r) * hi
    decreases r
  {
    if r > 0 {
      ShiftDef(hi, r - 1);
      MulAssoc(2, Pow2(r - 1), hi);
    }
  }

  /** `hi` placed above the low `r` bits held by `lo`: `lo | (hi << r)` when `lo < 2^r`. */
  function Join(lo: nat, hi: nat, r: nat): nat
  {
    lo + Shift(hi, r)
  }

  /** `Join` as arithmetic. */
  lemma JoinDef(lo: nat, hi: nat, r: nat)
    ensures Join(lo, hi, r) == lo + Pow2(r) * hi
  {
    ShiftDef(hi, r);
  }

  /** Joining nothing leaves a number as it is. */
  lemma JoinZero(c: nat, r: nat)
    ensures Join(c, 0, r) == c
  {
    JoinDef(c, 0, r);
  }

  /** A low part below `2^r` and a high part joined at bit `r` come apart again. */
  lemma Glue(lo: nat, hi: nat, r: nat)
    requires lo < Pow2(r)
    ensures Low(Join(lo, hi, r), r) == lo && Drop(Join(lo, hi, r), r) == hi
  {
    GlueLow(lo, hi, r);
    GlueDrop(lo, hi, r);
  }

  /** The low `r` bits of a join at `r` are its low part. */
  lemma {:induction false} GlueLow(lo: nat, hi: nat, r: nat)
    requires lo < Pow2(r)
    ensures Low(Join(lo, hi, r), r) == lo
    decreases r
  {
    if r > 0 {
      AddMulDiv(lo, 2, Shift(hi, r - 1));
      GlueLow(lo / 2, hi, r - 1);
    }
  }

  /** Removing the low `r` bits of a join at `r` leaves its high part. */
  lemma {:induction false} GlueDrop(lo: nat, hi: nat, r: nat)
    requires lo < Pow2(r)
    ensures Drop(Join(lo, hi, r), r) == hi
    decreases r
  {
    if r > 0 {
      AddMulDiv(lo, 2, Shift(hi, r - 1));
      GlueDrop(lo / 2, hi, r - 1);
    }
  }

  /** Joining at `a` and then at `a + b` is joining a joined pair at `a`. */
  lemma JoinAssoc(c: nat, x: nat, y: nat, a: nat, b: nat, ab: nat)
    requires ab == a + b
    ensures Join(Join(c, x, a), y, ab) == Join(c, Join(x, y, b), a)
  {
    JoinDef(c, x, a);
    JoinDef(Join(c, x, a), y, ab);
    JoinDef(x, y, b);
    JoinDef(c, Join(x, y, b), a);
    Pow2Add(a, b);
    MulCongr(Pow2(a), Pow2(b), Pow2(a + b), y);
    MulAdd(Pow2(a), x, Pow2(b) * y);
  }

  /** Bits `[s, s + n)` of `x`, as a number: `(x >> s) & ((1 << n) - 1)`. */
  function Field(x: nat, s: nat, n: nat): (f: nat)
    ensures f < Pow2(n)
  {
    Low(Drop(x, s), n)
  }

  /** Bit `p` of `x`. */
  predicate BitOf(x: nat, p: nat) {
    Drop(x, p) % 2 == 1
  }

  /** Removing the low `a` bits and then the next `b` bits removes `a + b` bits. */
  lemma {:induction false} DropDrop(x: nat, a: nat, b: nat)
    ensures Drop(Drop(x, a), b) == Drop(x, a + b)
    decreases a
  {
    if a > 0 {
      DropDrop(x / 2, a - 1, b);
    }
  }

  /** The low `a + b` bits are the low `a` bits under the `b` bits above them. */
  lemma {:induction false} LowSplit(x: nat, a: nat, b: nat)
    ensures Low(x, a + b) == Join(Low(x, a), Field(x, a, b), a)
    decreases a
  {
    if a > 0 {
      LowSplit(x / 2, a - 1, b);
    }
  }

  /** A field of `a + b` bits is its low `a` bits under the next `b`. */
  lemma FieldSplit(x: nat, s: nat, a: nat, b: nat, sa: nat, ab: nat)
    requires sa == s + a && ab == a + b
    ensures Field(x, s, ab) == Join(Field(x, s, a), Field(x, sa, b), a)
  {
    LowSplit(Drop(x, s), a, b);
    DropDrop(x, s, a);
  }

  // ---------------------------------------------------------------------------
  // The bit operations of the source on 32-bit patterns
  // ---------------------------------------------------------------------------

  /** `x << d` on `uint32_t`: bits moved past bit 31 are lost. */
  function Shl(x: u32, d: nat): u32 {
    x * Pow2(d) % WORD
  }

  /** `x >> d` on `uint32_t`. */
  function Shr(x: u32, d: nat): (r: u32)
    ensures r <= x
  {
    Drop(x, d)
  }

  /** `x & y`, bit by bit from the least significant. */
  function And(x: nat, y: nat): (r: nat)
    ensures r <= x
    decreases x
  {
    if x == 0 || y == 0 then 0
    else 2 * And(x / 2, y / 2) + (if x % 2 == 1 && y % 2 == 1 then 1 else 0)
  }

  /** `x & ((1 << n) - 1)` keeps the low `n` bits. */
  lemma {:induction false} AndLowMask(x: nat, n: nat)
    ensures And(x, Pow2(n) - 1) == Low(x, n)
    decreases n
  {
    if n > 0 {
      AndLowMask(x / 2, n - 1);
      assert Pow2(n) - 1 == 2 * (Pow2(n - 1) - 1) + 1;
      AddMulDiv(1, 2, Pow2(n - 1) - 1);
    }
  }

  /** An even mask selects from `x` shifted right by one. */
  lemma AndDouble(x: nat, z: nat)
    ensures And(x, 2 * z) == 2 * And(x / 2, z)
  {
    if x != 0 && z != 0 {
      assert (2 * z) / 2 == z && (2 * z) % 2 == 0;
    }
  }

  /** A mask shifted left by `s` selects from `x` shifted right by `s`. */
  lemma {:induction false} AndShifted(x: nat, y: nat, s: nat)
    ensures And(x, y * Pow2(s)) == And(Drop(x, s), y) * Pow2(s)
    decreases s
  {
    if s > 0 {
      var p := Pow2(s - 1);
      var r := And(Drop(x, s), y);
      assert Pow2(s) == 2 * p;
      calc {
        And(x, y * Pow2(s));
        { MulAssoc(y, 2, p); }
        And(x, 2 * (y * p));
        { AndDouble(x, y * p); }
        2 * And(x / 2, y * p);
        { AndShifted(x / 2, y, s - 1); }
        2 * (r * p);
        { MulAssoc(r, 2, p); }
        r * Pow2(s);
      }
    }
  }

  /** A field of `n` bits placed at `at` stays within 32 bits. */
  lemma FieldFits(f: nat, n: nat, at: nat)
    requires f < Pow2(n) && at + n <= 32
    ensures f * Pow2(at) < WORD
  {
    Pow2Add(n, at);
    LowMaskFits(n + at);
    MulBelow(f, Pow2(n), Pow2(at));
  }

  /** The mask `((1 << n) - 1) << s` loses no bit when `n + s <= 32`. */
  lemma MaskFits(n: nat, s: nat)
    requires n + s <= 32
    ensures Pow2(n) - 1 < WORD
    ensures Shl(Pow2(n) - 1, s) == (Pow2(n) - 1) * Pow2(s)
  {
    LowMaskFits(n);
    FieldFits(Pow2(n) - 1, n, s);
    ShlSmall(Pow2(n) - 1, Pow2(s));
  }

  /** The mask `((1 << n) - 1) << s` cuts bits `[s, s + n)` out of `x` in place. */
  lemma MaskedField(x: u32, n: nat, s: nat)
    requires n + s <= 32
    ensures Pow2(n) - 1 < WORD
    ensures And(x, Shl(Pow2(n) - 1, s)) == Field(x, s, n) * Pow2(s)
  {
    MaskFits(n, s);
    AndShifted(x, Pow2(n) - 1, s);
    AndLowMask(Drop(x, s), n);
  }

  /**
   * The shift that moves bit `from` of a value to bit `to`: right when
   * `from > to`, left when `from < to` (the signed comparisons of the source).
   */
  function Align(v: u32, from: nat, to: nat): u32 {
    if from > to then Shr(v, from - to) else if from < to then Shl(v, to - from) else v
  }

  /**
   * Masking bits `[s, s + n)` of `x` with `((1 << n) - 1) << s` and moving
   * them to bit `to` gives the field at `to`.
   */
  lemma Extract(x: u32, n: nat, s: nat, to: nat)
    requires n + s <= 32 && to + n <= 32
    ensures Pow2(n) - 1 < WORD
    ensures Align(And(x, Shl(Pow2(n) - 1, s)), s, to) == Field(x, s, n) * Pow2(to)
  {
    MaskedField(x, n, s);
    AlignField(Field(x, s, n), n, s, to);
  }

  /** Moving bit `s > 0` down to bit 0 is `v >> s`. */
  lemma AlignDown(v: u32, s: nat)
    requires s > 0
    ensures Align(v, s, 0) == Shr(v, s)
  {
  }

  /** Shifting a field right moves it down. */
  lemma ShrField(f: nat, from: nat, to: nat)
    requires to < from && f * Pow2(from) < WORD
    ensures Shr(f * Pow2(from), from - to) == f * Pow2(to)
  {
    var p, q := Pow2(to), Pow2(from - to);
    DropDef(f * Pow2(from), from - to);
    Pow2Add(to, from - to);
    MulAssoc(f, p, q);
    MulAssoc(q, f, p);
    DivModUnique(f * Pow2(from), q, f * p, 0);
  }

  /** Shifting a field left moves it up, losing nothing while it fits. */
  lemma ShlField(f: nat, from: nat, to: nat)
    requires from < to && f * Pow2(from) < WORD && f * Pow2(to) < WORD
    ensures Shl(f * Pow2(from), to - from) == f * Pow2(to)
  {
    Pow2Add(from, to - from);
    MulAssoc(f, Pow2(from), Pow2(to - from));
    ShlSmall(f * Pow2(from), Pow2(to - from));
  }

  /** Aligning a field that starts at `from` makes it start at `to`. */
  lemma AlignField(f: nat, n: nat, from: nat, to: nat)
    requires f < Pow2(n) && from + n <= 32 && to + n <= 32
    ensures f * Pow2(from) < WORD && f * Pow2(to) < WORD
    ensures Align(f * Pow2(from), from, to) == f * Pow2(to)
  {
    FieldFits(f, n, from);
    FieldFits(f, n, to);
    if from > to {
      ShrField(f, from, to);
    } else if from < to {
      ShlField(f, from, to);
    }
  }
}

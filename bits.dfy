/** Fixed-width word arithmetic of the LC-3 interpreter.  A machine word is a
    Go `uint16`, modelled as its unsigned value.  The bitwise operators the
    interpreter uses (`&`, `|`, `^`, `>>`, `<<`) are defined bit by bit
    through halving, and each is proved to agree with its arithmetic meaning:
    a complement is 0xFFFF - x, a sign extension yields the two's-complement
    value of the field. */
module Bits {

  /** A 16-bit machine word, Go's `uint16`. */
  type Word = x: int | 0 <= x < 0x1_0000

  /** 2^n. */
  function Pow2(n: nat): (p: nat)
    ensures p >= 1
  {
    if n == 0 then 1 else 2 * Pow2(n - 1)
  }

  lemma Pow2Values()
    ensures Pow2(1) == 2 && Pow2(3) == 8 && Pow2(4) == 16
    ensures Pow2(5) == 32 && Pow2(6) == 64 && Pow2(9) == 512 && Pow2(11) == 2048
    ensures Pow2(15) == 0x8000 && Pow2(16) == 0x1_0000
  {
    assert Pow2(6) == 64;
    assert Pow2(11) == 2048;
    assert Pow2(15) == 0x8000;
  }

  lemma {:induction false} Pow2Monotone(a: nat, b: nat)
    requires a <= b
    ensures Pow2(a) <= Pow2(b)
  {
    if a < b {
      Pow2Monotone(a, b - 1);
    }
  }

  /** `x >> k` on an unsigned word: k halvings, each dropping the lowest bit. */
  function Shr(x: nat, k: nat): (r: nat)
    ensures r <= x
  {
    if k == 0 then x else Shr(x / 2, k - 1)
  }

  /** A quotient is fixed by the remainder range. */
  lemma DivUnique(x: int, d: int, q: int, r: int)
    requires d > 0 && x == q * d + r && 0 <= r < d
    ensures x / d == q
  {
    var q2 := x / d;
    var r2 := x % d;
    MulSub(q2, q, d);
    if q2 > q {
      MulAtLeast(q2 - q, d);
    } else if q2 < q {
      MulSub(q, q2, d);
      MulAtLeast(q - q2, d);
    }
  }

  /** Multiplication distributes over subtraction. */
  lemma MulSub(a: int, b: int, d: int)
    ensures (a - b) * d == a * d - b * d
  {
  }

  /** A positive multiple of d is at least d. */
  lemma {:induction false} MulAtLeast(a: int, d: int)
    requires a >= 1 && d > 0
    ensures a * d >= d
    decreases a
  {
    if a > 1 {
      MulAtLeast(a - 1, d);
      MulSub(a, 1, d);
    }
  }

  /** Halving and then dividing by m is dividing by 2m. */
  lemma DivHalf(x: nat, m: nat)
    requires m >= 1
    ensures x / 2 / m == x / (2 * m)
  {
    var q := x / 2 / m;
    var r := x / 2 % m;
    assert x == q * (2 * m) + (2 * r + x % 2);
    DivUnique(x, 2 * m, q, 2 * r + x % 2);
  }

  /** `x >> k` is the quotient of x by 2^k. */
  lemma {:induction false} ShrValue(x: nat, k: nat)
    ensures Shr(x, k) == x / Pow2(k)
  {
    if k > 0 {
      ShrValue(x / 2, k - 1);
      DivHalf(x, Pow2(k - 1));
    }
  }

  /** Bit i of x, `(x >> i) & 1 == 1`. */
  predicate Bit(x: nat, i: nat)
  {
    Shr(x, i) % 2 == 1
  }

  /** Shifting a value below 2^(k+m) right by k leaves a value below 2^m. */
  lemma {:induction false} ShrBound(x: nat, k: nat, m: nat)
    requires x < Pow2(k + m)
    ensures Shr(x, k) < Pow2(m)
  {
    if k > 0 {
      assert Pow2(k + m) == 2 * Pow2(k - 1 + m);
      ShrBound(x / 2, k - 1, m);
    }
  }

  /** `x >> k` is nonzero exactly when x is at least 2^k. */
  lemma {:induction false} ShrPositive(x: nat, k: nat)
    ensures Shr(x, k) >= 1 <==> x >= Pow2(k)
  {
    if k > 0 {
      ShrPositive(x / 2, k - 1);
    }
  }

  /** `x << k` on a `uint16`: k doublings, the bits shifted past bit 15 lost. */
  function Shl(x: Word, k: nat): (r: Word)
  {
    if k == 0 then x else (2 * Shl(x, k - 1)) % 0x1_0000
  }

  /** `x << k` on a `uint16` is x times 2^k, reduced modulo 2^16. */
  lemma {:induction false} ShlValue(x: Word, k: nat)
    ensures Shl(x, k) == (x * Pow2(k)) % 0x1_0000
  {
    if k > 0 {
      ShlValue(x, k - 1);
      var p := Pow2(k - 1);
      MulTwice(x, p);
      ModDouble(x * p);
    }
  }

  /** Multiplication is associative with a factor of two. */
  lemma MulTwice(x: int, p: int)
    ensures x * (2 * p) == 2 * (x * p)
  {
  }

  /** Doubling commutes with reduction modulo 2^16. */
  lemma ModDouble(a: nat)
    ensures (2 * (a % 0x1_0000)) % 0x1_0000 == (2 * a) % 0x1_0000
  {
    var q := a / 0x1_0000;
    assert 2 * a == 2 * (a % 0x1_0000) + 0x1_0000 * (2 * q);
  }

  /** `0xFFFF << n` on a `uint16` has bits n to 15 set and the others clear. */
  lemma {:induction false} ShlOnes(n: nat)
    requires 1 <= n <= 16
    ensures Shl(0xFFFF, n) == 0x1_0000 - Pow2(n)
  {
    Pow2Monotone(n, 16);
    Pow2Values();
    if n > 1 {
      ShlOnes(n - 1);
    }
  }

  /** The low n bits of `x & y`. */
  function AndBits(x: nat, y: nat, n: nat): (r: nat)
    ensures r < Pow2(n)
    ensures r <= x && r <= y
  {
    if n == 0 then 0
    else 2 * AndBits(x / 2, y / 2, n - 1) + (if x % 2 == 1 && y % 2 == 1 then 1 else 0)
  }

  /** The low n bits of `x | y`. */
  function OrBits(x: nat, y: nat, n: nat): (r: nat)
    ensures r < Pow2(n)
  {
    if n == 0 then 0
    else 2 * OrBits(x / 2, y / 2, n - 1) + (if x % 2 == 1 || y % 2 == 1 then 1 else 0)
  }

  /** The low n bits of `^x`. */
  function NotBits(x: nat, n: nat): (r: nat)
    ensures r < Pow2(n)
  {
    if n == 0 then 0
    else 2 * NotBits(x / 2, n - 1) + (if x % 2 == 1 then 0 else 1)
  }

  /** Each of the low n bits of `x & y` is set exactly when it is set in both. */
  lemma {:induction false} AndBitsBit(x: nat, y: nat, n: nat, i: nat)
    requires i < n
    ensures Bit(AndBits(x, y, n), i) <==> Bit(x, i) && Bit(y, i)
  {
    if i > 0 {
      AndBitsBit(x / 2, y / 2, n - 1, i - 1);
    }
  }

  /** Each of the low n bits of `x | y` is set exactly when it is set in either. */
  lemma {:induction false} OrBitsBit(x: nat, y: nat, n: nat, i: nat)
    requires i < n
    ensures Bit(OrBits(x, y, n), i) <==> Bit(x, i) || Bit(y, i)
  {
    if i > 0 {
      OrBitsBit(x / 2, y / 2, n - 1, i - 1);
    }
  }

  /** Each of the low n bits of `^x` is set exactly when it is clear in x. */
  lemma {:induction false} NotBitsBit(x: nat, n: nat, i: nat)
    requires i < n
    ensures Bit(NotBits(x, n), i) <==> !Bit(x, i)
  {
    if i > 0 {
      NotBitsBit(x / 2, n - 1, i - 1);
    }
  }

  /** On an n-bit value, complementing every bit is subtracting from 2^n - 1. */
  lemma {:induction false} NotBitsValue(x: nat, n: nat)
    requires x < Pow2(n)
    ensures NotBits(x, n) == Pow2(n) - 1 - x
  {
    if n > 0 {
      NotBitsValue(x / 2, n - 1);
    }
  }

  /** OR with zero changes nothing. */
  lemma {:induction false} OrBitsZero(y: nat, n: nat)
    requires y < Pow2(n)
    ensures OrBits(0, y, n) == y
  {
    if n > 0 {
      OrBitsZero(y / 2, n - 1);
    }
  }

  /** OR of a value below 2^n with the mask of bits n to w-1 is their sum: the
      two have no bit in common. */
  lemma {:induction false} OrBitsHigh(x: nat, n: nat, w: nat)
    requires n <= w && x < Pow2(n) && Pow2(n) <= Pow2(w)
    ensures OrBits(x, Pow2(w) - Pow2(n), w) == x + Pow2(w) - Pow2(n)
  {
    if n == 0 {
      OrBitsZero(Pow2(w) - 1, w);
    } else {
      OrBitsHigh(x / 2, n - 1, w - 1);
    }
  }

  /** `x | y` has every bit of x and of y, so it is at least each of them. */
  lemma {:induction false} OrBitsLower(x: nat, y: nat, n: nat)
    requires x < Pow2(n) && y < Pow2(n)
    ensures OrBits(x, y, n) >= x && OrBits(x, y, n) >= y
  {
    if n > 0 {
      OrBitsLower(x / 2, y / 2, n - 1);
    }
  }

  /** AND with zero is zero. */
  lemma {:induction false} AndBitsZero(x: nat, n: nat)
    ensures AndBits(x, 0, n) == 0
  {
    if n > 0 {
      AndBitsZero(x / 2, n - 1);
    }
  }

  /** Setting every bit from n up to w leaves the low n bits alone: masking
      with n ones recovers the n-bit value. */
  lemma {:induction false} AndBitsHighOnes(x: nat, n: nat, w: nat)
    requires n <= w && x < Pow2(n)
    ensures Pow2(n) <= Pow2(w)
    ensures AndBits(x + (Pow2(w) - Pow2(n)), Pow2(n) - 1, w) == x
  {
    Pow2Monotone(n, w);
    if n == 0 {
      AndBitsZero(x + (Pow2(w) - Pow2(n)), w);
    } else {
      AndBitsHighOnes(x / 2, n - 1, w - 1);
      var y := x + (Pow2(w) - Pow2(n));
      assert y / 2 == x / 2 + (Pow2(w - 1) - Pow2(n - 1));
      assert y % 2 == x % 2;
    }
  }

  /** AND with a mask of n ones, at any width w >= n, keeps an n-bit value
      as it is. */
  lemma {:induction false} AndBitsOnes(x: nat, n: nat, w: nat)
    requires n <= w && x < Pow2(n)
    ensures AndBits(x, Pow2(n) - 1, w) == x
  {
    if n == 0 {
      AndBitsZero(x, w);
    } else {
      AndBitsOnes(x / 2, n - 1, w - 1);
    }
  }

  /** AND with the single bit 2^k isolates bit k. */
  lemma {:induction false} AndBitsSingle(x: nat, k: nat, n: nat)
    requires k < n
    ensures AndBits(x, Pow2(k), n) == if Bit(x, k) then Pow2(k) else 0
  {
    if k == 0 {
      AndBitsZero(x / 2, n - 1);
    } else {
      AndBitsSingle(x / 2, k - 1, n - 1);
    }
  }

  /** Two right shifts in a row are one shift by their sum. */
  lemma {:induction false} ShrShr(x: nat, a: nat, b: nat)
    ensures Shr(Shr(x, a), b) == Shr(x, a + b)
  {
    if a > 0 {
      ShrShr(x / 2, a - 1, b);
    }
  }

  /** Go's `x & y` on `uint16`. */
  function And(x: Word, y: Word): (r: Word)
    ensures r <= x && r <= y
    ensures y == 0xFFFF ==> r == x
  {
    Pow2Values();
    AndBitsOnes(x, 16, 16);
    AndBits(x, y, 16)
  }

  /** Go's `x | y` on `uint16`. */
  function Or(x: Word, y: Word): (r: Word)
    ensures r >= x && r >= y
  {
    Pow2Values();
    OrBitsLower(x, y, 16);
    OrBits(x, y, 16)
  }

  /** Go's `^x` on `uint16`: every bit complemented, which is 0xFFFF - x. */
  function Not(x: Word): (r: Word)
    ensures r == 0xFFFF - x
  {
    Pow2Values();
    NotBitsValue(x, 16);
    NotBits(x, 16)
  }

  /** Go's `x + y` on `uint16`: the sum, less 2^16 when it does not fit. */
  function Add(x: Word, y: Word): (r: Word)
    ensures r == if x + y < 0x1_0000 then x + y else x + y - 0x1_0000
  {
    (x + y) % 0x1_0000
  }

  /** The value of a word read as a 16-bit two's-complement integer: the one
      integer in [-2^15, 2^15) congruent to the word modulo 2^16. */
  function ToSigned(x: Word): (r: int)
    ensures -0x8000 <= r < 0x8000
    ensures r % 0x1_0000 == x
  {
    if x < 0x8000 then x else x - 0x1_0000
  }

  /** `uint16` addition is two's-complement addition: when the signed sum of
      two words fits in 16 bits, it is the signed value of their sum. */
  lemma AddSigned(x: Word, y: Word)
    requires -0x8000 <= ToSigned(x) + ToSigned(y) < 0x8000
    ensures ToSigned(Add(x, y)) == ToSigned(x) + ToSigned(y)
  {
  }

  /** Adding a word is adding its two's-complement value modulo 2^16, as an
      offset moves an address forwards or backwards. */
  lemma AddSignedOffset(x: Word, y: Word)
    ensures Add(x, y) == (x + ToSigned(y)) % 0x1_0000
  {
  }

  /** `signExtend`: when bit `bitCount - 1` of x is set, every bit from
      `bitCount` up is set as well (the `uint16` shift `0xFFFF << bitCount`
      drops the bits past bit 15); otherwise x comes back as it is. */
  function SignExtend(x: Word, bitCount: nat): (r: Word)
    requires 1 <= bitCount <= 16
    ensures r >= x
    ensures !Bit(x, bitCount - 1) ==> r == x
  {
    AndBitsSingle(Shr(x, bitCount - 1), 0, 16);
    if And(Shr(x, bitCount - 1), 1) != 0 then Or(x, Shl(0xFFFF, bitCount)) else x
  }

  /** Sign extension of an n-bit field x is exact: the result read as a 16-bit
      two's-complement integer is x read as an n-bit two's-complement integer,
      that is x when bit n-1 is clear and x - 2^n when it is set. */
  lemma SignExtendValue(x: Word, n: nat)
    requires 1 <= n <= 16 && x < Pow2(n)
    ensures SignExtend(x, n) == if x < Pow2(n - 1) then x else x + 0x1_0000 - Pow2(n)
    ensures ToSigned(SignExtend(x, n)) == if x < Pow2(n - 1) then x else x - Pow2(n)
  {
    Pow2Values();
    Pow2Monotone(n - 1, 15);
    Pow2Monotone(n, 16);
    ShrBound(x, n - 1, 1);
    ShrPositive(x, n - 1);
    assert And(0, 1) == 0 by {
      AndBitsZero(0, 15);
    }
    assert And(1, 1) == 1 by {
      AndBitsZero(0, 15);
    }
    if x >= Pow2(n - 1) {
      ShlOnes(n);
      OrBitsHigh(x, n, 16);
    }
  }

  /** `signExtend(x, n)` keeps the n-bit field itself in the low n bits. */
  lemma SignExtendLowBits(x: Word, n: nat)
    requires 1 <= n <= 16 && x < Pow2(n)
    ensures AndBits(SignExtend(x, n), Pow2(n) - 1, 16) == x
  {
    SignExtendValue(x, n);
    if x >= Pow2(n - 1) {
      Pow2Values();
      AndBitsHighOnes(x, n, 16);
    } else {
      AndBitsOnes(x, n, 16);
    }
  }

  /** The opcode, `instr >> 12`: one of the 16 opcodes. */
  function Opcode(instr: Word): (op: Word)
    ensures op < 16
  {
    Pow2Values();
    ShrBound(instr, 12, 4);
    Shr(instr, 12)
  }

  /** `(instr >> 9) & 0x7`, bits 11-9: the destination register, the source
      register of a store, or the n/z/p mask of BR. */
  function Dr(instr: Word): (r: Word)
    ensures r < 8
  {
    And(Shr(instr, 9), 0x7)
  }

  /** `(instr >> 6) & 0x7`, bits 8-6: the first source register, or the base
      register. */
  function Sr1(instr: Word): (r: Word)
    ensures r < 8
  {
    And(Shr(instr, 6), 0x7)
  }

  /** `instr & 0x7`, bits 2-0: the second source register of ADD and AND. */
  function Sr2(instr: Word): (r: Word)
    ensures r < 8
  {
    And(instr, 0x7)
  }

  /** `(instr >> 5) & 0x1 == 1`: bit 5 of ADD and AND, immediate mode. */
  predicate ImmMode(instr: Word)
  {
    And(Shr(instr, 5), 0x1) == 1
  }

  /** `(instr >> 11) & 1 == 1`: bit 11 of JSR, PC-relative rather than
      base-register mode. */
  predicate JsrOffsetMode(instr: Word)
  {
    And(Shr(instr, 11), 0x1) == 1
  }

  /** `instr & 0xFF`, bits 7-0 of TRAP: the trap vector. */
  function TrapVector(instr: Word): (r: Word)
    ensures r <= 0xFF
  {
    And(instr, 0xFF)
  }

  /** The one-bit mode fields are single instruction bits: bit 5 selects
      immediate mode, bit 11 the PC-relative form of JSR. */
  lemma ModeBits(instr: Word)
    ensures ImmMode(instr) <==> Bit(instr, 5)
    ensures JsrOffsetMode(instr) <==> Bit(instr, 11)
  {
    Pow2Values();
    AndBitsSingle(Shr(instr, 5), 0, 16);
    AndBitsSingle(Shr(instr, 11), 0, 16);
  }

  /** Bits 0-2 of the register field DR are bits 9-11 of the instruction. */
  lemma DrBits(instr: Word, k: nat)
    requires k < 3
    ensures Bit(Dr(instr), k) <==> Bit(instr, 9 + k)
  {
    AndBitsBit(Shr(instr, 9), 7, 16, k);
    ShrShr(instr, 9, k);
    assert Bit(7, k);
  }

  /** `signExtend(instr & 0x1F, 5)`: the immediate operand of ADD and AND, a
      value in [-16, 16). */
  function Imm5(instr: Word): (r: Word)
    ensures var f := And(instr, 0x1F);
            ToSigned(r) == if f < 16 then f else f - 32
  {
    Pow2Values();
    SignExtendValue(And(instr, 0x1F), 5);
    SignExtend(And(instr, 0x1F), 5)
  }

  /** `signExtend(instr & 0x3F, 6)`: the offset of LDR and STR, in [-32, 32). */
  function Offset6(instr: Word): (r: Word)
    ensures var f := And(instr, 0x3F);
            ToSigned(r) == if f < 32 then f else f - 64
  {
    Pow2Values();
    SignExtendValue(And(instr, 0x3F), 6);
    SignExtend(And(instr, 0x3F), 6)
  }

  /** `signExtend(instr & 0x1FF, 9)`: the PC-relative offset of BR, LD, LDI,
      LEA, ST and STI, in [-256, 256). */
  function PcOffset9(instr: Word): (r: Word)
    ensures var f := And(instr, 0x1FF);
            ToSigned(r) == if f < 256 then f else f - 512
  {
    Pow2Values();
    SignExtendValue(And(instr, 0x1FF), 9);
    SignExtend(And(instr, 0x1FF), 9)
  }

  /** `signExtend(instr & 0x7FF, 11)`: the PC-relative offset of JSR, in
      [-1024, 1024). */
  function PcOffset11(instr: Word): (r: Word)
    ensures var f := And(instr, 0x7FF);
            ToSigned(r) == if f < 1024 then f else f - 2048
  {
    Pow2Values();
    SignExtendValue(And(instr, 0x7FF), 11);
    SignExtend(And(instr, 0x7FF), 11)
  }
}

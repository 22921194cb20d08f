/** Bitwise operations on integers of any size in two's complement, and on 64-bit words. */
module Bitwise {

  datatype BitOp = And | Or | Xor | AndNot {
    predicate On(p: bool, q: bool) {
      match this
      case And => p && q
      case Or => p || q
      case Xor => p != q
      case AndNot => p && !q
    }
  }

  function Pow2(n: nat): nat {
    if n == 0 then 1 else 2 * Pow2(n - 1)
  }

  function Bit(p: bool): nat {
    if p then 1 else 0
  }

  /** Bit k of an integer in two's complement with infinite sign extension. */
  predicate BitOf(a: int, k: nat)
    decreases k
  {
    if k == 0 then a % 2 == 1 else BitOf(a / 2, k - 1)
  }

  function Size(a: int): nat {
    if a >= 0 then a else -a - 1
  }

  /** The operation of `math/big`, bit by bit on the infinite two's complement. */
  function Combine(op: BitOp, a: int, b: int): int
    decreases Size(a) + Size(b)
  {
    if (a == 0 || a == -1) && (b == 0 || b == -1) then (if op.On(a == -1, b == -1) then -1 else 0)
    else 2 * Combine(op, a / 2, b / 2) + Bit(op.On(a % 2 == 1, b % 2 == 1))
  }

  /** Each bit of the result is the operation on the bits of the operands. */
  lemma {:induction false} CombineBits(op: BitOp, a: int, b: int, k: nat)
    ensures BitOf(Combine(op, a, b), k) <==> op.On(BitOf(a, k), BitOf(b, k))
    decreases k
  {
    HalfOf(op, a, b);
    if k > 0 { CombineBits(op, a / 2, b / 2, k - 1); }
  }

  lemma HalfOf(op: BitOp, a: int, b: int)
    ensures var c := Combine(op, a, b);
            c == 2 * Combine(op, a / 2, b / 2) + Bit(op.On(a % 2 == 1, b % 2 == 1))
            && c / 2 == Combine(op, a / 2, b / 2) && (c % 2 == 1 <==> op.On(a % 2 == 1, b % 2 == 1))
  {
    if (a == 0 || a == -1) && (b == 0 || b == -1) {
      assert a / 2 == a && b / 2 == b;
    }
  }

  /** The operation on n-bit words, as unsigned numbers. */
  function Words(op: BitOp, a: int, b: int, n: nat): nat
    decreases n
  {
    if n == 0 then 0 else 2 * Words(op, a / 2, b / 2, n - 1) + Bit(op.On(a % 2 == 1, b % 2 == 1))
  }

  const WORD_BITS: nat := 64

  /** The machine's operation on int64: on the 64-bit patterns, read as a signed number. */
  function Machine(op: BitOp, a: int, b: int): int {
    ReadSigned(Words(op, a % 0x1_0000_0000_0000_0000, b % 0x1_0000_0000_0000_0000, WORD_BITS))
  }

  /** The n low bits of an integer. */
  function Low(a: int, n: nat): nat
    decreases n
  {
    if n == 0 then 0 else 2 * Low(a / 2, n - 1) + Bit(a % 2 == 1)
  }

  /** The word operation computes the low bits of the exact one. */
  lemma {:induction false} WordsAreLow(op: BitOp, a: int, b: int, n: nat)
    ensures Words(op, a, b, n) == Low(Combine(op, a, b), n)
    decreases n
  {
    HalfOf(op, a, b);
    if n > 0 { WordsAreLow(op, a / 2, b / 2, n - 1); }
  }

  lemma {:induction false} WordsOfLow(op: BitOp, a: int, b: int, n: nat)
    ensures Words(op, Low(a, n), Low(b, n), n) == Words(op, a, b, n)
    decreases n
  {
    if n > 0 {
      assert Low(a, n) / 2 == Low(a / 2, n - 1) && Low(b, n) / 2 == Low(b / 2, n - 1);
      WordsOfLow(op, a / 2, b / 2, n - 1);
    }
  }

  /** The low bits are the remainder modulo a power of two. */
  lemma {:induction false} LowIsRemainder(a: int, n: nat) returns (q: int)
    ensures a == q * Pow2(n) + Low(a, n) && 0 <= Low(a, n) < Pow2(n)
    decreases n
  {
    if n == 0 {
      q := a;
    } else {
      q := LowIsRemainder(a / 2, n - 1);
      var p := Pow2(n - 1);
      assert q * Pow2(n) == 2 * (q * p) by {
        assert q * (2 * p) == 2 * (q * p);
      }
    }
  }

  /** Signed words of n + 1 bits. */
  predicate Signed(a: int, n: nat) {
    0 <= a + Pow2(n) && a < Pow2(n)
  }

  lemma {:induction false} CombineSigned(op: BitOp, a: int, b: int, n: nat)
    requires Signed(a, n) && Signed(b, n)
    ensures Signed(Combine(op, a, b), n)
    decreases n
  {
    HalfOf(op, a, b);
    if n > 0 { CombineSigned(op, a / 2, b / 2, n - 1); }
  }

  lemma {:induction false} Pow2Sum(m: nat, n: nat)
    ensures Pow2(m + n) == Pow2(m) * Pow2(n)
    decreases m
  {
    if m > 0 {
      Pow2Sum(m - 1, n);
      assert Pow2(m + n) == 2 * (Pow2(m - 1) * Pow2(n)) == (2 * Pow2(m - 1)) * Pow2(n);
    }
  }

  lemma Pow2Of64()
    ensures Pow2(63) == 0x8000_0000_0000_0000 && Pow2(64) == 0x1_0000_0000_0000_0000
  {
    assert Pow2(8) == 256;
    Pow2Sum(8, 8);
    Pow2Sum(16, 16);
    Pow2Sum(32, 32);
    assert Pow2(64) == 2 * Pow2(63);
  }

  lemma LowOf64(a: int, n: nat)
    requires n == 64
    ensures Low(a, n) == a % 0x1_0000_0000_0000_0000
  {
    Pow2Of64();
    var q := LowIsRemainder(a, n);
    Remainder(a, q, Low(a, n));
  }

  lemma Remainder(a: int, q: int, r: nat)
    requires a == q * 0x1_0000_0000_0000_0000 + r && r < 0x1_0000_0000_0000_0000
    ensures a % 0x1_0000_0000_0000_0000 == r
  {}

  lemma MachineWord(op: BitOp, a: int, b: int, n: nat)
    requires n == WORD_BITS
    ensures Words(op, a % 0x1_0000_0000_0000_0000, b % 0x1_0000_0000_0000_0000, n) ==
            Combine(op, a, b) % 0x1_0000_0000_0000_0000
  {
    LowOf64(a, n);
    LowOf64(b, n);
    WordsOfLow(op, a, b, n);
    WordsAreLow(op, a, b, n);
    LowOf64(Combine(op, a, b), n);
  }

  lemma CombineInt64(op: BitOp, a: int, b: int, n: nat)
    requires n == WORD_BITS - 1
    requires -0x8000_0000_0000_0000 <= a < 0x8000_0000_0000_0000
    requires -0x8000_0000_0000_0000 <= b < 0x8000_0000_0000_0000
    ensures -0x8000_0000_0000_0000 <= Combine(op, a, b) < 0x8000_0000_0000_0000
  {
    Pow2Of64();
    CombineSigned(op, a, b, n);
  }

  function ReadSigned(w: nat): int {
    if w >= 0x8000_0000_0000_0000 then w - 0x1_0000_0000_0000_0000 else w
  }

  lemma SignedBack(c: int)
    requires -0x8000_0000_0000_0000 <= c < 0x8000_0000_0000_0000
    ensures ReadSigned(c % 0x1_0000_0000_0000_0000) == c
  {}

  /** On int64 operands the machine operation is the exact one. */
  lemma MachineIsExact(op: BitOp, a: int, b: int)
    requires -0x8000_0000_0000_0000 <= a < 0x8000_0000_0000_0000
    requires -0x8000_0000_0000_0000 <= b < 0x8000_0000_0000_0000
    ensures Machine(op, a, b) == Combine(op, a, b)
    ensures -0x8000_0000_0000_0000 <= Combine(op, a, b) < 0x8000_0000_0000_0000
  {
    CombineInt64(op, a, b, WORD_BITS - 1);
    MachineWord(op, a, b, WORD_BITS);
    SignedBack(Combine(op, a, b));
  }
}

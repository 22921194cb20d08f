/** Exact constant values (go/exact/exact.go): five numeric representations, kept canonical. */
module Exact {
  import opened Types
  import opened Bitwise

  const MIN_INT64: int := -0x8000_0000_0000_0000
  const MAX_INT64: int := 0x7FFF_FFFF_FFFF_FFFF

  /** `int64Val` and `intVal` are both of kind Int. The rationals of `floatVal` and `complexVal`
      are exact, so they are modelled by the real numbers they stand for. */
  datatype Value =
    | Unknown
    | BoolVal(b: bool)
    | StringVal(s: string)
    | Int64Val(i: int)
    | IntVal(z: int)
    | FloatVal(x: real)
    | ComplexVal(re: real, im: real)

  datatype Op = ADD | SUB | MUL | QUO | QUO_ASSIGN | REM | AND | OR | XOR | AND_NOT | LAND | LOR | NOT
              | EQL | NEQ | LSS | LEQ | GTR | GEQ

  predicate IsInt64(z: int) {
    MIN_INT64 <= z <= MAX_INT64
  }

  /** What the machine makes of an int64 result: reduction modulo 2^64. */
  function Wrap(z: int): int {
    (z - MIN_INT64) % 0x1_0000_0000_0000_0000 + MIN_INT64
  }

  predicate Integral(x: real) {
    x == x.Floor as real
  }

  /** A numeric value is in its smallest representation. */
  predicate Canonical(v: Value) {
    match v
    case Int64Val(i) => IsInt64(i)
    case IntVal(z) => !IsInt64(z)
    case FloatVal(x) => !Integral(x)
    case ComplexVal(_, im) => im != 0.0
    case _ => true
  }

  predicate Numeric(v: Value) {
    v.Int64Val? || v.IntVal? || v.FloatVal? || v.ComplexVal?
  }

  /** The complex number a numeric value stands for. */
  datatype Number = Number(re: real, im: real)

  function Meaning(v: Value): Number
    requires Numeric(v)
  {
    match v
    case Int64Val(i) => Number(i as real, 0.0)
    case IntVal(z) => Number(z as real, 0.0)
    case FloatVal(x) => Number(x, 0.0)
    case ComplexVal(re, im) => Number(re, im)
  }

  /** A number has one canonical representation. */
  lemma CanonicalUnique(v: Value, w: Value)
    requires Numeric(v) && Numeric(w) && Canonical(v) && Canonical(w) && Meaning(v) == Meaning(w)
    ensures v == w
  {
    if v.FloatVal? && (w.Int64Val? || w.IntVal?) { RealOfInt(Whole(w)); }
    if w.FloatVal? && (v.Int64Val? || v.IntVal?) { RealOfInt(Whole(v)); }
  }

  lemma RealOfInt(z: int)
    ensures Integral(z as real) && (z as real).Floor == z
  {}

  function Whole(v: Value): int
    requires v.Int64Val? || v.IntVal?
  {
    if v.Int64Val? then v.i else v.z
  }

  function NormInt(z: int): Value {
    if MIN_INT64 <= z && z <= MAX_INT64 then Int64Val(z) else IntVal(z)
  }

  function NormFloat(x: real): Value {
    if Integral(x) then NormInt(x.Floor) else FloatVal(x)
  }

  function NormComplex(re: real, im: real): Value {
    if im == 0.0 then NormFloat(re) else ComplexVal(re, im)
  }

  lemma NormIsCanonical(n: Number)
    ensures var v := NormComplex(n.re, n.im); Numeric(v) && Canonical(v) && Meaning(v) == n
  {}

  lemma NormIntIsCanonical(z: int)
    ensures Numeric(NormInt(z)) && Canonical(NormInt(z)) && Meaning(NormInt(z)) == Number(z as real, 0.0)
  {}

  // ---------------------------------------------------------------------------
  // Matching representations

  function Ord(v: Value): nat {
    match v
    case Int64Val(_) => 1
    case IntVal(_) => 2
    case FloatVal(_) => 3
    case ComplexVal(_, _) => 4
    case _ => 0
  }

  /** `match`, on operands in increasing order of representation. */
  function MatchUp(x: Value, y: Value): (Value, Value)
    requires Ord(x) <= Ord(y)
  {
    match (x, y)
    case (Unknown, _) => (x, x)
    case (Int64Val(i), IntVal(_)) => (IntVal(i), y)
    case (Int64Val(i), FloatVal(_)) => (FloatVal(i as real), y)
    case (Int64Val(i), ComplexVal(_, _)) => (ComplexVal(i as real, 0.0), y)
    case (IntVal(z), FloatVal(_)) => (FloatVal(z as real), y)
    case (IntVal(z), ComplexVal(_, _)) => (ComplexVal(z as real, 0.0), y)
    case (FloatVal(f), ComplexVal(_, _)) => (ComplexVal(f, 0.0), y)
    case _ => (x, y)
  }

  function Match(x: Value, y: Value): (Value, Value) {
    if Ord(x) > Ord(y) then var (v, u) := MatchUp(y, x); (u, v) else MatchUp(x, y)
  }

  /** Matching brings numeric operands to one representation and never changes what they mean. */
  lemma MatchKeepsMeaning(x: Value, y: Value)
    requires Numeric(x) && Numeric(y)
    ensures var (u, v) := Match(x, y);
            Numeric(u) && Numeric(v) && Ord(u) == Ord(v) && Meaning(u) == Meaning(x) && Meaning(v) == Meaning(y)
  {}

  /** One unknown operand makes both unknown, except after a Bool or a String: there the two
      operands stay as they are. */
  lemma MatchUnknown(x: Value, y: Value)
    requires x.Unknown? || y.Unknown?
    ensures Match(x, y) == (Unknown, Unknown) <==> !(x.BoolVal? || x.StringVal?)
  {}

  // ---------------------------------------------------------------------------
  // Binary operations

  predicate Is32Bit(z: int) {
    -0x8000_0000 <= z <= 0x7FFF_FFFF
  }

  predicate Is63Bit(z: int) {
    -0x4000_0000_0000_0000 <= z <= 0x3FFF_FFFF_FFFF_FFFF
  }

  /** Go's integer division truncates toward zero; the remainder has the sign of the dividend. */
  function Quotient(a: int, b: int): int
    requires b != 0
  {
    if a >= 0 then a / b else -(-a / b)
  }

  function Remainder(a: int, b: int): int
    requires b != 0
  {
    a - Quotient(a, b) * b
  }

  /** The int64 case of `BinaryOp`; None is a run-time panic. */
  function Int64Op(a: int, op: Op, b: int): Option<Value> {
    match op
    case ADD => Some(if !Is63Bit(a) || !Is63Bit(b) then NormInt(a + b) else Int64Val(Wrap(a + b)))
    case SUB => Some(if !Is63Bit(a) || !Is63Bit(b) then NormInt(a - b) else Int64Val(Wrap(a - b)))
    case MUL => Some(if !Is32Bit(a) || !Is32Bit(b) then NormInt(a * b) else Int64Val(Wrap(a * b)))
    case QUO => if b == 0 then None else Some(NormFloat(a as real / b as real))
    case QUO_ASSIGN => if b == 0 then None else Some(Int64Val(Wrap(Quotient(a, b))))
    case REM => if b == 0 then None else Some(Int64Val(Wrap(Remainder(a, b))))
    case AND => Some(Int64Val(Machine(And, a, b)))
    case OR => Some(Int64Val(Machine(Or, a, b)))
    case XOR => Some(Int64Val(Machine(Xor, a, b)))
    case AND_NOT => Some(Int64Val(Machine(AndNot, a, b)))
    case _ => None
  }

  function IntOp(a: int, op: Op, b: int): Option<Value> {
    match op
    case ADD => Some(NormInt(a + b))
    case SUB => Some(NormInt(a - b))
    case MUL => Some(NormInt(a * b))
    case QUO => if b == 0 then None else Some(NormFloat(a as real / b as real))
    case QUO_ASSIGN => if b == 0 then None else Some(NormInt(Quotient(a, b)))
    case REM => if b == 0 then None else Some(NormInt(Remainder(a, b)))
    case AND => Some(NormInt(Combine(And, a, b)))
    case OR => Some(NormInt(Combine(Or, a, b)))
    case XOR => Some(NormInt(Combine(Xor, a, b)))
    case AND_NOT => Some(NormInt(Combine(AndNot, a, b)))
    case _ => None
  }

  function FloatOp(a: real, op: Op, b: real): Option<Value> {
    match op
    case ADD => Some(NormFloat(a + b))
    case SUB => Some(NormFloat(a - b))
    case MUL => Some(NormFloat(a * b))
    case QUO => if b == 0.0 then None else Some(NormFloat(a / b))
    case _ => None
  }

  function Times(x: real, y: real): real {
    x * y
  }

  function ComplexOp(a: real, b: real, op: Op, c: real, d: real): Option<Value> {
    match op
    case ADD => Some(NormComplex(a + c, b + d))
    case SUB => Some(NormComplex(a - c, b - d))
    case MUL => Some(NormComplex(Times(a, c) - Times(b, d), Times(b, c) + Times(a, d)))
    case QUO =>
      var s := Times(c, c) + Times(d, d);
      if s == 0.0 then None
      else Some(NormComplex((Times(a, c) + Times(b, d)) / s, (Times(b, c) - Times(a, d)) / s))
    case _ => None
  }

  /** `BinaryOp`. */
  function BinaryOp(x: Value, op: Op, y: Value): Option<Value> {
    match Match(x, y)
    case (Unknown, _) => Some(Unknown)
    case (BoolVal(a), BoolVal(b)) =>
      if op == LAND then Some(BoolVal(a && b)) else if op == LOR then Some(BoolVal(a || b)) else None
    case (Int64Val(a), Int64Val(b)) => Int64Op(a, op, b)
    case (IntVal(a), IntVal(b)) => IntOp(a, op, b)
    case (FloatVal(a), FloatVal(b)) => FloatOp(a, op, b)
    case (ComplexVal(a, b), ComplexVal(c, d)) => ComplexOp(a, b, op, c, d)
    case (StringVal(a), StringVal(b)) => if op == ADD then Some(StringVal(a + b)) else None
    case _ => None
  }

  // ---------------------------------------------------------------------------
  // Exactness

  function Sum(a: Number, b: Number): Number {
    Number(a.re + b.re, a.im + b.im)
  }

  function Difference(a: Number, b: Number): Number {
    Number(a.re - b.re, a.im - b.im)
  }

  function Product(a: Number, b: Number): Number {
    Number(Times(a.re, b.re) - Times(a.im, b.im), Times(a.im, b.re) + Times(a.re, b.im))
  }

  /** r is the exact result of an arithmetic operation; a quotient is what gives the dividend back. */
  ghost predicate ExactResult(a: Number, op: Op, b: Number, r: Number) {
    match op
    case ADD => r == Sum(a, b)
    case SUB => r == Difference(a, b)
    case MUL => r == Product(a, b)
    case QUO => Product(r, b) == a
    case _ => false
  }

  predicate Arithmetic(op: Op) {
    op == ADD || op == SUB || op == MUL || op == QUO
  }

  /** The outcome of an operation that panics exactly on division by zero. */
  ghost predicate ExactOutcome(a: Number, op: Op, b: Number, r: Option<Value>) {
    && (r.None? <==> op == QUO && b == Number(0.0, 0.0))
    && (r.Some? ==> Numeric(r.value) && Canonical(r.value) && ExactResult(a, op, b, Meaning(r.value)))
  }

  lemma ProductInRange(a: int, b: int)
    requires Is32Bit(a) && Is32Bit(b)
    ensures IsInt64(a * b)
  {
    var x, y := if a >= 0 then a else -a, if b >= 0 then b else -b;
    ProductBound(x, y, 0x8000_0000);
    assert a * b == x * y || a * b == -(x * y);
  }

  lemma ProductBound(x: nat, y: nat, m: nat)
    requires x <= m && y <= m
    ensures 0 <= x * y <= m * m
  {
    assert (m - x) * y >= 0 && m * (m - y) >= 0;
  }

  lemma WrapId(z: int)
    requires IsInt64(z)
    ensures Wrap(z) == z
  {}

  lemma RealProducts(a: int, b: int)
    ensures (a * b) as real == a as real * b as real && (a + b) as real == a as real + b as real
    ensures (a - b) as real == a as real - b as real
  {}

  lemma RealQuotient(a: real, b: real)
    requires b != 0.0
    ensures a / b * b == a
  {}

  lemma RealTimes(a: real, b: real)
    ensures Product(Number(a, 0.0), Number(b, 0.0)) == Number(a * b, 0.0)
    ensures Sum(Number(a, 0.0), Number(b, 0.0)) == Number(a + b, 0.0)
    ensures Difference(Number(a, 0.0), Number(b, 0.0)) == Number(a - b, 0.0)
  {}

  lemma NormFloatIsCanonical(x: real)
    ensures Numeric(NormFloat(x)) && Canonical(NormFloat(x)) && Meaning(NormFloat(x)) == Number(x, 0.0)
  {}

  /** The guards of the int64 case exclude overflow. */
  lemma Int64Exact(a: int, op: Op, b: int)
    requires IsInt64(a) && IsInt64(b) && Arithmetic(op)
    ensures ExactOutcome(Number(a as real, 0.0), op, Number(b as real, 0.0), Int64Op(a, op, b))
  {
    RealProducts(a, b);
    RealTimes(a as real, b as real);
    match op
    case ADD =>
      NormIntIsCanonical(a + b);
      if Is63Bit(a) && Is63Bit(b) { WrapId(a + b); }
    case SUB =>
      NormIntIsCanonical(a - b);
      if Is63Bit(a) && Is63Bit(b) { WrapId(a - b); }
    case MUL =>
      NormIntIsCanonical(a * b);
      if Is32Bit(a) && Is32Bit(b) { ProductInRange(a, b); WrapId(a * b); }
    case QUO =>
      if b != 0 { RealQuotientExact(a as real, b as real); }
  }

  lemma RealQuotientExact(a: real, b: real)
    requires b != 0.0
    ensures var v := NormFloat(a / b);
            Numeric(v) && Canonical(v) && Product(Meaning(v), Number(b, 0.0)) == Number(a, 0.0)
  {
    RealQuotient(a, b);
    RealTimes(a / b, b);
    NormFloatIsCanonical(a / b);
  }

  lemma IntExact(a: int, op: Op, b: int)
    requires Arithmetic(op)
    ensures ExactOutcome(Number(a as real, 0.0), op, Number(b as real, 0.0), IntOp(a, op, b))
  {
    RealProducts(a, b);
    RealTimes(a as real, b as real);
    NormIntIsCanonical(a + b);
    NormIntIsCanonical(a - b);
    NormIntIsCanonical(a * b);
    if b != 0 { RealQuotientExact(a as real, b as real); }
  }

  lemma FloatExact(a: real, op: Op, b: real)
    requires Arithmetic(op)
    ensures ExactOutcome(Number(a, 0.0), op, Number(b, 0.0), FloatOp(a, op, b))
  {
    RealTimes(a, b);
    NormFloatIsCanonical(a + b);
    NormFloatIsCanonical(a - b);
    NormFloatIsCanonical(a * b);
    if b != 0.0 { RealQuotientExact(a, b); }
  }

  lemma ComplexExact(a: real, b: real, op: Op, c: real, d: real)
    requires Arithmetic(op)
    ensures ExactOutcome(Number(a, b), op, Number(c, d), ComplexOp(a, b, op, c, d))
  {
    match op
    case ADD => NormIsCanonical(Number(a + c, b + d));
    case SUB => NormIsCanonical(Number(a - c, b - d));
    case MUL => ComplexProductExact(a, b, c, d);
    case QUO => ComplexQuotientExact(a, b, c, d);
  }

  lemma ComplexProductExact(a: real, b: real, c: real, d: real)
    ensures ExactOutcome(Number(a, b), MUL, Number(c, d), ComplexOp(a, b, MUL, c, d))
  {
    var n := Product(Number(a, b), Number(c, d));
    ProductOutcome(Number(a, b), Number(c, d), n);
  }

  lemma ProductOutcome(a: Number, b: Number, n: Number)
    requires n == Product(a, b)
    ensures ExactOutcome(a, MUL, b, Some(NormComplex(n.re, n.im)))
  {
    NormIsCanonical(n);
  }

  lemma ComplexQuotientExact(a: real, b: real, c: real, d: real)
    ensures ExactOutcome(Number(a, b), QUO, Number(c, d), ComplexOp(a, b, QUO, c, d))
  {
    SumOfSquares(c, d);
    var s := Times(c, c) + Times(d, d);
    if s != 0.0 {
      ComplexQuotient(a, b, c, d, s);
      QuotientOutcome(Number(a, b), Number(c, d), Number((Times(a, c) + Times(b, d)) / s, (Times(b, c) - Times(a, d)) / s));
    }
  }

  lemma QuotientOutcome(a: Number, b: Number, n: Number)
    requires Product(n, b) == a && b != Number(0.0, 0.0)
    ensures ExactOutcome(a, QUO, b, Some(NormComplex(n.re, n.im)))
  {
    NormIsCanonical(n);
  }

  lemma SumOfSquares(c: real, d: real)
    ensures Times(c, c) + Times(d, d) == 0.0 <==> c == 0.0 && d == 0.0
  {
    SquareSign(c);
    SquareSign(d);
  }

  lemma SquareSign(x: real)
    ensures if x == 0.0 then Times(x, x) == 0.0 else Times(x, x) > 0.0
  {
    if x > 0.0 {
      Positive(x, x);
    } else if x < 0.0 {
      Positive(-x, -x);
      assert Times(-x, -x) == Times(x, x);
    }
  }

  lemma Positive(x: real, y: real)
    requires x > 0.0 && y > 0.0
    ensures Times(x, y) > 0.0
  {}

  /** (ac+bd)/s + i(bc-ad)/s times c + id is a + ib. */
  lemma ComplexQuotient(a: real, b: real, c: real, d: real, s: real)
    requires s == Times(c, c) + Times(d, d) && s != 0.0
    ensures Product(Number((Times(a, c) + Times(b, d)) / s, (Times(b, c) - Times(a, d)) / s), Number(c, d)) == Number(a, b)
  {
    var p, q := Times(a, c) + Times(b, d), Times(b, c) - Times(a, d);
    Cross(a, b, c, d);
    OverS(p, q, c, d, s, a);
    OverS(q, -p, c, d, s, b);
  }

  lemma Cross(a: real, b: real, c: real, d: real)
    ensures (a * c + b * d) * c - (b * c - a * d) * d == a * (c * c + d * d)
    ensures (b * c - a * d) * c - (-(a * c + b * d)) * d == b * (c * c + d * d)
  {
    Expand(a, b, c, d);
    Expand(b, -a, c, d);
  }

  lemma Expand(a: real, b: real, c: real, d: real)
    ensures (a * c + b * d) * c - (b * c - a * d) * d == a * (c * c + d * d)
  {
    assert (a * c + b * d) * c == a * c * c + b * d * c;
    assert (b * c - a * d) * d == b * c * d - a * d * d;
  }

  lemma OverS(p: real, q: real, c: real, d: real, s: real, r: real)
    requires s != 0.0 && p * c - q * d == r * s
    ensures p / s * c - q / s * d == r
  {
    assert p / s * c == (p * c) / s && q / s * d == (q * d) / s;
    assert (p * c) / s - (q * d) / s == (p * c - q * d) / s == (r * s) / s == r;
  }

  /** `BinaryOp` on canonical numbers, of any mix of representations: +, -, * and the exact quotient
      are exact and canonical, and only division by zero panics. */
  lemma ArithmeticExact(x: Value, op: Op, y: Value)
    requires Numeric(x) && Numeric(y) && Canonical(x) && Canonical(y) && Arithmetic(op)
    ensures ExactOutcome(Meaning(x), op, Meaning(y), BinaryOp(x, op, y))
  {
    MatchKeepsMeaning(x, y);
    match Match(x, y) {
      case (Int64Val(a), Int64Val(b)) => Int64Exact(a, op, b);
      case (IntVal(a), IntVal(b)) => IntExact(a, op, b);
      case (FloatVal(a), FloatVal(b)) => FloatExact(a, op, b);
      case (ComplexVal(a, b), ComplexVal(c, d)) => ComplexExact(a, b, op, c, d);
    }
  }

  // ---------------------------------------------------------------------------
  // Integer operations

  predicate Int(v: Value) {
    v.Int64Val? || v.IntVal?
  }

  predicate Integer(op: Op) {
    op == QUO_ASSIGN || op == REM || op == AND || op == OR || op == XOR || op == AND_NOT
  }

  /** The exact result of an operation on integers, with division by zero excluded. */
  function IntegerResult(a: int, op: Op, b: int): int
    requires Integer(op) && ((op == QUO_ASSIGN || op == REM) ==> b != 0)
  {
    match op
    case QUO_ASSIGN => Quotient(a, b)
    case REM => Remainder(a, b)
    case AND => Combine(And, a, b)
    case OR => Combine(Or, a, b)
    case XOR => Combine(Xor, a, b)
    case AND_NOT => Combine(AndNot, a, b)
  }

  /** Truncated division: the remainder is smaller than the divisor and has the dividend's sign. */
  lemma TruncatedDivision(a: int, b: int)
    requires b != 0
    ensures var q, r := Quotient(a, b), Remainder(a, b);
            && a == q * b + r && (if b > 0 then -b < r < b else b < r < -b)
            && (r == 0 || (r > 0 <==> a > 0))
  {
    var m := if a >= 0 then a else -a;
    Euclid(m, b, m / b, m % b);
  }

  lemma Euclid(m: int, b: int, q: int, r: int)
    requires m >= 0 && b != 0 && q == m / b && r == m % b
    ensures m == q * b + r && 0 <= r && (if b > 0 then r < b else r < -b) && -m == (-q) * b - r
  {
    assert (-q) * b == -(q * b);
  }

  lemma QuotientInRange(a: int, b: int)
    requires IsInt64(a) && IsInt64(b) && b != 0
    ensures IsInt64(Quotient(a, b)) <==> !(a == MIN_INT64 && b == -1)
    ensures IsInt64(Remainder(a, b))
  {
    TruncatedDivision(a, b);
    var q, r := Quotient(a, b), Remainder(a, b);
    if b != -1 && b != 1 {
      QuotientSmaller(a, b, q, r);
    }
  }

  lemma QuotientSmaller(a: int, b: int, q: int, r: int)
    requires a == q * b + r && (b > 1 || b < -1) && (if b > 0 then -b < r < b else b < r < -b)
    requires r == 0 || (r > 0 <==> a > 0)
    ensures (a >= 0 ==> -a <= q <= a) && (a < 0 ==> a <= q <= -a)
  {
    if b > 1 {
      if q > 0 { assert q * b >= q; } else { assert q * b <= q; }
    } else {
      if q > 0 { assert q * b <= -q; } else { assert q * b >= -q; }
    }
  }

  /** `BinaryOp` on canonical integers: division by zero panics; else the result is canonical, and
      exact but for the one quotient that overflows an int64, which wraps around to the dividend. */
  lemma IntegerExact(x: Value, op: Op, y: Value)
    requires Int(x) && Int(y) && Canonical(x) && Canonical(y) && Integer(op)
    ensures var a, b, r := Whole(x), Whole(y), BinaryOp(x, op, y);
            && (r.None? <==> (op == QUO_ASSIGN || op == REM) && b == 0)
            && (r.Some? ==> Int(r.value) && Canonical(r.value))
            && (r.Some? ==> (Whole(r.value) == IntegerResult(a, op, b) <==> !(op == QUO_ASSIGN && a == MIN_INT64 && b == -1)))
            && (r.Some? && op == QUO_ASSIGN && a == MIN_INT64 && b == -1 ==> Whole(r.value) == MIN_INT64)
  {
    var a, b := Whole(x), Whole(y);
    if x.Int64Val? && y.Int64Val? {
      Int64IntegerExact(a, op, b);
    } else {
      if b != 0 || (op != QUO_ASSIGN && op != REM) { NormIntIsCanonical(IntegerResult(a, op, b)); }
      if b == -1 && x.IntVal? { assert a != MIN_INT64; }
    }
  }

  lemma Int64IntegerExact(a: int, op: Op, b: int)
    requires IsInt64(a) && IsInt64(b) && Integer(op)
    ensures var r := Int64Op(a, op, b);
            && (r.None? <==> (op == QUO_ASSIGN || op == REM) && b == 0)
            && (r.Some? ==> r.value.Int64Val? && IsInt64(r.value.i))
            && (r.Some? ==> (r.value.i == IntegerResult(a, op, b) <==> !(op == QUO_ASSIGN && a == MIN_INT64 && b == -1)))
            && (r.Some? && op == QUO_ASSIGN && a == MIN_INT64 && b == -1 ==> r.value.i == MIN_INT64)
  {
    match op
    case QUO_ASSIGN =>
      if b != 0 {
        QuotientInRange(a, b);
        if !(a == MIN_INT64 && b == -1) { WrapId(Quotient(a, b)); }
      }
    case REM =>
      if b != 0 {
        QuotientInRange(a, b);
        WrapId(Remainder(a, b));
      }
    case AND => MachineIsExact(And, a, b);
    case OR => MachineIsExact(Or, a, b);
    case XOR => MachineIsExact(Xor, a, b);
    case AND_NOT => MachineIsExact(AndNot, a, b);
  }

  // ---------------------------------------------------------------------------
  // Unary operations, shifts, comparisons

  /** `UnaryOp`; a size that is not negative limits the result of ^ to that many bytes. */
  function UnaryOp(op: Op, y: Value, size: int): Option<Value> {
    match op
    case ADD => if Numeric(y) || y.Unknown? then Some(y) else None
    case SUB =>
      (match y
       case Unknown => Some(y)
       case Int64Val(i) => if Wrap(-i) != i then Some(Int64Val(Wrap(-i))) else Some(NormInt(-i))
       case IntVal(z) => Some(NormInt(-z))
       case FloatVal(x) => Some(NormFloat(-x))
       case ComplexVal(re, im) => Some(NormComplex(-re, -im))
       case _ => None)
    case XOR =>
      if y.Unknown? then Some(y)
      else if !Int(y) then None
      else
        var z := -Whole(y) - 1;
        Some(NormInt(if size >= 0 then Combine(AndNot, z, 0 - Pow2(8 * size)) else z))
    case NOT => if y.Unknown? then Some(y) else if y.BoolVal? then Some(BoolVal(!y.b)) else None
    case _ => None
  }

  lemma NegationExact(y: Value)
    requires Numeric(y) && Canonical(y)
    ensures var r := UnaryOp(SUB, y, -1);
            r.Some? && Numeric(r.value) && Canonical(r.value) && Sum(Meaning(y), Meaning(r.value)) == Number(0.0, 0.0)
  {
    if y.Int64Val? {
      NormIntIsCanonical(-y.i);
      if y.i != MIN_INT64 { WrapId(-y.i); }
    } else if y.IntVal? {
      NormIntIsCanonical(-y.z);
    } else if y.FloatVal? {
      NormFloatIsCanonical(-y.x);
    } else {
      NormIsCanonical(Number(-y.re, -y.im));
    }
  }

  /** Clearing all bits from n up leaves the low n bits. */
  lemma {:induction false} ClearAbove(z: int, n: nat)
    ensures Combine(AndNot, z, 0 - Pow2(n)) == Low(z, n)
    decreases n, Size(z)
  {
    HalfOf(AndNot, z, 0 - Pow2(n));
    if n > 0 {
      ClearAbove(z / 2, n - 1);
    } else if z != 0 && z != -1 {
      ClearAbove(z / 2, 0);
    }
  }

  /** The complement of an integer, as an unsigned number of the given size. */
  lemma ComplementExact(y: Value, size: nat)
    requires Int(y)
    ensures var r := UnaryOp(XOR, y, size);
            r.Some? && Int(r.value) && Canonical(r.value) && Whole(r.value) == Low(-Whole(y) - 1, 8 * size)
  {
    ClearAbove(-Whole(y) - 1, 8 * size);
    NormIntIsCanonical(Low(-Whole(y) - 1, 8 * size));
  }

  lemma {:induction false} FlippedBit(z: int, k: nat)
    ensures BitOf(-z - 1, k) <==> !BitOf(z, k)
    decreases k
  {
    if k > 0 {
      assert (-z - 1) / 2 == -(z / 2) - 1;
      FlippedBit(z / 2, k - 1);
    }
  }

  lemma {:induction false} HighBit(n: nat, k: nat)
    ensures BitOf(0 - Pow2(n), k) <==> k >= n
    decreases k
  {
    if n == 0 {
      if k > 0 { HighBit(0, k - 1); }
    } else if k > 0 {
      assert (0 - Pow2(n)) / 2 == 0 - Pow2(n - 1);
      HighBit(n - 1, k - 1);
    }
  }

  /** The complement flips every bit; with a size, as for unsigned types, those from there on are off. */
  lemma ComplementBits(y: Value, size: int, k: nat)
    requires Int(y)
    ensures var r := UnaryOp(XOR, y, size);
            r.Some? && Int(r.value) && Canonical(r.value) && (BitOf(Whole(r.value), k) <==> !BitOf(Whole(y), k) && (size < 0 || k < 8 * size))
  {
    var z := -Whole(y) - 1;
    FlippedBit(Whole(y), k);
    if size >= 0 {
      CombineBits(AndNot, z, 0 - Pow2(8 * size), k);
      HighBit(8 * size, k);
      NormIntIsCanonical(Combine(AndNot, z, 0 - Pow2(8 * size)));
    } else {
      NormIntIsCanonical(z);
    }
  }

  function ShiftLeft(x: Value, s: nat): Value
    requires Int(x)
  {
    if s == 0 then x else NormInt(Whole(x) * Pow2(s))
  }

  /** `x >> s` on an int64, and `Rsh` on a big integer: rounding toward minus infinity. */
  function ShiftRight(x: Value, s: nat): Value
    requires Int(x)
  {
    if s == 0 then x
    else if x.Int64Val? then Int64Val(Halved(x.i, s))
    else NormInt(Halved(x.z, s))
  }

  function Halved(z: int, s: nat): int
    decreases s
  {
    if s == 0 then z else Halved(z / 2, s - 1)
  }

  lemma {:induction false} HalvedIsFloor(z: int, s: nat)
    ensures Halved(z, s) * Pow2(s) <= z < (Halved(z, s) + 1) * Pow2(s)
    ensures z >= 0 ==> 0 <= Halved(z, s) <= z
    ensures z < 0 ==> z <= Halved(z, s) < 0
    decreases s
  {
    if s > 0 {
      HalvedIsFloor(z / 2, s - 1);
      Doubled(z, Halved(z, s), Pow2(s - 1));
    }
  }

  lemma Doubled(z: int, h: int, p: int)
    requires h * p <= z / 2 < (h + 1) * p
    ensures h * (2 * p) <= z < (h + 1) * (2 * p)
  {
    assert h * (2 * p) == 2 * (h * p) && (h + 1) * (2 * p) == 2 * ((h + 1) * p);
  }

  /** Shifts of canonical integers are canonical and exact, whatever the shift count. */
  lemma ShiftExact(x: Value, s: nat)
    requires Int(x) && Canonical(x)
    ensures var l, r := ShiftLeft(x, s), ShiftRight(x, s);
            && Int(l) && Canonical(l) && Whole(l) == Whole(x) * Pow2(s)
            && Int(r) && Canonical(r) && Whole(r) * Pow2(s) <= Whole(x) < (Whole(r) + 1) * Pow2(s)
  {
    NormIntIsCanonical(Whole(x) * Pow2(s));
    NormIntIsCanonical(Halved(Whole(x), s));
    HalvedIsFloor(Whole(x), s);
  }

  function Cmp(a: real, b: real): int {
    if a < b then -1 else if a > b then 1 else 0
  }

  predicate CmpZero(c: int, op: Op)
    requires Ordering(op)
  {
    match op
    case EQL => c == 0
    case NEQ => c != 0
    case LSS => c < 0
    case LEQ => c <= 0
    case GTR => c > 0
    case GEQ => c >= 0
  }

  predicate Ordering(op: Op) {
    op == EQL || op == NEQ || op == LSS || op == LEQ || op == GTR || op == GEQ
  }

  /** Strings are compared character by character. */
  function CmpStrings(a: string, b: string): int {
    if a == [] then (if b == [] then 0 else -1)
    else if b == [] then 1
    else if a[0] != b[0] then (if a[0] < b[0] then -1 else 1)
    else CmpStrings(a[1..], b[1..])
  }

  /** `Compare`; None is a run-time panic. */
  function Compare(x: Value, op: Op, y: Value): Option<bool>
    requires Ordering(op)
  {
    match Match(x, y)
    case (Unknown, _) => Some(false)
    case (BoolVal(a), BoolVal(b)) => if op == EQL then Some(a == b) else if op == NEQ then Some(a != b) else None
    case (StringVal(a), StringVal(b)) => Some(CmpZero(CmpStrings(a, b), op))
    case (Int64Val(a), Int64Val(b)) =>
      Some(match op
           case EQL => a == b
           case NEQ => a != b
           case LSS => a < b
           case LEQ => a <= b
           case GTR => a > b
           case _ => a >= b)
    case (IntVal(a), IntVal(b)) => Some(CmpZero(Cmp(a as real, b as real), op))
    case (FloatVal(a), FloatVal(b)) => Some(CmpZero(Cmp(a, b), op))
    case (ComplexVal(a, b), ComplexVal(c, d)) =>
      if op == EQL then Some(Cmp(a, c) == 0 && Cmp(b, d) == 0)
      else if op == NEQ then Some(Cmp(a, c) != 0 || Cmp(b, d) != 0) else None
    case _ => None
  }

  /** Comparing canonical numbers compares what they mean, so equal canonical values are those that
      compare equal; complex numbers have no order. */
  lemma CompareExact(x: Value, op: Op, y: Value)
    requires Numeric(x) && Numeric(y) && Canonical(x) && Canonical(y) && Ordering(op)
    ensures var r, a, b := Compare(x, op, y), Meaning(x), Meaning(y);
            && (r.None? <==> (x.ComplexVal? || y.ComplexVal?) && op != EQL && op != NEQ)
            && (op == EQL ==> r == Some(a == b) == Some(x == y)) && (op == NEQ ==> r == Some(a != b))
            && (r.Some? && op == LSS ==> r.value == (a.re < b.re)) && (r.Some? && op == LEQ ==> r.value == (a.re <= b.re))
            && (r.Some? && op == GTR ==> r.value == (a.re > b.re)) && (r.Some? && op == GEQ ==> r.value == (a.re >= b.re))
  {
    MatchKeepsMeaning(x, y);
    if Meaning(x) == Meaning(y) { CanonicalUnique(x, y); }
  }

  /** A comparison with an unknown operand is false, even `!=`, unless the left one is a Bool or a String:
      then it panics. */
  lemma UnknownCompared(x: Value, op: Op, y: Value)
    requires (x.Unknown? || y.Unknown?) && Ordering(op)
    ensures Compare(x, op, y) == if x.BoolVal? || x.StringVal? then None else Some(false)
  {
    MatchUnknown(x, y);
  }

  /** What two values of different kinds, both known, are compared to: only numbers may be mixed. */
  lemma KindsCompared(x: Value, op: Op, y: Value)
    requires !x.Unknown? && !y.Unknown? && Ordering(op) && !(Numeric(x) && Numeric(y))
    ensures Compare(x, op, y).None? <==>
              !((x.BoolVal? && y.BoolVal? && (op == EQL || op == NEQ)) || (x.StringVal? && y.StringVal?))
  {}

  lemma {:induction false} StringsEqual(a: string, b: string)
    ensures CmpStrings(a, b) == 0 <==> a == b
    ensures CmpStrings(a, b) == -CmpStrings(b, a)
    decreases |a|
  {
    if a != [] && b != [] && a[0] == b[0] {
      StringsEqual(a[1..], b[1..]);
      assert a == [a[0]] + a[1..] && b == [b[0]] + b[1..];
    }
  }

  lemma {:induction false} StringsOrdered(a: string, b: string, c: string)
    requires CmpStrings(a, b) <= 0 && CmpStrings(b, c) <= 0
    ensures CmpStrings(a, c) <= 0
    decreases |a|
  {
    if a != [] && b != [] && c != [] && a[0] == b[0] == c[0] { StringsOrdered(a[1..], b[1..], c[1..]); }
  }

  /** Comparison is a total order of strings, equality included. */
  lemma StringsCompared(a: string, op: Op, b: string)
    requires Ordering(op)
    ensures var (x, y) := (StringVal(a), StringVal(b));
            && (op == EQL ==> Compare(x, op, y) == Some(a == b)) && (op == NEQ ==> Compare(x, op, y) == Some(a != b))
            && (op == LSS ==> Compare(x, op, y) == Compare(y, GTR, x)) && (op == LEQ ==> Compare(x, op, y) == Compare(y, GEQ, x))
            && Compare(x, LEQ, y) == Some(Compare(x, GTR, y) == Some(false))
  {
    StringsEqual(a, b);
  }

  /** The first string ends where the second goes on, or has a smaller character at the first difference. */
  ghost predicate Precedes(a: string, b: string) {
    exists n: nat :: PartAt(a, b, n)
  }

  ghost predicate PartAt(a: string, b: string, n: nat) {
    n <= |a| && n < |b| && a[..n] == b[..n] && (n < |a| ==> a[n] < b[n])
  }

  lemma {:induction false} LessIsPrecedes(a: string, b: string)
    ensures CmpStrings(a, b) < 0 <==> Precedes(a, b)
    decreases |a|
  {
    if a == [] || b == [] || a[0] != b[0] {
      if CmpStrings(a, b) < 0 { assert PartAt(a, b, 0); }
      forall n: nat | PartAt(a, b, n) ensures CmpStrings(a, b) < 0 {
        if n > 0 { assert a[..n][0] == b[..n][0]; }
      }
    } else {
      LessIsPrecedes(a[1..], b[1..]);
      if n: nat :| PartAt(a[1..], b[1..], n) {
        assert a[..n + 1] == [a[0]] + a[1..][..n] && b[..n + 1] == [b[0]] + b[1..][..n];
        assert PartAt(a, b, n + 1);
      }
      if n: nat :| PartAt(a, b, n) {
        assert n > 0;
        assert a[1..][..n - 1] == a[..n][1..] && b[1..][..n - 1] == b[..n][1..];
        assert PartAt(a[1..], b[1..], n - 1);
      }
    }
  }

  /** The order is that of the first difference. */
  lemma StringLess(a: string, b: string)
    ensures Compare(StringVal(a), LSS, StringVal(b)) == Some(Precedes(a, b))
    ensures Compare(StringVal(a), LEQ, StringVal(b)) == Some(Precedes(a, b) || a == b)
  {
    LessIsPrecedes(a, b);
    StringsEqual(a, b);
  }

  /** Known operands that are not both numbers: Bools have && and ||, Strings have +, and all else panics. */
  lemma OtherOperands(x: Value, op: Op, y: Value)
    requires !x.Unknown? && !y.Unknown? && !(Numeric(x) && Numeric(y))
    ensures var r := BinaryOp(x, op, y);
            && (r.Some? <==> (x.BoolVal? && y.BoolVal? && (op == LAND || op == LOR)) || (x.StringVal? && y.StringVal? && op == ADD))
            && (r.Some? && op == LAND ==> (r == Some(BoolVal(true)) <==> x.b && y.b) && r.value.BoolVal?)
            && (r.Some? && op == LOR ==> (r == Some(BoolVal(false)) <==> !x.b && !y.b) && r.value.BoolVal?)
            && (r.Some? && op == ADD ==> r.value.StringVal? && |r.value.s| == |x.s| + |y.s|
                                         && r.value.s[..|x.s|] == x.s && r.value.s[|x.s|..] == y.s)
  {}

  /** An operation with an unknown operand gives the unknown value, unless the left one is a Bool or
      a String: then it panics. */
  lemma UnknownOperand(x: Value, op: Op, y: Value)
    requires x.Unknown? || y.Unknown?
    ensures BinaryOp(x, op, y) == if x.BoolVal? || x.StringVal? then None else Some(Unknown)
  {
    MatchUnknown(x, y);
  }
}

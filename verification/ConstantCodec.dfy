/** How constants travel through the export data: `value`, `float`, `fraction` and `ufloat` of
    go/importer's exporter and importer. */
module ConstantCodec {
  import opened Types
  import opened Bitwise
  import opened Exact
  import opened Constants

  // ---------------------------------------------------------------------------
  // Fractions in lowest terms

  /** x * d is an integer. */
  predicate Clears(x: real, d: nat) {
    d >= 1 && Integral(x * d as real)
  }

  ghost predicate Rational(x: real) {
    exists d: nat :: Clears(x, d)
  }

  /** The least denominator. */
  function Denominator(x: real): (d: nat)
    requires Rational(x)
    ensures Clears(x, d) && forall e: nat :: Clears(x, e) ==> d <= e
  {
    ghost var bound: nat :| Clears(x, bound);
    Search(x, 1, bound)
  }

  function Search(x: real, d: nat, ghost bound: nat): (r: nat)
    requires 1 <= d <= bound && Clears(x, bound) && forall e: nat :: Clears(x, e) ==> d <= e
    ensures Clears(x, r) && forall e: nat :: Clears(x, e) ==> r <= e
    decreases bound - d
  {
    if Clears(x, d) then d else Search(x, d + 1, bound)
  }

  function Numerator(x: real): int
    requires Rational(x)
  {
    (x * Denominator(x) as real).Floor
  }

  /** Numerator over denominator is the number. */
  lemma Fraction(x: real)
    requires Rational(x)
    ensures var n, d := Numerator(x), Denominator(x); d >= 1 && d as real != 0.0 && n as real / d as real == x
  {
    var n, d := Numerator(x), Denominator(x);
    Over(x, d as real, n as real);
  }

  lemma Over(x: real, d: real, n: real)
    requires d != 0.0 && n == x * d
    ensures n / d == x
  {}

  /** `Num` and `Denom`. */
  function Num(v: Value): Value
    requires Int(v) || (v.FloatVal? && Rational(v.x))
  {
    if v.FloatVal? then NormInt(Numerator(v.x)) else v
  }

  function Denom(v: Value): Value
    requires Int(v) || (v.FloatVal? && Rational(v.x))
  {
    if v.FloatVal? then NormInt(Denominator(v.x)) else Int64Val(1)
  }

  function Real(v: Value): Value
    requires Numeric(v)
  {
    if v.ComplexVal? then NormFloat(v.re) else v
  }

  function Imag(v: Value): Value
    requires Numeric(v)
  {
    if v.ComplexVal? then NormFloat(v.im) else Int64Val(0)
  }

  /** `MakeImag`. */
  function MakeImag(v: Value): Value
    requires Int(v) || v.FloatVal?
  {
    NormComplex(0.0, if v.FloatVal? then v.x else Whole(v) as real)
  }

  function Sign(v: Value): int
    requires Int(v) || v.FloatVal?
  {
    var x := if v.FloatVal? then v.x else Whole(v) as real;
    if x < 0.0 then -1 else if x > 0.0 then 1 else 0
  }

  /** A canonical constant that can be written: of known value, with rational parts. */
  ghost predicate Writable(v: Value) {
    && Canonical(v) && !v.Unknown? && (v.FloatVal? ==> Rational(v.x))
    && (v.ComplexVal? ==> Rational(v.re) && Rational(v.im))
  }

  lemma PartsWritable(v: Value)
    requires Writable(v) && v.ComplexVal?
    ensures var re, im := Real(v), Imag(v);
            && Writable(re) && Writable(im) && (Int(re) || re.FloatVal?) && (Int(im) || im.FloatVal?)
            && Meaning(re) == Number(v.re, 0.0) && Meaning(im) == Number(v.im, 0.0)
  {}

  // ---------------------------------------------------------------------------
  // The format

  /** Index of the first byte that is not zero. */
  function Zeros(b: seq<nat>): (z: nat)
    ensures z <= |b| && (forall i :: 0 <= i < z ==> b[i] == 0) && (z < |b| ==> b[z] != 0)
  {
    if b == [] || b[0] != 0 then 0
    else
      var z := Zeros(b[1..]);
      assert forall i :: 0 < i < z + 1 ==> b[i] == b[1..][i - 1];
      z + 1
  }

  function EncodeUfloat(m: nat): seq<Token> {
    var b := Digits(m, 256);
    var z := Zeros(b);
    [Token.Num(8 * z), Raw(b[z..])]
  }

  function EncodeFloat(v: Value): seq<Token>
    requires Int(v)
  {
    if Sign(v) == 0 then [Token.Num(0)] else [Token.Num(Sign(v))] + EncodeUfloat(Abs(Whole(v)))
  }

  function EncodeFraction(v: Value): seq<Token>
    requires Int(v) || (v.FloatVal? && Rational(v.x))
  {
    if Sign(v) == 0 then [Token.Num(0)]
    else [Token.Num(Sign(v))] + EncodeUfloat(Abs(Whole(Num(v)))) + EncodeUfloat(Abs(Whole(Denom(v))))
  }

  function EncodeValue(v: Value): seq<Token>
    requires Writable(v)
  {
    match v
    case BoolVal(b) => [Token.Num(if b then TRUE_TAG else FALSE_TAG)]
    case StringVal(s) => [Token.Num(STRING_TAG), Str(s)]
    case Int64Val(i) => [Token.Num(INT_TAG), Token.Num(i)]
    case IntVal(_) => [Token.Num(FLOAT_TAG)] + EncodeFloat(v)
    case FloatVal(_) => [Token.Num(FRACTION_TAG)] + EncodeFraction(v)
    case ComplexVal(_, _) =>
      PartsWritable(v);
      [Token.Num(COMPLEX_TAG)] + EncodeFraction(Real(v)) + EncodeFraction(Imag(v))
  }

  // ---------------------------------------------------------------------------
  // Writing

  method WriteUfloat(x: Value, wordSize: nat) returns (toks: seq<Token>)
    requires Int(x) && Whole(x) != 0 && wordSize >= 1
    ensures toks == EncodeUfloat(Abs(Whole(x)))
  {
    var mant := Bytes(x, wordSize);
    DigitsVal(Abs(Whole(x)), 256);
    var exp8 := FirstByte(mant);
    toks := [Token.Num(exp8 * 8), Raw(mant[exp8..])];
  }

  /** The index of the first byte that is not zero, or -1. */
  method FirstByte(mant: seq<nat>) returns (exp8: int)
    ensures exp8 == if Zeros(mant) < |mant| then Zeros(mant) else -1
  {
    exp8 := -1;
    var i := 0;
    while i < |mant|
      invariant 0 <= i <= |mant| && exp8 == -1 && i <= Zeros(mant)
    {
      if mant[i] != 0 {
        exp8 := i;
        break;
      }
      i := i + 1;
    }
  }

  method WriteFraction(x: Value, wordSize: nat) returns (toks: seq<Token>)
    requires Writable(x) && (Int(x) || x.FloatVal?) && wordSize >= 1
    ensures toks == EncodeFraction(x)
  {
    toks := [Token.Num(Sign(x))];
    if Sign(x) == 0 { return; }
    NumNotZero(x);
    var n := WriteUfloat(Num(x), wordSize);
    var d := WriteUfloat(Denom(x), wordSize);
    toks := toks + n + d;
  }

  lemma NumNotZero(x: Value)
    requires Writable(x) && (Int(x) || x.FloatVal?)
    ensures Int(Num(x)) && Int(Denom(x)) && Whole(Denom(x)) >= 1
    ensures Whole(Num(x)) as real / Whole(Denom(x)) as real == Meaning(x).re
    ensures Sign(x) != 0 ==> Whole(Num(x)) != 0
  {
    if x.FloatVal? {
      Fraction(x.x);
    } else {
      Over(Whole(x) as real, 1.0, Whole(x) as real);
    }
  }

  /** `exporter.value`. */
  method WriteValue(x: Value, wordSize: nat) returns (toks: seq<Token>)
    requires Writable(x) && wordSize >= 1
    ensures toks == EncodeValue(x)
  {
    match x
    case BoolVal(b) => toks := [Token.Num(if b then TRUE_TAG else FALSE_TAG)];
    case StringVal(s) => toks := [Token.Num(STRING_TAG), Str(s)];
    case Int64Val(i) => toks := [Token.Num(INT_TAG), Token.Num(i)];
    case IntVal(z) =>
      var u := WriteUfloat(x, wordSize);
      toks := [Token.Num(FLOAT_TAG)] + ([Token.Num(Sign(x))] + u);
    case FloatVal(_) =>
      var f := WriteFraction(x, wordSize);
      toks := [Token.Num(FRACTION_TAG)] + f;
    case ComplexVal(_, _) =>
      PartsWritable(x);
      var re := WriteFraction(Real(x), wordSize);
      var im := WriteFraction(Imag(x), wordSize);
      toks := [Token.Num(COMPLEX_TAG)] + re + im;
  }

  // ---------------------------------------------------------------------------
  // Reading

  /** m * 2^exp, exactly. */
  function Scaled(m: nat, exp: int): Value {
    if exp >= 0 then NormInt(m * Pow2(exp)) else NormFloat(m as real / PowerOfTwo(-exp) as real)
  }

  function PowerOfTwo(n: nat): (p: nat)
    ensures p == Pow2(n) && p > 0
  {
    Pow2Positive(n);
    Pow2(n)
  }

  lemma {:induction false} Pow2Positive(n: nat)
    ensures Pow2(n) > 0
    decreases n
  {
    if n > 0 { Pow2Positive(n - 1); }
  }

  method ReadUfloat(data: seq<Token>, wordSize: nat, ghost exp: int, ghost b: seq<nat>, ghost rest: seq<Token>)
      returns (x: Value, left: seq<Token>)
    requires data == [Token.Num(exp), Raw(b)] + rest && InBase(b, 256) && wordSize >= 1
    ensures x == Scaled(Val(b, 256), exp) && left == rest
  {
    var e := data[0].n;
    var mant := MakeFromBytes(data[1].b, wordSize);
    left := data[2..];
    x := mant;
    if e < 0 {
      Pow2Positive(-e);
      QuotientOfInts(Val(b, 256), Pow2(-e));
      x := BinaryOp(mant, QUO, ShiftLeft(Int64Val(1), -e)).value;
    } else if e > 0 {
      x := ShiftLeft(mant, e);
    }
  }

  lemma QuotientOfInts(a: int, b: int)
    requires b != 0
    ensures BinaryOp(NormInt(a), QUO, NormInt(b)) == Some(NormFloat(a as real / b as real))
  {}

  /** Stripped zero bytes come back as a power of two. */
  lemma UfloatBack(m: nat)
    requires m > 0
    ensures var b := Digits(m, 256); var z := Zeros(b);
            && InBase(b[z..], 256) && Scaled(Val(b[z..], 256), 8 * z) == NormInt(m)
  {
    var b := Digits(m, 256);
    DigitsVal(m, 256);
    ValShift(b, Zeros(b), 256);
    BytePower(Zeros(b));
  }

  /** A positive integer read back. */
  method ReadPositive(data: seq<Token>, wordSize: nat, ghost m: nat, ghost rest: seq<Token>) returns (x: Value, left: seq<Token>)
    requires m > 0 && data == EncodeUfloat(m) + rest && wordSize >= 1
    ensures x == NormInt(m) && left == rest
  {
    UfloatBack(m);
    ghost var b := Digits(m, 256);
    x, left := ReadUfloat(data, wordSize, 8 * Zeros(b), b[Zeros(b)..], rest);
  }

  method ReadFloat(data: seq<Token>, wordSize: nat, ghost v: Value, ghost rest: seq<Token>) returns (x: Value, left: seq<Token>)
    requires Int(v) && Canonical(v) && data == EncodeFloat(v) + rest && wordSize >= 1
    ensures x == v && left == rest
  {
    var sign := data[0].n;
    if sign == 0 {
      return Int64Val(0), data[1..];
    }
    x, left := ReadPositive(data[1..], wordSize, Abs(Whole(v)), rest);
    if sign < 0 {
      NegatedInt(Whole(v));
      x := UnaryOp(SUB, x, 0).value;
    }
    NormWhole(v);
  }

  lemma NegatedInt(z: int)
    requires z < 0
    ensures UnaryOp(SUB, NormInt(-z), 0) == Some(NormInt(z))
  {
    if IsInt64(-z) { WrapId(z); }
  }

  lemma NormWhole(v: Value)
    requires Int(v) && Canonical(v)
    ensures NormInt(Whole(v)) == v
  {}

  method ReadFraction(data: seq<Token>, wordSize: nat, ghost v: Value, ghost rest: seq<Token>) returns (x: Value, left: seq<Token>)
    requires Writable(v) && (Int(v) || v.FloatVal?) && data == EncodeFraction(v) + rest && wordSize >= 1
    ensures x == v && left == rest
  {
    NumNotZero(v);
    var sign := data[0].n;
    if sign == 0 {
      return Int64Val(0), data[1..];
    }
    ghost var n, d := Abs(Whole(Num(v))), Abs(Whole(Denom(v)));
    FractionParts(data, Sign(v), n, d, rest);
    x, left := ReadPositive(data[1..], wordSize, n, EncodeUfloat(d) + rest);
    var y;
    y, left := ReadPositive(left, wordSize, d, rest);
    QuotientOfInts(n, d);
    x := BinaryOp(x, QUO, y).value;
    FractionBack(v);
    if sign < 0 {
      x := UnaryOp(SUB, x, 0).value;
    }
  }

  lemma FractionParts(data: seq<Token>, sign: int, n: nat, d: nat, rest: seq<Token>)
    requires data == [Token.Num(sign)] + EncodeUfloat(n) + EncodeUfloat(d) + rest
    ensures data[1..] == EncodeUfloat(n) + (EncodeUfloat(d) + rest)
  {}

  /** The quotient of numerator and denominator, with the sign put back, is the value. */
  lemma FractionBack(v: Value)
    requires Writable(v) && (Int(v) || v.FloatVal?) && Sign(v) != 0
    ensures var q := NormFloat(Abs(Whole(Num(v))) as real / Abs(Whole(Denom(v))) as real);
            if Sign(v) < 0 then UnaryOp(SUB, q, 0) == Some(v) else q == v
  {
    NumNotZero(v);
    var n, d, x := Whole(Num(v)), Whole(Denom(v)), Meaning(v).re;
    SignOfQuotient(n as real, d as real, x);
    if Sign(v) < 0 {
      NegatedQuotient(n as real, d as real, x);
      NormFloatIsCanonical(-x);
      NegationBack(NormFloat(-x), v);
    } else {
      NormFloatIsCanonical(x);
      CanonicalUnique(NormFloat(x), v);
    }
  }

  lemma NegatedQuotient(n: real, d: real, x: real)
    requires d > 0.0 && n / d == x
    ensures (-n) / d == -x
  {}

  lemma SignOfQuotient(n: real, d: real, x: real)
    requires d > 0.0 && n / d == x
    ensures (n > 0.0 <==> x > 0.0) && (n < 0.0 <==> x < 0.0)
  {
    assert n == x * d;
  }

  lemma NegationBack(q: Value, v: Value)
    requires Numeric(q) && Canonical(q) && Numeric(v) && Canonical(v)
    requires Sum(Meaning(q), Meaning(v)) == Number(0.0, 0.0)
    ensures UnaryOp(SUB, q, 0) == Some(v)
  {
    NegationExact(q);
    CanonicalUnique(UnaryOp(SUB, q, -1).value, v);
  }

  /** `importer.value` gives back the value that `exporter.value` wrote, whatever the word sizes of
      the two machines. */
  method ReadValue(data: seq<Token>, wordSize: nat, ghost v: Value, ghost rest: seq<Token>) returns (x: Value, left: seq<Token>)
    requires Writable(v) && data == EncodeValue(v) + rest && wordSize >= 1
    ensures x == v && left == rest
  {
    var kind := data[0].n;
    if kind == FALSE_TAG {
      return BoolVal(false), data[1..];
    } else if kind == TRUE_TAG {
      return BoolVal(true), data[1..];
    } else if kind == STRING_TAG {
      return StringVal(data[1].s), data[2..];
    } else if kind == INT_TAG {
      return Int64Val(data[1].n), data[2..];
    } else if kind == FLOAT_TAG {
      assert data[1..] == EncodeFloat(v) + rest;
      x, left := ReadFloat(data[1..], wordSize, v, rest);
    } else if kind == FRACTION_TAG {
      assert data[1..] == EncodeFraction(v) + rest;
      x, left := ReadFraction(data[1..], wordSize, v, rest);
    } else {
      x, left := ReadComplex(data, wordSize, v, rest);
    }
  }

  method ReadComplex(data: seq<Token>, wordSize: nat, ghost v: Value, ghost rest: seq<Token>) returns (x: Value, left: seq<Token>)
    requires Writable(v) && v.ComplexVal? && data == EncodeValue(v) + rest && wordSize >= 1
    ensures x == v && left == rest
  {
    PartsWritable(v);
    ghost var (re, tail) := (EncodeFraction(Real(v)), EncodeFraction(Imag(v)));
    Regrouped(data, Token.Num(COMPLEX_TAG), re, tail, rest);
    x, left := ReadFraction(data[1..], wordSize, Real(v), tail + rest);
    var im;
    im, left := ReadFraction(left, wordSize, Imag(v), rest);
    ComplexBack(v);
    x := BinaryOp(x, ADD, MakeImag(im)).value;
  }

  lemma Regrouped(data: seq<Token>, t: Token, a: seq<Token>, b: seq<Token>, rest: seq<Token>)
    requires data == [t] + a + b + rest
    ensures |data| >= 1 && data[1..] == a + (b + rest)
  {}

  lemma ComplexBack(v: Value)
    requires Writable(v) && v.ComplexVal?
    ensures var im := Imag(v); (Int(im) || im.FloatVal?) && BinaryOp(Real(v), ADD, MakeImag(im)) == Some(v)
  {
    PartsWritable(v);
    var im := MakeImag(Imag(v));
    NormIsCanonical(Number(0.0, v.im));
    ArithmeticExact(Real(v), ADD, im);
    CanonicalUnique(BinaryOp(Real(v), ADD, im).value, v);
  }
}

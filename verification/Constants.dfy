/** Constants in the export data (go/exact: Bytes, MakeFromBytes; go/importer: value, float,
    fraction, ufloat). */
module Constants {
  import opened Types
  import opened Bitwise
  import opened Exact

  /** The export data is a stream of integers, strings and byte strings. */
  datatype Token = Num(n: int) | Str(s: string) | Raw(b: seq<nat>)

  const INT_TAG := -16
  const FLOAT_TAG := -17
  const FRACTION_TAG := -18
  const COMPLEX_TAG := -19
  const STRING_TAG := -20
  const FALSE_TAG := -21
  const TRUE_TAG := -22

  // ---------------------------------------------------------------------------
  // Little-endian bytes

  /** The number that little-endian digits of the given base stand for. */
  function Val(b: seq<nat>, base: nat): nat {
    if b == [] then 0 else b[0] + base * Val(b[1..], base)
  }

  function Power(base: nat, n: nat): nat {
    if n == 0 then 1 else base * Power(base, n - 1)
  }

  /** The digits of a number, with no leading zero at the end. */
  function Digits(m: nat, base: nat): seq<nat>
    requires base >= 2
    decreases m
  {
    if m == 0 then [] else [m % base] + Digits(Quot(m, base), base)
  }

  function Quot(m: nat, base: nat): (q: nat)
    requires base >= 2
    ensures m > 0 ==> q < m
    ensures m == q * base + m % base
  {
    QuotSmaller(m, base);
    m / base
  }

  lemma QuotSmaller(m: nat, base: nat)
    requires base >= 2
    ensures 0 <= m / base && (m > 0 ==> m / base < m) && m == (m / base) * base + m % base
  {
    var q := m / base;
    assert m == q * base + m % base;
    assert q * base >= q * 2 by { assert q * base == q * 2 + q * (base - 2); }
  }

  predicate InBase(b: seq<nat>, base: nat) {
    forall i :: 0 <= i < |b| ==> b[i] < base
  }

  predicate NoLeadingZero(b: seq<nat>) {
    b == [] || b[|b| - 1] != 0
  }

  lemma {:induction false} DigitsVal(m: nat, base: nat)
    requires base >= 2
    ensures Val(Digits(m, base), base) == m && InBase(Digits(m, base), base) && NoLeadingZero(Digits(m, base))
    ensures m != 0 ==> Digits(m, base) != []
    decreases m
  {
    if m > 0 {
      var q := Quot(m, base);
      DigitsVal(q, base);
      assert Digits(m, base)[1..] == Digits(q, base);
    }
  }

  /** Digits are unique. */
  lemma {:induction false} DigitsUnique(b: seq<nat>, base: nat)
    requires base >= 2 && InBase(b, base) && NoLeadingZero(b)
    ensures Digits(Val(b, base), base) == b
    decreases |b|
  {
    if b != [] {
      var rest := b[1..];
      DigitsUnique(rest, base);
      var v := Val(rest, base);
      OneDigit(b[0], v, base);
      if v == 0 {
        assert rest == [];
        assert b == [b[0]];
      }
      assert b == [b[0]] + rest;
    }
  }

  lemma OneDigit(d: nat, v: nat, base: nat)
    requires base >= 2 && d < base
    ensures (d + base * v) % base == d && Quot(d + base * v, base) == v
  {
    var m := d + base * v;
    var q, r := m / base, m % base;
    assert m == q * base + r && base * v == v * base;
    DivUnique(q, v, r, d, base);
  }

  lemma DivUnique(q: int, v: int, r: int, d: int, base: nat)
    requires q * base + r == v * base + d && 0 <= r < base && 0 <= d < base
    ensures q == v && r == d
  {
    assert (q - v) * base == q * base - v * base;
    SmallMultiple(q - v, base, d - r);
  }

  lemma SmallMultiple(k: int, base: nat, e: int)
    requires k * base == e && -(base as int) < e < base
    ensures k == 0
  {
    if k > 0 {
      AtLeast(k, base);
    } else if k < 0 {
      Negated(k, base);
      AtLeast(-k, base);
    }
  }

  lemma Negated(k: int, b: int)
    ensures (-k) * b == -(k * b)
  {}

  lemma AtLeast(k: int, base: nat)
    requires k > 0
    ensures k * base >= base
  {
    assert k * base == base + (k - 1) * base;
  }

  lemma {:induction false} ValSnoc(b: seq<nat>, d: nat, base: nat)
    ensures Val(b + [d], base) == Val(b, base) + d * Power(base, |b|)
    decreases |b|
  {
    if b == [] {
      assert [] + [d] == [d];
    } else {
      assert (b + [d])[1..] == b[1..] + [d];
      ValSnoc(b[1..], d, base);
      var p := Power(base, |b| - 1);
      Regroup(base, d, p);
      assert base * (Val(b[1..], base) + d * p) == base * Val(b[1..], base) + base * (d * p);
    }
  }

  lemma {:induction false} ValShift(b: seq<nat>, k: nat, base: nat)
    requires k <= |b| && forall i :: 0 <= i < k ==> b[i] == 0
    ensures Val(b, base) == Val(b[k..], base) * Power(base, k)
    decreases k
  {
    if k == 0 {
      assert b[0..] == b;
    } else {
      ValShift(b[1..], k - 1, base);
      assert b[1..][k - 1..] == b[k..];
      Regroup(base, Val(b[k..], base), Power(base, k - 1));
    }
  }

  lemma Regroup(a: nat, b: nat, c: nat)
    ensures a * (b * c) == b * (a * c)
  {}

  // ---------------------------------------------------------------------------
  // Packing into words

  function Repeated(n: nat, w: nat): nat {
    if n == 0 then 0 else w + Repeated(n - 1, w)
  }

  lemma {:induction false} RepeatedIs(n: nat, w: nat)
    ensures Repeated(n, w) == n * w
    decreases n
  {
    if n > 0 {
      RepeatedIs(n - 1, w);
      assert n * w == w + (n - 1) * w;
    }
  }

  lemma {:induction false} PowerOfPower(base: nat, w: nat, n: nat)
    ensures Power(Power(base, w), n) == Power(base, Repeated(n, w))
    decreases n
  {
    if n > 0 {
      PowerOfPower(base, w, n - 1);
      PowerSum(base, w, Repeated(n - 1, w));
    }
  }

  lemma {:induction false} PowerSum(base: nat, m: nat, n: nat)
    ensures Power(base, m + n) == Power(base, m) * Power(base, n)
    decreases m
  {
    if m > 0 {
      PowerSum(base, m - 1, n);
      Associate(base, Power(base, m - 1), Power(base, n));
    }
  }

  lemma Associate(a: nat, b: nat, c: nat)
    ensures a * (b * c) == (a * b) * c
  {}

  lemma PowerAtLeast(base: nat, n: nat)
    requires base >= 2
    ensures Power(base, n) >= 1 && (n >= 1 ==> Power(base, n) >= 2)
    decreases n
  {
    if n > 0 {
      PowerAtLeast(base, n - 1);
      Grows(base, Power(base, n - 1));
    }
  }

  lemma Grows(a: nat, b: nat)
    requires a >= 2 && b >= 1
    ensures a * b >= 2
  {
    assert a * b == 2 * b + (a - 2) * b;
  }

  /** One byte of a word w with a limit of 256 * p, above which stand the remaining words. */
  lemma TakeByte(w: nat, p: nat, hi: nat)
    requires w < 256 * p
    ensures w % 256 < 256 && w / 256 < p && w + 256 * p * hi == w % 256 + 256 * (w / 256 + p * hi)
  {
    Associate(256, p, hi);
  }

  /** What the loop has written and what is left make up the number. */
  ghost predicate Split(m: nat, done: seq<nat>, rest: nat) {
    m == Val(done, 256) + rest * Power(256, |done|) && InBase(done, 256)
  }

  lemma SplitNext(m: nat, done: seq<nat>, rest: nat, d: nat, rest': nat)
    requires Split(m, done, rest) && rest == d + 256 * rest' && d < 256
    ensures Split(m, done + [d], rest')
  {
    ValSnoc(done, d, 256);
    CarryOut(d, rest', Power(256, |done|));
  }

  lemma CarryOut(d: nat, r: nat, p: nat)
    ensures (d + 256 * r) * p == d * p + r * (256 * p)
  {
    assert (d + 256 * r) * p == d * p + 256 * r * p;
  }

  lemma ByteStep(m: nat, done: seq<nat>, w: nat, n: nat, hi: nat)
    requires n >= 1 && w < Power(256, n) && Split(m, done, w + Power(256, n) * hi)
    ensures w / 256 < Power(256, n - 1) && Split(m, done + [w % 256], w / 256 + Power(256, n - 1) * hi)
  {
    var p := Power(256, n - 1);
    TakeByte(w, p, hi);
    SplitNext(m, done, w + 256 * p * hi, w % 256, w / 256 + p * hi);
  }

  /** `Bytes`: the bytes of the absolute value, unpacked from words of the given size. */
  method Bytes(x: Value, wordSize: nat) returns (r: seq<nat>)
    requires Int(x) && wordSize >= 1
    ensures r == Digits(Abs(Whole(x)), 256)
  {
    ghost var m := Abs(Whole(x));
    PowerAtLeast(256, wordSize);
    var words := Digits(Abs(Whole(x)), Power(256, wordSize));
    DigitsVal(m, Power(256, wordSize));
    RepeatedIs(|words|, wordSize);
    var bytes := new nat[|words| * wordSize];
    var i, k := 0, 0;
    assert words[0..] == words;
    while k < |words|
      invariant 0 <= k <= |words| && i + Repeated(|words| - k, wordSize) == bytes.Length
      invariant Split(m, bytes[..i], Val(words[k..], Power(256, wordSize)))
    {
      i := UnpackWord(bytes, i, words[k], wordSize, m, Val(words[k + 1..], Power(256, wordSize)), Repeated(|words| - k - 1, wordSize));
      k := k + 1;
    }
    r := StripBytes(bytes, i, m);
  }

  /** Removes leading zero bytes. */
  method StripBytes(bytes: array<nat>, n: nat, ghost m: nat) returns (r: seq<nat>)
    requires n <= bytes.Length && Split(m, bytes[..n], 0)
    ensures r == Digits(m, 256)
  {
    var i: nat := n;
    while i > 0 && bytes[i - 1] == 0
      invariant i <= n && Split(m, bytes[..i], 0)
    {
      assert bytes[..i] == bytes[..i - 1] + [0];
      ValSnoc(bytes[..i - 1], 0, 256);
      i := i - 1;
    }
    r := bytes[..i];
    DigitsUnique(r, 256);
  }

  function Abs(z: int): nat {
    if z >= 0 then z else -z
  }

  /** The inner loop: the bytes of one word, least significant first. */
  method UnpackWord(bytes: array<nat>, start: nat, word: nat, wordSize: nat, ghost m: nat, ghost hi: nat, ghost more: nat)
      returns (i: nat)
    requires start + wordSize + more == bytes.Length && word < Power(256, wordSize)
    requires Split(m, bytes[..start], word + Power(256, wordSize) * hi)
    modifies bytes
    ensures i == start + wordSize && Split(m, bytes[..i], hi)
  {
    i := start;
    var w: nat, j: nat := word, 0;
    while j < wordSize
      invariant j <= wordSize && i == start + j && w < Power(256, wordSize - j)
      invariant Split(m, bytes[..i], w + Power(256, wordSize - j) * hi)
    {
      ByteStep(m, bytes[..i], w, wordSize - j, hi);
      ghost var done := bytes[..i];
      bytes[i] := w % 256;
      assert bytes[..i + 1] == done + [w % 256];
      w := w / 256;
      i := i + 1;
      j := j + 1;
    }
  }

  // ---------------------------------------------------------------------------
  // Packing

  lemma {:induction false} OrZero(c: nat)
    ensures Combine(Or, 0, c) == c
    decreases c
  {
    HalfOf(Or, 0, c);
    if c > 0 { OrZero(c / 2); }
  }

  lemma {:induction false} OrBelow(w: nat, c: nat, s: nat)
    requires w < Pow2(s) && Low(c, s) == 0
    ensures Combine(Or, w, c) == w + c
    decreases s
  {
    if s == 0 {
      OrZero(c);
    } else {
      HalfOf(Or, w, c);
      OrBelow(w / 2, c / 2, s - 1);
    }
  }

  /** `b << s`. */
  function Shifted(b: nat, s: nat): nat {
    if s == 0 then b else 2 * Shifted(b, s - 1)
  }

  lemma {:induction false} ShiftedIs(b: nat, s: nat)
    ensures Shifted(b, s) == b * Pow2(s) && Low(Shifted(b, s), s) == 0
    decreases s
  {
    if s > 0 {
      ShiftedIs(b, s - 1);
      Regroup(2, b, Pow2(s - 1));
    }
  }

  /** Setting the bits of b above those of w, as the code does with |, adds them. */
  lemma OrDisjoint(w: nat, b: nat, s: nat)
    requires w < Pow2(s)
    ensures Combine(Or, w, Shifted(b, s)) == w + Shifted(b, s)
  {
    ShiftedIs(b, s);
    OrBelow(w, Shifted(b, s), s);
  }

  lemma {:induction false} BytePower(j: nat)
    ensures Pow2(8 * j) == Power(256, j)
    decreases j
  {
    if j > 0 {
      BytePower(j - 1);
      Pow2Sum(8, 8 * (j - 1));
      assert Pow2(8) == 256;
    }
  }

  /** The bytes read so far are the stored words and the word being filled, of which j bytes are set. */
  ghost predicate Packed(read: seq<nat>, words: seq<nat>, w: nat, j: nat, wordSize: nat) {
    var base := Power(256, wordSize);
    && |read| == Repeated(|words|, wordSize) + j && j < wordSize && w < Power(256, j)
    && Val(read, 256) == Val(words, base) + w * Power(base, |words|)
  }

  lemma PackByte(read: seq<nat>, words: seq<nat>, w: nat, j: nat, wordSize: nat, b: nat, next: nat)
    requires Packed(read, words, w, j, wordSize) && b < 256 && next == w + Shifted(b, 8 * j)
    ensures next < Power(256, j + 1)
    ensures Val(read + [b], 256) == Val(words, Power(256, wordSize)) + next * Power(Power(256, wordSize), |words|)
  {
    var base, p := Power(256, wordSize), Power(256, j);
    ValSnoc(read, b, 256);
    PowerOfPower(256, wordSize, |words|);
    PowerSum(256, Repeated(|words|, wordSize), j);
    ShiftedIs(b, 8 * j);
    BytePower(j);
    Carry(b, Power(base, |words|), p, w);
    BelowNext(w, b, p);
  }

  lemma Carry(b: nat, q: nat, p: nat, w: nat)
    ensures w * q + b * (q * p) == (w + b * p) * q
  {}

  lemma BelowNext(w: nat, b: nat, p: nat)
    requires w < p && b < 256
    ensures w + b * p < 256 * p
  {
    assert b * p <= 255 * p;
  }

  /** The word is full, or the last byte has been read: it is stored. */
  lemma StoreWord(read: seq<nat>, words: seq<nat>, w: nat, wordSize: nat)
    requires Val(read, 256) == Val(words, Power(256, wordSize)) + w * Power(Power(256, wordSize), |words|)
    ensures Val(read, 256) == Val(words + [w], Power(256, wordSize))
  {
    ValSnoc(words, w, Power(256, wordSize));
  }

  /** How many words bytes fill. */
  lemma WordCount(n: nat, wordSize: nat, i: nat, j: nat)
    requires wordSize >= 1 && j < wordSize && Repeated(i, wordSize) + j <= n
    ensures var count := (n + (wordSize - 1)) / wordSize;
            && 0 <= i <= count && (Repeated(i, wordSize) + wordSize <= n || (Repeated(i, wordSize) + j == n && j > 0) ==> i < count)
  {
    RepeatedIs(i, wordSize);
    var count := (n + (wordSize - 1)) / wordSize;
    var r := (n + (wordSize - 1)) % wordSize;
    assert n + (wordSize - 1) == count * wordSize + r;
    if count < i {
      Distance(i, count, wordSize);
      assert false;
    }
    if i == count {
      assert i * wordSize == count * wordSize;
    }
  }

  lemma Distance(i: int, c: int, w: nat)
    requires c < i
    ensures i * w >= c * w + w
  {
    assert i * w == c * w + w + (i - c - 1) * w;
  }

  /** `MakeFromBytes`: packs little-endian bytes into words of the given size. */
  method MakeFromBytes(bytes: seq<nat>, wordSize: nat) returns (r: Value)
    requires wordSize >= 1 && InBase(bytes, 256)
    ensures r == NormInt(Val(bytes, 256))
  {
    var words := new nat[(|bytes| + (wordSize - 1)) / wordSize];
    var i: nat, w: nat, s: nat, t: nat := 0, 0, 0, 0;
    ghost var j: nat := 0;
    WordCount(|bytes|, wordSize, 0, 0);
    while t < |bytes|
      invariant t <= |bytes| && i <= words.Length && s == 8 * j
      invariant Packed(bytes[..t], words[..i], w, j, wordSize)
    {
      assert bytes[..t + 1] == bytes[..t] + [bytes[t]];
      i, w, s, j := AddByte(words, i, w, s, j, bytes[t], bytes[..t], |bytes|, wordSize);
      t := t + 1;
    }
    assert bytes[..t] == bytes;
    WordCount(|bytes|, wordSize, i, j);
    if i < words.Length {
      i := Store(words, i, w, bytes, wordSize);
    }
    r := FromWords(words, i, Power(256, wordSize));
  }

  /** One byte goes into the current word, and a full word is stored. */
  method AddByte(words: array<nat>, i: nat, w: nat, s: nat, ghost j: nat, b: nat, ghost read: seq<nat>, ghost n: nat,
                 wordSize: nat)
      returns (i1: nat, w1: nat, s1: nat, ghost j1: nat)
    requires wordSize >= 1 && i <= words.Length == (n + (wordSize - 1)) / wordSize && |read| < n && b < 256 && s == 8 * j
    requires Packed(read, words[..i], w, j, wordSize)
    modifies words
    ensures i1 <= words.Length && s1 == 8 * j1 && Packed(read + [b], words[..i1], w1, j1, wordSize)
  {
    i1, s1, j1 := i, s + 8, j + 1;
    w1 := OrByte(w, b, s, j, read, words[..i], wordSize);
    if s1 == wordSize * 8 {
      WordCount(n, wordSize, i, 0);
      i1 := Store(words, i, w1, read + [b], wordSize);
      w1, s1, j1 := 0, 0, 0;
    }
  }

  method Store(words: array<nat>, i: nat, w: nat, ghost read: seq<nat>, wordSize: nat) returns (next: nat)
    requires i < words.Length
    requires Val(read, 256) == Val(words[..i], Power(256, wordSize)) + w * Power(Power(256, wordSize), i)
    modifies words
    ensures next == i + 1 && Val(read, 256) == Val(words[..i + 1], Power(256, wordSize))
  {
    ghost var stored := words[..i];
    StoreWord(read, stored, w, wordSize);
    words[i] := w;
    assert words[..i + 1] == stored + [w];
    next := i + 1;
  }

  /** Removes leading zero words. */
  method FromWords(words: array<nat>, n: nat, base: nat) returns (r: Value)
    requires n <= words.Length
    ensures r == NormInt(Val(words[..n], base))
  {
    var i: nat := n;
    while i > 0 && words[i - 1] == 0
      invariant i <= n && Val(words[..n], base) == Val(words[..i], base)
    {
      assert words[..i] == words[..i - 1] + [0];
      ValSnoc(words[..i - 1], 0, base);
      i := i - 1;
    }
    r := NormInt(Val(words[..i], base));
  }

  /** `w |= big.Word(b) << s`. */
  method OrByte(w: nat, b: nat, s: nat, ghost j: nat, ghost read: seq<nat>, ghost words: seq<nat>, wordSize: nat)
      returns (w': nat)
    requires s == 8 * j && b < 256 && Packed(read, words, w, j, wordSize)
    ensures w' < Power(256, j + 1)
    ensures Val(read + [b], 256) == Val(words, Power(256, wordSize)) + w' * Power(Power(256, wordSize), |words|)
  {
    BytePower(j);
    OrDisjoint(w, b, s);
    w' := Combine(Or, w, Shifted(b, s));
    PackByte(read, words, w, j, wordSize, b, w');
  }
}

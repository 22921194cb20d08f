/** Deltas of diff_match_patch.py: an edit list written as one text, and read again. */
module Delta {
  import opened Types
  import opened Edits
  import opened Strings
  import opened Sealing

  const TAB: nat := 9
  const PERCENT: nat := 37
  const PLUS: nat := 43
  const MINUS: nat := 45
  const EQUALS: nat := 61
  const REPLACEMENT: nat := 0xFFFD

  // ---------------------------------------------------------------------------
  // UTF-8

  /** A code point that UTF-8 can write: no surrogate. */
  predicate Encodable(c: nat) {
    c < 0x110000 && !(0xD800 <= c <= 0xDFFF)
  }

  predicate EncodableText(t: Text) {
    forall i :: 0 <= i < |t| ==> Encodable(t[i])
  }

  function Utf8(c: nat): (b: seq<nat>)
    requires Encodable(c)
  {
    if c < 0x80 then [c]
    else if c < 0x800 then [0xC0 + c / 64, 0x80 + c % 64]
    else if c < 0x10000 then [0xE0 + c / 4096, 0x80 + c / 64 % 64, 0x80 + c % 64]
    else [0xF0 + c / 262144, 0x80 + c / 4096 % 64, 0x80 + c / 64 % 64, 0x80 + c % 64]
  }

  /** The number of bytes that a first byte announces, or none for a byte that cannot be first. */
  function Announced(b: nat): nat {
    if b < 0x80 then 1 else if 0xC2 <= b < 0xE0 then 2 else if 0xE0 <= b < 0xF0 then 3 else if 0xF0 <= b < 0xF5 then 4 else 0
  }

  /** A second byte must not make the form too long, a surrogate, or too large. */
  predicate SecondByte(b0: nat, b1: nat) {
    && (if b0 == 0xE0 then 0xA0 else if b0 == 0xF0 then 0x90 else 0x80) <= b1
    && b1 < (if b0 == 0xED then 0xA0 else if b0 == 0xF4 then 0x90 else 0xC0)
  }

  predicate LaterByte(b: seq<nat>, i: nat) {
    i < |b| && 0x80 <= b[i] < 0xC0
  }

  /** How many of the announced bytes are there. */
  function Present(b: seq<nat>, n: nat): (m: nat)
    requires b != [] && 1 <= n <= 4
    ensures 1 <= m <= n && m <= |b|
  {
    if n == 1 || |b| == 1 || !SecondByte(b[0], b[1]) then 1
    else if n == 2 || !LaterByte(b, 2) then 2
    else if n == 3 || !LaterByte(b, 3) then 3
    else 4
  }

  /** The code point that n bytes stand for. */
  function CodePoint(b: seq<nat>, n: nat): nat
    requires 1 <= n <= 4 && n <= |b|
  {
    if n == 1 then b[0]
    else if n == 2 then b[0] % 32 * 64 + b[1] % 64
    else if n == 3 then b[0] % 16 * 4096 + b[1] % 64 * 64 + b[2] % 64
    else b[0] % 8 * 262144 + b[1] % 64 * 4096 + b[2] % 64 * 64 + b[3] % 64
  }

  /** `decode('utf-8', 'replace')`: what is not UTF-8 becomes a replacement character. */
  function Decode(b: seq<nat>): Text {
    if b == [] then []
    else
      var n := Announced(b[0]);
      if n == 0 then [REPLACEMENT] + Decode(b[1..])
      else
        var m := Present(b, n);
        [if m == n then CodePoint(b, n) else REPLACEMENT] + Decode(b[m..])
  }

  lemma {:induction false} DecodeOne(c: nat, more: seq<nat>)
    requires Encodable(c)
    ensures Decode(Utf8(c) + more) == [c] + Decode(more)
  {
    var b := Utf8(c) + more;
    assert b[..|Utf8(c)|] == Utf8(c) && b[|Utf8(c)|..] == more;
    FirstByte(c);
    AllPresent(b, c);
    CodePointOf(c);
    CodePointPrefix(b, Utf8(c));
  }

  lemma FirstByte(c: nat)
    requires Encodable(c)
    ensures 1 <= |Utf8(c)| <= 4 && Announced(Utf8(c)[0]) == |Utf8(c)|
  {
  }

  lemma AllPresent(b: seq<nat>, c: nat)
    requires Encodable(c) && Utf8(c) <= b
    ensures Present(b, |Utf8(c)|) == |Utf8(c)|
  {
    assert forall i :: 0 <= i < |Utf8(c)| ==> b[i] == Utf8(c)[i];
  }

  lemma CodePointOf(c: nat)
    requires Encodable(c)
    ensures CodePoint(Utf8(c), |Utf8(c)|) == c
  {
    var c1, c2, c3 := c / 64, c / 64 / 64, c / 64 / 64 / 64;
    assert c / 4096 == c2 && c / 262144 == c3;
    assert c == c1 * 64 + c % 64 && c1 == c2 * 64 + c1 % 64 && c2 == c3 * 64 + c2 % 64;
    Continuation(c % 64);
    Continuation(c1 % 64);
    Continuation(c2 % 64);
    if 0x80 <= c < 0x800 {
      assert (0xC0 + c1) % 32 == c1;
    } else if 0x800 <= c < 0x10000 {
      assert (0xE0 + c2) % 16 == c2;
    } else if 0x10000 <= c {
      assert (0xF0 + c3) % 8 == c3;
    }
  }

  lemma Continuation(x: nat)
    requires x < 64
    ensures (0x80 + x) % 64 == x
  {
  }

  lemma CodePointPrefix(b: seq<nat>, u: seq<nat>)
    requires 1 <= |u| <= 4 && u <= b
    ensures CodePoint(b, |u|) == CodePoint(u, |u|)
  {
    assert forall i :: 0 <= i < |u| ==> b[i] == u[i];
  }

  /** The bytes of a text. */
  function Encode(t: Text): (b: seq<nat>)
    requires EncodableText(t)
    ensures forall i :: 0 <= i < |b| ==> b[i] < 256
  {
    if t == [] then [] else Utf8(t[0]) + Encode(t[1..])
  }

  lemma {:induction false} DecodeEncode(t: Text)
    requires EncodableText(t)
    ensures Decode(Encode(t)) == t
  {
    if t != [] {
      DecodeOne(t[0], Encode(t[1..]));
      DecodeEncode(t[1..]);
    }
  }

  // ---------------------------------------------------------------------------
  // Percent escapes

  /** The bytes that `quote` leaves as they are: letters, digits and the characters _.-~ and !*'();/?:@&=+$,# and space. */
  predicate Safe(b: nat) {
    || 48 <= b <= 57 || 65 <= b <= 90 || 97 <= b <= 122
    || b in {95, 46, 45, 126, 33, 42, 39, 40, 41, 59, 47, 63, 58, 64, 38, 61, 43, 36, 44, 35, 32}
  }

  /** Hexadecimal digits are written in capitals and read in both cases. */
  function HexDigit(n: nat): (c: nat)
    requires n < 16
  {
    if n < 10 then 48 + n else 55 + n
  }

  function HexValue(c: nat): Option<nat> {
    if 48 <= c <= 57 then Some(c - 48) else if 65 <= c <= 70 then Some(c - 55) else if 97 <= c <= 102 then Some(c - 87) else None
  }

  function QuoteByte(b: nat): Text
    requires b < 256
  {
    if Safe(b) then [b] else [PERCENT, HexDigit(b / 16), HexDigit(b % 16)]
  }

  /** `quote`. */
  function Quote(b: seq<nat>): Text
    requires forall i :: 0 <= i < |b| ==> b[i] < 256
  {
    if b == [] then [] else QuoteByte(b[0]) + Quote(b[1..])
  }

  predicate AllSafe(t: Text) {
    t == [] || (Safe(t[0]) && AllSafe(t[1..]))
  }

  /** Texts of safe characters, and only these, are quoted to themselves. */
  lemma {:induction false} QuotedToItself(t: Text)
    requires EncodableText(t)
    ensures Quote(Encode(t)) == t <==> AllSafe(t)
    decreases |t|
  {
    QuotedLength(t);
    if t != [] && Safe(t[0]) {
      QuotedToItself(t[1..]);
      FirstQuoted(t);
      assert t == [t[0]] + t[1..];
    }
  }

  lemma {:induction false} QuotedLength(t: Text)
    requires EncodableText(t)
    ensures |Quote(Encode(t))| >= |t| && (|Quote(Encode(t))| == |t| ==> AllSafe(t))
    decreases |t|
  {
    if t != [] {
      QuotedLength(t[1..]);
      FirstQuoted(t);
    }
  }

  lemma FirstQuoted(t: Text)
    requires t != [] && EncodableText(t)
    ensures var (whole, rest) := (Quote(Encode(t)), Quote(Encode(t[1..])));
            if Safe(t[0]) then whole == [t[0]] + rest else |whole| >= |rest| + 3
  {
    QuotedParts(t);
    QuotedCharacter(t[0]);
  }

  lemma QuotedParts(t: Text)
    requires t != [] && EncodableText(t)
    ensures Quote(Encode(t)) == Quote(Utf8(t[0])) + Quote(Encode(t[1..]))
  {
    QuoteConcat(Utf8(t[0]), Encode(t[1..]));
  }

  lemma QuotedCharacter(c: nat)
    requires Encodable(c)
    ensures if Safe(c) then Quote(Utf8(c)) == [c] else |Quote(Utf8(c))| >= 3
  {
    var b := Utf8(c);
    LeadByte(c);
    assert Quote(b) == QuoteByte(b[0]) + Quote(b[1..]);
    if c < 0x80 { assert b[1..] == []; }
  }

  lemma LeadByte(c: nat)
    requires Encodable(c)
    ensures Utf8(c) != [] && (c < 0x80 ==> Utf8(c) == [c]) && (c >= 0x80 ==> 0xC0 <= Utf8(c)[0] < 256)
  {}

  lemma {:induction false} QuoteConcat(a: seq<nat>, b: seq<nat>)
    requires (forall i :: 0 <= i < |a| ==> a[i] < 256) && (forall i :: 0 <= i < |b| ==> b[i] < 256)
    ensures Quote(a + b) == Quote(a) + Quote(b)
    decreases |a|
  {
    if a == [] {
      assert a + b == b;
    } else {
      assert (a + b)[1..] == a[1..] + b;
      QuoteConcat(a[1..], b);
    }
  }

  predicate Escape(s: Text) {
    |s| >= 3 && s[0] == PERCENT && HexValue(s[1]).Some? && HexValue(s[2]).Some?
  }

  /** `unquote_to_bytes`: an escape that is none stays as it is. */
  function UnquoteBytes(s: Text): seq<nat> {
    if s == [] then []
    else if Escape(s) then [HexValue(s[1]).value * 16 + HexValue(s[2]).value] + UnquoteBytes(s[3..])
    else [s[0]] + UnquoteBytes(s[1..])
  }

  /** The length of the ASCII text at the start. */
  function AsciiRun(s: Text): (n: nat)
    ensures n <= |s|
  {
    if s == [] || s[0] >= 128 then 0 else 1 + AsciiRun(s[1..])
  }

  /** Runs of ASCII are read as bytes of UTF-8, and other characters stay. */
  function UnquoteRuns(s: Text): Text
    decreases |s|
  {
    if s == [] then []
    else if s[0] >= 128 then [s[0]] + UnquoteRuns(s[1..])
    else var n := AsciiRun(s); Decode(UnquoteBytes(s[..n])) + UnquoteRuns(s[n..])
  }

  /** `unquote`. */
  function Unquote(s: Text): Text {
    if PERCENT !in s then s else UnquoteRuns(s)
  }

  lemma UnquoteOne(b: nat, more: Text)
    requires b < 256
    ensures UnquoteBytes(QuoteByte(b) + more) == [b] + UnquoteBytes(more)
  {
    var s := QuoteByte(b) + more;
    if Safe(b) {
      assert s[1..] == more;
    } else {
      assert s[1] == HexDigit(b / 16) && s[2] == HexDigit(b % 16) && s[3..] == more;
    }
  }

  lemma {:induction false} UnquoteQuote(b: seq<nat>)
    requires forall i :: 0 <= i < |b| ==> b[i] < 256
    ensures UnquoteBytes(Quote(b)) == b
  {
    if b != [] {
      UnquoteOne(b[0], Quote(b[1..]));
      UnquoteQuote(b[1..]);
    }
  }

  /** Quoted text is ASCII without tabs. */
  predicate Plain(s: Text) {
    forall i :: 0 <= i < |s| ==> s[i] < 128 && s[i] != TAB
  }

  lemma {:induction false} QuoteIsPlain(b: seq<nat>)
    requires forall i :: 0 <= i < |b| ==> b[i] < 256
    ensures Plain(Quote(b))
  {
    if b != [] {
      QuoteIsPlain(b[1..]);
    }
  }

  lemma {:induction false} RunIsAll(s: Text)
    requires Plain(s)
    ensures AsciiRun(s) == |s|
  {
    if s != [] {
      RunIsAll(s[1..]);
    }
  }

  /** Without a percent sign unquoting changes nothing, so that the shortcut is right. */
  lemma {:induction false} NothingToUnquote(s: Text)
    requires Plain(s) && PERCENT !in s
    ensures Decode(UnquoteBytes(s)) == s
  {
    if s != [] {
      NothingToUnquote(s[1..]);
      assert UnquoteBytes(s) == [s[0]] + UnquoteBytes(s[1..]);
      assert Utf8(s[0]) == [s[0]];
      DecodeOne(s[0], UnquoteBytes(s[1..]));
    }
  }

  /** Unquoting undoes encoding and quoting. */
  lemma UnquoteUndoes(t: Text)
    requires EncodableText(t)
    ensures Unquote(Quote(Encode(t))) == t
  {
    var s := Quote(Encode(t));
    UnquoteQuote(Encode(t));
    DecodeEncode(t);
    QuoteIsPlain(Encode(t));
    if PERCENT !in s {
      NothingToUnquote(s);
    } else {
      RunIsAll(s);
      assert s[..|s|] == s && s[|s|..] == [];
      assert UnquoteRuns(s) == Decode(UnquoteBytes(s)) + UnquoteRuns([]);
    }
  }

  // ---------------------------------------------------------------------------
  // Numbers

  /** `"%d" % n`. */
  function Decimal(n: nat): (s: Text)
  {
    if n < 10 then [48 + n] else Decimal(n / 10) + [48 + n % 10]
  }

  predicate AllDigits(s: Text) {
    forall i :: 0 <= i < |s| ==> 48 <= s[i] <= 57
  }

  function Value(s: Text): nat
    requires AllDigits(s)
  {
    if s == [] then 0 else Value(s[..|s| - 1]) * 10 + (s[|s| - 1] - 48)
  }

  /** `int`, on ASCII digits with or without a sign. */
  function ParseInt(s: Text): Option<int> {
    if s != [] && AllDigits(s) then Some(Value(s))
    else if |s| > 1 && s[0] == PLUS && AllDigits(s[1..]) then Some(Value(s[1..]))
    else if |s| > 1 && s[0] == MINUS && AllDigits(s[1..]) then Some(0 - Value(s[1..]))
    else None
  }

  lemma {:induction false} ParseDecimal(n: nat)
    ensures Decimal(n) != [] && AllDigits(Decimal(n)) && Value(Decimal(n)) == n
  {
    var s := Decimal(n);
    if n >= 10 {
      ParseDecimal(n / 10);
      assert s[..|s| - 1] == Decimal(n / 10);
    } else {
      assert s[..|s| - 1] == [];
    }
  }

  // ---------------------------------------------------------------------------
  // Lists of tokens

  function Join(tokens: seq<Text>): Text {
    if tokens == [] then []
    else if |tokens| == 1 then tokens[0]
    else tokens[0] + [TAB] + Join(tokens[1..])
  }

  /** `split`: a text of no tab is one token. */
  function Split(s: Text): (r: seq<Text>)
    ensures r != []
  {
    if s == [] then [[]]
    else if s[0] == TAB then [[]] + Split(s[1..])
    else var r := Split(s[1..]); [[s[0]] + r[0]] + r[1..]
  }

  lemma {:induction false} SplitOne(t: Text, rest: Text)
    requires TAB !in t
    ensures Split(t + [TAB] + rest) == [t] + Split(rest)
    ensures Split(t) == [t]
  {
    var s := t + [TAB] + rest;
    if t == [] {
      assert s[1..] == rest;
    } else {
      assert s[1..] == t[1..] + [TAB] + rest;
      SplitOne(t[1..], rest);
      assert [t[0]] + t[1..] == t;
    }
  }

  lemma {:induction false} SplitJoin(tokens: seq<Text>)
    requires tokens != [] && forall i :: 0 <= i < |tokens| ==> TAB !in tokens[i]
    ensures Split(Join(tokens)) == tokens
  {
    if |tokens| == 1 {
      SplitOne(tokens[0], []);
    } else {
      SplitOne(tokens[0], Join(tokens[1..]));
      SplitJoin(tokens[1..]);
    }
  }

  // ---------------------------------------------------------------------------
  // Deltas

  /** Inserted text must be encodable. */
  predicate Writable(e: Edit) {
    e.op == Insert ==> EncodableText(e.text)
  }

  predicate AllWritable(d: seq<Edit>) {
    forall i :: 0 <= i < |d| ==> Writable(d[i])
  }

  function Token(e: Edit): (t: Text)
    requires Writable(e)
  {
    match e.op
    case Insert => [PLUS] + Quote(Encode(e.text))
    case Delete => [MINUS] + Decimal(|e.text|)
    case Equal => [EQUALS] + Decimal(|e.text|)
  }

  function Tokens(d: seq<Edit>): (r: seq<Text>)
    requires AllWritable(d)
    ensures |r| == |d|
  {
    if d == [] then [] else Tokens(d[..|d| - 1]) + [Token(d[|d| - 1])]
  }

  lemma {:induction false} TokenAt(d: seq<Edit>, i: nat)
    requires AllWritable(d) && i < |d|
    ensures Tokens(d)[i] == Token(d[i])
    decreases |d|
  {
    if i < |d| - 1 { TokenAt(d[..|d| - 1], i); }
  }

  /** `diff_toDelta`: nothing is written when an inserted text holds a surrogate. */
  method ToDelta(d: seq<Edit>) returns (delta: Option<Text>)
    ensures delta == if AllWritable(d) then Some(Join(Tokens(d))) else None
  {
    var text: seq<Text> := [];
    ghost var done: seq<Edit> := [];
    for i := 0 to |d|
      invariant |done| == i && (forall j :: 0 <= j < i ==> done[j] == d[j])
      invariant AllWritable(done) && text == Tokens(done)
    {
      var e := d[i];
      if e.op == Insert && !EncodableText(e.text) {
        assert !Writable(d[i]);
        return None;
      }
      TokensStep(done, e);
      var token := WriteToken(e);
      text := text + [token];
      done := done + [e];
    }
    assert done == d;
    return Some(Join(text));
  }

  method WriteToken(e: Edit) returns (token: Text)
    requires Writable(e)
    ensures token == Token(e)
  {
    match e.op {
      case Insert => token := [PLUS] + Quote(Encode(e.text));
      case Delete => token := [MINUS] + Decimal(|e.text|);
      case Equal => token := [EQUALS] + Decimal(|e.text|);
    }
  }

  lemma TokensStep(done: seq<Edit>, e: Edit)
    requires AllWritable(done) && Writable(e)
    ensures AllWritable(done + [e]) && Tokens(done + [e]) == Tokens(done) + [Token(e)]
  {
    assert (done + [e])[..|done|] == done;
  }

  datatype Outcome = Read(d: seq<Edit>) | InvalidNumber | NegativeNumber | InvalidOperation | WrongLength

  function Prepend(e: Edit, o: Outcome): Outcome {
    if o.Read? then Read([e] + o.d) else o
  }

  /** What a token that is not blank stands for, at a place in the text. */
  function ReadToken(text1: Text, t: Text, pointer: nat): (o: Outcome)
    requires t != []
    ensures o.Read? ==> |o.d| == 1
  {
    if t[0] == PLUS then Read([Edit(Insert, Unquote(t[1..]))])
    else if t[0] == MINUS || t[0] == EQUALS then
      var n := ParseInt(t[1..]);
      if n == None then InvalidNumber
      else if n.value < 0 then NegativeNumber
      else Read([Edit(if t[0] == EQUALS then Equal else Delete, Take(Drop(text1, pointer), n.value))])
    else InvalidOperation
  }

  /** How far a token that can be read moves in the text. */
  function Moves(t: Text): nat {
    if t != [] && t[0] != PLUS then
      match ParseInt(t[1..])
      case Some(n) => if n < 0 then 0 else n
      case None => 0
    else 0
  }

  /** The edits that the tokens from number i on stand for, from a place in the text on. */
  function Apply(text1: Text, tokens: seq<Text>, i: nat, pointer: nat): Outcome
    requires i <= |tokens|
    decreases |tokens| - i
  {
    if i == |tokens| then (if pointer == |text1| then Read([]) else WrongLength)
    else if tokens[i] == [] then Apply(text1, tokens, i + 1, pointer)
    else
      var o := ReadToken(text1, tokens[i], pointer);
      if o.Read? then Prepend(o.d[0], Apply(text1, tokens, i + 1, pointer + Moves(tokens[i]))) else o
  }

  /** The token is blank, or an edit can be read from it. */
  predicate Readable(t: Text) {
    t == [] || t[0] == PLUS || ((t[0] == MINUS || t[0] == EQUALS) && ParseInt(t[1..]).Some? && ParseInt(t[1..]).value >= 0)
  }

  /** How far the tokens from number i on move in the text. */
  function Distance(tokens: seq<Text>, i: nat): nat
    requires i <= |tokens|
    decreases |tokens| - i
  {
    if i == |tokens| then 0 else (if tokens[i] == [] then 0 else Moves(tokens[i])) + Distance(tokens, i + 1)
  }

  predicate AllReadable(tokens: seq<Text>, i: nat)
    requires i <= |tokens|
    decreases |tokens| - i
  {
    i == |tokens| || (Readable(tokens[i]) && AllReadable(tokens, i + 1))
  }

  /** A list is read exactly if every token can be read and their lengths add up to that of the text; then the
      text is the first one of the list. */
  lemma {:induction false} ReadSpells(text1: Text, tokens: seq<Text>, i: nat, pointer: nat)
    requires i <= |tokens|
    ensures var o := Apply(text1, tokens, i, pointer);
            && (o.Read? <==> AllReadable(tokens, i) && pointer + Distance(tokens, i) == |text1|)
            && (o.Read? ==> pointer <= |text1| && Text1(o.d) == text1[pointer..])
    decreases |tokens| - i
  {
    if i < |tokens| {
      if tokens[i] == [] {
        ReadSpells(text1, tokens, i + 1, pointer);
      } else {
        ReadSpells(text1, tokens, i + 1, pointer + Moves(tokens[i]));
        ReadNext(text1, tokens[i], pointer, Apply(text1, tokens, i + 1, pointer + Moves(tokens[i])));
      }
    }
  }

  lemma ReadNext(text1: Text, t: Text, pointer: nat, rest: Outcome)
    requires t != []
    requires rest.Read? ==> pointer + Moves(t) <= |text1| && Text1(rest.d) == text1[pointer + Moves(t)..]
    ensures var o := ReadToken(text1, t, pointer);
            var r := if o.Read? then Prepend(o.d[0], rest) else o;
            (r.Read? <==> Readable(t) && rest.Read?) && (r.Read? ==> pointer <= |text1| && Text1(r.d) == text1[pointer..])
  {
    TokenReads(text1, t, pointer);
    var o := ReadToken(text1, t, pointer);
    if o.Read? && rest.Read? { PrependSpells(text1, o.d[0], rest.d, pointer, Moves(t)); }
  }

  lemma TokenReads(text1: Text, t: Text, pointer: nat)
    requires t != []
    ensures var o := ReadToken(text1, t, pointer);
            (o.Read? <==> Readable(t)) && (o.Read? ==> Part(o.d[0], Insert) == Take(Drop(text1, pointer), Moves(t)))
  {}

  lemma PrependSpells(text1: Text, e: Edit, rest: seq<Edit>, p: nat, n: nat)
    requires p + n <= |text1| && Part(e, Insert) == Take(Drop(text1, p), n) && Text1(rest) == text1[p + n..]
    ensures Text1([e] + rest) == text1[p..]
  {
    TextsConcat([e], rest);
    TextsOf1(e);
    SliceNext(text1, p, n);
  }

  lemma SliceNext(t: Text, p: nat, n: nat)
    requires p + n <= |t|
    ensures Take(Drop(t, p), n) + t[p + n..] == t[p..]
  {
    assert t[p..][..n] == t[p..p + n];
  }

  function PrependAll(d: seq<Edit>, o: Outcome): Outcome {
    if o.Read? then Read(d + o.d) else o
  }

  /** With the edits read so far and those to come, the outcome is the whole one. */
  ghost predicate Going(text1: Text, tokens: seq<Text>, i: nat, pointer: nat, diffs: seq<Edit>, whole: Outcome)
    requires i <= |tokens|
  {
    forall z: nat {:trigger Seal(z)} :: Seal(z) ==> PrependAll(diffs, Apply(text1, tokens, i, pointer)) == whole
  }

  lemma GoingStarts(text1: Text, tokens: seq<Text>)
    ensures Going(text1, tokens, 0, 0, [], Apply(text1, tokens, 0, 0))
  {
    var o := Apply(text1, tokens, 0, 0);
    assert o.Read? ==> [] + o.d == o.d;
  }

  lemma GoingOn(text1: Text, tokens: seq<Text>, i: nat, pointer: nat, diffs: seq<Edit>, whole: Outcome)
    requires i < |tokens| && Going(text1, tokens, i, pointer, diffs, whole)
    ensures tokens[i] == [] ==> Going(text1, tokens, i + 1, pointer, diffs, whole)
    ensures tokens[i] != [] ==>
      var o := ReadToken(text1, tokens[i], pointer);
      if o.Read? then Going(text1, tokens, i + 1, pointer + Moves(tokens[i]), diffs + o.d, whole) else whole == o
  {
    assert Seal(0);
    if tokens[i] != [] {
      var o := ReadToken(text1, tokens[i], pointer);
      if o.Read? {
        var rest := Apply(text1, tokens, i + 1, pointer + Moves(tokens[i]));
        PrependStep(diffs, o.d[0], rest);
        assert o.d == [o.d[0]];
      }
    }
  }

  lemma GoingEnds(text1: Text, tokens: seq<Text>, pointer: nat, diffs: seq<Edit>, whole: Outcome)
    requires Going(text1, tokens, |tokens|, pointer, diffs, whole)
    ensures whole == if pointer == |text1| then Read(diffs) else WrongLength
  {
    assert Seal(0);
    assert diffs + [] == diffs;
  }

  lemma PrependStep(d: seq<Edit>, e: Edit, o: Outcome)
    ensures PrependAll(d, Prepend(e, o)) == PrependAll(d + [e], o)
  {
    if o.Read? {
      assert d + ([e] + o.d) == d + [e] + o.d;
    }
  }

  /** `diff_fromDelta`. */
  method FromDelta(text1: Text, delta: Text) returns (r: Outcome)
    ensures r == Apply(text1, Split(delta), 0, 0)
    ensures r.Read? ==> Text1(r.d) == text1
  {
    ReadSpells(text1, Split(delta), 0, 0);
    var diffs: seq<Edit>, pointer: nat := [], 0;
    var tokens := Split(delta);
    ghost var whole := Apply(text1, tokens, 0, 0);
    GoingStarts(text1, tokens);
    for i := 0 to |tokens|
      invariant Going(text1, tokens, i, pointer, diffs, whole)
    {
      var token := tokens[i];
      GoingOn(text1, tokens, i, pointer, diffs, whole);
      if token == [] {
        continue;
      }
      var param := token[1..];
      if token[0] == PLUS {
        diffs := diffs + [Edit(Insert, Unquote(param))];
      } else if token[0] == MINUS || token[0] == EQUALS {
        var n := ParseInt(param);
        if n == None {
          return InvalidNumber;
        }
        if n.value < 0 {
          return NegativeNumber;
        }
        var text := Take(Drop(text1, pointer), n.value);
        pointer := pointer + n.value;
        if token[0] == EQUALS {
          diffs := diffs + [Edit(Equal, text)];
        } else {
          diffs := diffs + [Edit(Delete, text)];
        }
      } else {
        return InvalidOperation;
      }
    }
    GoingEnds(text1, tokens, pointer, diffs, whole);
    if pointer != |text1| {
      return WrongLength;
    }
    return Read(diffs);
  }

  lemma TokenIsPlain(e: Edit)
    requires Writable(e)
    ensures TAB !in Token(e) && Token(e) != []
  {
    ParseDecimal(|e.text|);
    if e.op == Insert {
      QuoteIsPlain(Encode(e.text));
    }
  }

  /** How far edit i is in the first text. */
  function Position(d: seq<Edit>, i: nat): nat
    requires i <= |d|
  {
    if i == 0 then 0 else Position(d, i - 1) + |Part(d[i - 1], Insert)|
  }

  lemma {:induction false} PositionIs(d: seq<Edit>, i: nat)
    requires i <= |d|
    ensures Position(d, i) == |Text1(d[..i])|
  {
    if i > 0 {
      PositionIs(d, i - 1);
      assert d[..i][..i - 1] == d[..i - 1];
    }
  }

  /** Deletions and equalities are found in the text where they belong. */
  ghost predicate Placed(d: seq<Edit>, text1: Text) {
    && Position(d, |d|) == |text1|
    && forall i: nat :: i < |d| && d[i].op != Insert ==> Take(Drop(text1, Position(d, i)), |d[i].text|) == d[i].text
  }

  lemma TextsArePlaced(d: seq<Edit>)
    ensures Placed(d, Text1(d))
  {
    PositionIs(d, |d|);
    assert d[..|d|] == d;
    forall i: nat | i < |d| && d[i].op != Insert
      ensures Take(Drop(Text1(d), Position(d, i)), |d[i].text|) == d[i].text
    {
      TextAt(d, i);
    }
  }

  function From(d: seq<Edit>, i: nat): seq<Edit>
    requires i <= |d|
    decreases |d| - i
  {
    if i == |d| then [] else [d[i]] + From(d, i + 1)
  }

  lemma {:induction false} FromIs(d: seq<Edit>, i: nat)
    requires i <= |d|
    ensures From(d, i) == d[i..]
    decreases |d| - i
  {
    if i < |d| {
      FromIs(d, i + 1);
    }
  }

  /** Token i is that of edit i, whose text is where it belongs. */
  ghost predicate ReadyAt(d: seq<Edit>, text1: Text, tokens: seq<Text>, i: nat)
    requires i < |d| == |tokens|
  {
    forall z: nat {:trigger Seal(z)} :: Seal(z) ==>
      && Writable(d[i]) && tokens[i] == Token(d[i])
      && (d[i].op != Insert ==> Take(Drop(text1, Position(d, i)), |d[i].text|) == d[i].text)
  }

  /** The tokens from i on give the edits from i on. */
  lemma {:induction false} ApplyTokens(d: seq<Edit>, text1: Text, tokens: seq<Text>, i: nat)
    requires i <= |d| == |tokens| && Position(d, |d|) == |text1|
    requires forall k: nat :: k < |d| ==> ReadyAt(d, text1, tokens, k)
    ensures Gives(text1, tokens, i, Position(d, i), From(d, i))
    decreases |d| - i
  {
    if i < |d| {
      ApplyTokens(d, text1, tokens, i + 1);
      ApplyToken(d, text1, tokens, i, From(d, i + 1));
    } else {
      GivesNothing(text1, tokens);
    }
  }

  lemma GivesNothing(text1: Text, tokens: seq<Text>)
    ensures Gives(text1, tokens, |tokens|, |text1|, [])
  {
  }

  ghost predicate Gives(text1: Text, tokens: seq<Text>, i: nat, p: nat, d: seq<Edit>)
    requires i <= |tokens|
  {
    forall z: nat {:trigger Seal(z)} :: Seal(z) ==> Apply(text1, tokens, i, p) == Read(d)
  }

  /** One token gives its edit. */
  lemma ApplyToken(d: seq<Edit>, text1: Text, tokens: seq<Text>, i: nat, rest: seq<Edit>)
    requires i < |d| == |tokens| && ReadyAt(d, text1, tokens, i)
    requires Gives(text1, tokens, i + 1, Position(d, i + 1), rest)
    ensures Gives(text1, tokens, i, Position(d, i), [d[i]] + rest)
  {
    assert Seal(0);
    ReadsBack(text1, Position(d, i), d[i]);
  }

  lemma ReadsBack(text1: Text, p: nat, e: Edit)
    requires Writable(e) && (e.op != Insert ==> Take(Drop(text1, p), |e.text|) == e.text)
    ensures Token(e) != [] && ReadToken(text1, Token(e), p) == Read([e]) && Moves(Token(e)) == |Part(e, Insert)|
  {
    TokenParts(e);
    if e.op == Insert {
      UnquoteUndoes(e.text);
    } else {
      ParseDecimal(|e.text|);
    }
  }

  lemma TokenParts(e: Edit)
    requires Writable(e)
    ensures Token(e)[1..] == if e.op == Insert then Quote(Encode(e.text)) else Decimal(|e.text|)
  {
  }

  /** A deletion or equality is found in the first text where it belongs. */
  lemma TextAt(d: seq<Edit>, i: nat)
    requires i < |d| && d[i].op != Insert
    ensures Take(Drop(Text1(d), Position(d, i)), |d[i].text|) == d[i].text
  {
    PositionIs(d, i);
    var a, c := Around(d, i);
    TextParts(a, d[i], c);
    InTheMiddle(Text1(a), d[i].text, Text1(c));
  }

  lemma Around(d: seq<Edit>, i: nat) returns (a: seq<Edit>, c: seq<Edit>)
    requires i < |d|
    ensures a == d[..i] && d == a + [d[i]] + c
  {
    a, c := d[..i], d[i + 1..];
  }

  lemma TextParts(a: seq<Edit>, e: Edit, c: seq<Edit>)
    ensures Text1(a + [e] + c) == Text1(a) + Part(e, Insert) + Text1(c)
  {
    SideConcat(a + [e], c, Insert);
    SideConcat(a, [e], Insert);
    assert [e][..0] == [];
  }

  lemma InTheMiddle(a: Text, b: Text, c: Text)
    ensures Take(Drop(a + b + c, |a|), |b|) == b
  {
    assert (a + b + c)[|a|..] == b + c;
  }

  /** Reading what was written gives the same edit list, for the first text that the list spells. */
  lemma DeltaRoundTrip(d: seq<Edit>)
    requires AllWritable(d)
    ensures Apply(Text1(d), Split(Join(Tokens(d))), 0, 0) == Read(d)
  {
    if d == [] {
      assert Split([]) == [[]];
      assert Text1([]) == [];
    } else {
      forall i | 0 <= i < |d|
        ensures TAB !in Tokens(d)[i]
      {
        TokenIsPlain(d[i]);
        TokenAt(d, i);
      }
      SplitJoin(Tokens(d));
      TextsArePlaced(d);
      forall k: nat | k < |d|
        ensures ReadyAt(d, Text1(d), Tokens(d), k)
      {
        TokenAt(d, k);
        assert Writable(d[k]);
      }
      ApplyTokens(d, Text1(d), Tokens(d), 0);
      FromIs(d, 0);
      assert Seal(0);
      assert d[0..] == d;
    }
  }
}

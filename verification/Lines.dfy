/** `diff_linesToChars` and `diff_charsToLines`: each distinct line is one character. */
module Lines {
  import opened Edits
  import opened Strings

  const NEWLINE: nat := 10

  /** A line has text and no newline but at its end. */
  ghost predicate IsLine(t: Text) {
    t != [] && forall i :: 0 <= i < |t| - 1 ==> t[i] != NEWLINE
  }

  ghost predicate Ended(t: Text) {
    t != [] && t[|t| - 1] == NEWLINE
  }

  /** Each number but the last stands for a line that ends with a newline. */
  ghost predicate AllEnded(chars: Text, lines: seq<Text>) {
    forall i {:trigger chars[i]} :: 0 <= i < |chars| - 1 ==> Ended(LineOf(chars[i], lines))
  }

  /** What a text of line numbers stands for. */
  function Decode(chars: Text, lines: seq<Text>): Text {
    if chars == [] then []
    else Decode(chars[..|chars| - 1], lines) + LineOf(chars[|chars| - 1], lines)
  }

  function LineOf(c: nat, lines: seq<Text>): Text {
    if c < |lines| then lines[c] else []
  }

  ghost predicate Coded(chars: Text, lines: seq<Text>) {
    forall i :: 0 <= i < |chars| ==> 0 < chars[i] < |lines|
  }

  lemma DecodeSnoc(chars: Text, c: nat, lines: seq<Text>)
    ensures Decode(chars + [c], lines) == Decode(chars, lines) + LineOf(c, lines)
  {
    assert (chars + [c])[..|chars|] == chars;
  }

  lemma {:induction false} DecodeConcat(a: Text, b: Text, lines: seq<Text>)
    ensures Decode(a + b, lines) == Decode(a, lines) + Decode(b, lines)
  {
    if b == [] {
      assert a + b == a;
    } else {
      var b', c := b[..|b| - 1], b[|b| - 1];
      Regrouped(a, b, b', c);
      DecodeSnoc(a + b', c, lines);
      DecodeConcat(a, b', lines);
      Grouping(Decode(a, lines), Decode(b', lines), LineOf(c, lines));
    }
  }

  lemma Regrouped(a: Text, b: Text, b': Text, c: nat)
    requires b != [] && b' == b[..|b| - 1] && c == b[|b| - 1]
    ensures a + b == (a + b') + [c]
  {}

  lemma Grouping(a: Text, b: Text, c: Text)
    ensures (a + b) + c == a + (b + c)
  {}

  lemma {:induction false} DecodeStable(chars: Text, lines: seq<Text>, more: seq<Text>)
    requires Coded(chars, lines)
    ensures Decode(chars, lines + more) == Decode(chars, lines) && Coded(chars, lines + more)
  {
    if chars != [] { DecodeStable(chars[..|chars| - 1], lines, more); }
  }

  lemma {:induction false} DecodeSome(chars: Text, lines: seq<Text>)
    requires Coded(chars, lines) && chars != [] && forall i :: 0 < i < |lines| ==> lines[i] != []
    ensures Decode(chars, lines) != []
  {
    assert LineOf(chars[|chars| - 1], lines) != [];
  }

  /** `lineArray` and `lineHash`, which grow while both texts are encoded. */
  class LineTable {
    var lines: seq<Text>
    var hash: map<Text, nat>

    constructor ()
      ensures Valid() && lines == [[]]
    {
      lines := [[]];
      hash := map[];
    }

    /** Number 0 is the blank junk entry; the others number distinct lines. */
    ghost predicate Valid()
      reads this
    {
      && 0 < |lines| && lines[0] == []
      && (forall i :: 0 < i < |lines| ==> IsLine(lines[i]) && lines[i] in hash && hash[lines[i]] == i)
      && (forall t :: t in hash ==> 0 < hash[t] < |lines| && lines[hash[t]] == t)
    }

    /** The number of a line, entered into the table when new. */
    method Number(line: Text) returns (c: nat)
      requires Valid() && IsLine(line)
      modifies this
      ensures Valid() && old(lines) <= lines && 0 < c < |lines| && lines[c] == line
    {
      if line in hash {
        c := hash[line];
      } else {
        lines := lines + [line];
        hash := hash[line := |lines| - 1];
        c := |lines| - 1;
      }
    }

    /** `diff_linesToCharsMunge`. */
    method Munge(text: Text) returns (chars: Text)
      requires Valid()
      modifies this
      ensures Valid() && old(lines) <= lines && Coded(chars, lines) && Decode(chars, lines) == text
      ensures AllEnded(chars, lines)
    {
      chars := [];
      var lineStart, lineEnd := 0, -1;
      while lineEnd < |text| - 1
        invariant Valid() && old(lines) <= lines && Coded(chars, lines)
        invariant lineStart == lineEnd + 1 <= |text| && Decode(chars, lines) == text[..lineStart]
        invariant AllEnded(chars, lines) && (lineStart < |text| && chars != [] ==> Ended(LineOf(chars[|chars| - 1], lines)))
        decreases |text| - lineStart
      {
        var line;
        ghost var (chars0, lines0) := (chars, lines);
        line, lineEnd := CutLine(text, lineStart);
        lineStart := lineEnd + 1;
        chars := AddLine(chars, line);
        OneMoreLine(chars0, lines0, chars, lines);
      }
      assert text[..|text|] == text;
    }

    method AddLine(chars: Text, line: Text) returns (longer: Text)
      requires Valid() && IsLine(line) && Coded(chars, lines)
      modifies this
      ensures Valid() && old(lines) <= lines && Coded(longer, lines)
      ensures Decode(longer, lines) == old(Decode(chars, lines)) + line
      ensures |longer| == |chars| + 1 && longer[..|chars|] == chars && LineOf(longer[|chars|], lines) == line
    {
      ghost var before := lines;
      var c := Number(line);
      DecodeGrown(chars, before, lines);
      DecodeSnoc(chars, c, lines);
      longer := chars + [c];
    }
  }

  lemma OneMoreLine(chars: Text, before: seq<Text>, longer: Text, lines: seq<Text>)
    requires Coded(chars, before) && before <= lines && |longer| == |chars| + 1 && longer[..|chars|] == chars
    requires AllEnded(chars, before) && (chars != [] ==> Ended(LineOf(chars[|chars| - 1], before)))
    ensures AllEnded(longer, lines)
  {
    forall i | 0 <= i < |longer| - 1 ensures Ended(LineOf(longer[i], lines)) {
      assert longer[i] == longer[..|chars|][i] == chars[i];
      assert LineOf(chars[i], lines) == LineOf(chars[i], before);
    }
  }

  // ---------------------------------------------------------------------------
  // There is one way to cut a text into lines

  function Joined(ls: seq<Text>): Text {
    if ls == [] then [] else ls[0] + Joined(ls[1..])
  }

  /** All are lines, and all but the last end with a newline. */
  ghost predicate Cut(ls: seq<Text>) {
    forall i {:trigger ls[i]} :: 0 <= i < |ls| ==> IsLine(ls[i]) && (i < |ls| - 1 ==> Ended(ls[i]))
  }

  lemma CutRest(ls: seq<Text>)
    requires Cut(ls) && ls != []
    ensures Cut(ls[1..])
  {
    forall i | 0 <= i < |ls| - 1 ensures IsLine(ls[1..][i]) && (i < |ls| - 2 ==> Ended(ls[1..][i])) {
      assert ls[1..][i] == ls[i + 1];
    }
  }

  /** The lines of a text are determined by it. */
  lemma {:induction false} OneCut(ls: seq<Text>, ms: seq<Text>)
    requires Cut(ls) && Cut(ms) && Joined(ls) == Joined(ms)
    ensures ls == ms
    decreases |ls|
  {
    if ls != [] && ms != [] {
      FirstLine(ls, ms);
      FirstLine(ms, ls);
      var n, t := |ls[0]|, Joined(ls);
      assert t[..n] == ls[0] && t[n..] == Joined(ls[1..]) && t[..n] == ms[0] && t[n..] == Joined(ms[1..]);
      CutRest(ls);
      CutRest(ms);
      OneCut(ls[1..], ms[1..]);
      assert ls == [ls[0]] + ls[1..] && ms == [ms[0]] + ms[1..];
    }
  }

  lemma FirstLine(ls: seq<Text>, ms: seq<Text>)
    requires Cut(ls) && Cut(ms) && Joined(ls) == Joined(ms) && ls != [] && ms != []
    ensures |ls[0]| >= |ms[0]|
  {
    var n, t := |ls[0]|, Joined(ls);
    assert t[n - 1] == ls[0][n - 1] && (n <= |ms[0]| ==> t[n - 1] == ms[0][n - 1]);
    assert |ls| == 1 ==> |t| == n;
    assert IsLine(ms[0]) && (|ls| > 1 ==> Ended(ls[0]));
  }

  lemma DecodeGrown(chars: Text, before: seq<Text>, lines: seq<Text>)
    requires Coded(chars, before) && before <= lines
    ensures Decode(chars, lines) == Decode(chars, before) && Coded(chars, lines)
  {
    assert lines == before + lines[|before|..];
    DecodeStable(chars, before, lines[|before|..]);
  }

  lemma EndedGrown(chars: Text, before: seq<Text>, lines: seq<Text>)
    requires Coded(chars, before) && before <= lines && AllEnded(chars, before)
    ensures AllEnded(chars, lines)
  {
    forall i | 0 <= i < |chars| - 1 ensures Ended(LineOf(chars[i], lines)) {
      assert LineOf(chars[i], lines) == LineOf(chars[i], before);
    }
  }

  /** The line that starts at an index, and the index of its last character. */
  method CutLine(text: Text, start: nat) returns (line: Text, end: int)
    requires start < |text|
    ensures start <= end < |text| && IsLine(line) && text[..end + 1] == text[..start] + line
    ensures end == |text| - 1 || Ended(line)
  {
    end := Find(text, [NEWLINE], start);
    NextLine(text, start, end);
    if end == -1 { end := |text| - 1; }
    line := text[start..end + 1];
  }

  lemma NextLine(text: Text, start: nat, found: int)
    requires start < |text| && found == Find(text, [NEWLINE], start)
    ensures var end := if found == -1 then |text| - 1 else found;
            && start <= end < |text| && IsLine(text[start..end + 1]) && text[..end + 1] == text[..start] + text[start..end + 1]
            && (end == |text| - 1 || Ended(text[start..end + 1]))
  {
    var end := if found == -1 then |text| - 1 else found;
    if found != -1 { assert text[found..found + 1] == [text[found]]; }
    assert found != -1 ==> OccursAt([NEWLINE], text, found);
    var line := text[start..end + 1];
    forall i | 0 <= i < |line| - 1 ensures line[i] != NEWLINE {
      assert text[start + i..start + i + 1] == [text[start + i]];
      assert !OccursAt([NEWLINE], text, start + i);
    }
  }

  /** Every edit with its text decoded. */
  ghost function Hydrated(d: seq<Edit>, lines: seq<Text>): seq<Edit> {
    if d == [] then [] else Hydrated(d[..|d| - 1], lines) + [Edit(d[|d| - 1].op, Decode(d[|d| - 1].text, lines))]
  }

  /** A list of coded texts decodes to a list that spells the decoded texts. */
  lemma {:induction false} HydratedTexts(d: seq<Edit>, lines: seq<Text>)
    ensures |Hydrated(d, lines)| == |d|
    ensures Text1(Hydrated(d, lines)) == Decode(Text1(d), lines) && Text2(Hydrated(d, lines)) == Decode(Text2(d), lines)
  {
    if d != [] {
      var init, e := d[..|d| - 1], d[|d| - 1];
      assert d == init + [e];
      HydratedTexts(init, lines);
      HydratedOne(init, e, lines, Insert);
      HydratedOne(init, e, lines, Delete);
    }
  }

  lemma HydratedOne(init: seq<Edit>, e: Edit, lines: seq<Text>, skip: Op)
    requires Side(Hydrated(init, lines), skip) == Decode(Side(init, skip), lines)
    ensures Side(Hydrated(init, lines) + [Edit(e.op, Decode(e.text, lines))], skip) == Decode(Side(init + [e], skip), lines)
  {
    SideSnoc(Hydrated(init, lines), Edit(e.op, Decode(e.text, lines)), skip);
    SideSnoc(init, e, skip);
    DecodeConcat(Side(init, skip), Part(e, skip), lines);
  }

  /** Every text of the list is coded. */
  ghost predicate AllCoded(d: seq<Edit>, lines: seq<Text>) {
    forall i :: 0 <= i < |d| ==> Coded(d[i].text, lines)
  }

  lemma {:induction false} SpelledCoded(d: seq<Edit>, lines: seq<Text>)
    requires Coded(Text1(d), lines) && Coded(Text2(d), lines)
    ensures AllCoded(d, lines)
  {
    if d != [] {
      var init, e := d[..|d| - 1], d[|d| - 1];
      assert d == init + [e];
      TextsSnoc(init, e);
      CodedParts(Text1(init), Part(e, Insert), lines);
      CodedParts(Text2(init), Part(e, Delete), lines);
      SpelledCoded(init, lines);
    }
  }

  lemma CodedParts(a: Text, b: Text, lines: seq<Text>)
    requires Coded(a + b, lines)
    ensures Coded(a, lines) && Coded(b, lines)
  {
    assert forall i :: 0 <= i < |a| ==> (a + b)[i] == a[i];
    assert forall i :: 0 <= i < |b| ==> (a + b)[|a| + i] == b[i];
  }

  lemma {:induction false} HydratedSolid(d: seq<Edit>, lines: seq<Text>)
    requires Solid(d) && AllCoded(d, lines) && forall i :: 0 < i < |lines| ==> lines[i] != []
    ensures Solid(Hydrated(d, lines))
  {
    if d != [] {
      var init, e := d[..|d| - 1], d[|d| - 1];
      HydratedSolid(init, lines);
      if e.op == Equal { DecodeSome(e.text, lines); }
    }
  }

  method DecodeText(chars: Text, lines: seq<Text>) returns (text: Text)
    requires Coded(chars, lines)
    ensures text == Decode(chars, lines)
  {
    text := [];
    var i := 0;
    while i < |chars|
      invariant 0 <= i <= |chars| && text == Decode(chars[..i], lines)
    {
      assert chars[..i + 1][..i] == chars[..i];
      text := text + lines[chars[i]];
      i := i + 1;
    }
    assert chars[..i] == chars;
  }

  /** `diff_charsToLines`. */
  method CharsToLines(diffs: EditList, lines: seq<Text>)
    requires AllCoded(diffs.d, lines)
    modifies diffs
    ensures diffs.d == Hydrated(old(diffs.d), lines)
  {
    ghost var d := diffs.d;
    var x := 0;
    assert d[x..] == d;
    while x < |diffs.d|
      invariant 0 <= x <= |d| && diffs.d == Hydrated(d[..x], lines) + d[x..] && |Hydrated(d[..x], lines)| == x
    {
      HydrateNext(d, lines, x);
      var text := DecodeText(diffs.d[x].text, lines);
      diffs.d := diffs.d[x := Edit(diffs.d[x].op, text)];
      x := x + 1;
    }
    assert d[..x] == d;
  }

  lemma HydrateNext(d: seq<Edit>, lines: seq<Text>, x: nat)
    requires x < |d| && |Hydrated(d[..x], lines)| == x
    ensures var h := Hydrated(d[..x], lines);
            (h + d[x..])[x := Edit(d[x].op, Decode(d[x].text, lines))] == Hydrated(d[..x + 1], lines) + d[x + 1..]
    ensures (Hydrated(d[..x], lines) + d[x..])[x] == d[x] && |Hydrated(d[..x + 1], lines)| == x + 1
  {
    assert d[..x + 1][..x] == d[..x] && d[x..] == [d[x]] + d[x + 1..];
  }
}

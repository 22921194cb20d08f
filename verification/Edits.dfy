/** Edit lists of diff_match_patch.py: what they spell, and their measures. */
module Edits {

  /** A text is a sequence of code points. */
  type Text = seq<nat>

  datatype Op = Delete | Insert | Equal

  /** One tuple of a diff. */
  datatype Edit = Edit(op: Op, text: Text)

  /** A Python list of tuples, edited in place. */
  class EditList {
    var d: seq<Edit>

    constructor (d: seq<Edit>)
      ensures this.d == d
    {
      this.d := d;
    }
  }

  /** The text spelled by an edit list when the edits of one kind are skipped. */
  function Side(d: seq<Edit>, skip: Op): Text {
    if d == [] then [] else Side(d[..|d| - 1], skip) + Part(d[|d| - 1], skip)
  }

  function Part(e: Edit, skip: Op): Text {
    if e.op == skip then [] else e.text
  }

  /** `diff_text1`: all equalities and deletions. */
  function Text1(d: seq<Edit>): Text {
    Side(d, Insert)
  }

  /** `diff_text2`: all equalities and insertions. */
  function Text2(d: seq<Edit>): Text {
    Side(d, Delete)
  }

  ghost predicate SameTexts(d: seq<Edit>, e: seq<Edit>) {
    Text1(d) == Text1(e) && Text2(d) == Text2(e)
  }

  ghost predicate Spells(d: seq<Edit>, a: Text, b: Text) {
    Text1(d) == a && Text2(d) == b
  }

  lemma {:induction false} SideConcat(d: seq<Edit>, e: seq<Edit>, skip: Op)
    ensures Side(d + e, skip) == Side(d, skip) + Side(e, skip)
  {
    if e == [] {
      assert d + e == d;
    } else {
      var e' := e[..|e| - 1];
      assert (d + e)[..|d + e| - 1] == d + e';
      SideConcat(d, e', skip);
    }
  }

  lemma TextsConcat(d: seq<Edit>, e: seq<Edit>)
    ensures Text1(d + e) == Text1(d) + Text1(e) && Text2(d + e) == Text2(d) + Text2(e)
  {
    SideConcat(d, e, Insert);
    SideConcat(d, e, Delete);
  }

  lemma TextsConcat3(a: seq<Edit>, b: seq<Edit>, c: seq<Edit>)
    ensures Text1(a + b + c) == Text1(a) + Text1(b) + Text1(c)
    ensures Text2(a + b + c) == Text2(a) + Text2(b) + Text2(c)
  {
    TextsConcat(a + b, c);
    TextsConcat(a, b);
  }

  lemma SideSnoc(d: seq<Edit>, e: Edit, skip: Op)
    ensures Side(d + [e], skip) == Side(d, skip) + Part(e, skip)
  {
    assert (d + [e])[..|d|] == d;
  }

  lemma TextsSnoc(d: seq<Edit>, e: Edit)
    ensures Text1(d + [e]) == Text1(d) + Part(e, Insert) && Text2(d + [e]) == Text2(d) + Part(e, Delete)
  {
    SideSnoc(d, e, Insert);
    SideSnoc(d, e, Delete);
  }

  lemma TextsOf1(e: Edit)
    ensures Text1([e]) == Part(e, Insert) && Text2([e]) == Part(e, Delete)
  {
    TextsSnoc([], e);
    assert [] + [e] == [e];
  }

  lemma TextsOf2(e: Edit, f: Edit)
    ensures Text1([e, f]) == Part(e, Insert) + Part(f, Insert)
    ensures Text2([e, f]) == Part(e, Delete) + Part(f, Delete)
  {
    TextsOf1(e);
    TextsSnoc([e], f);
    assert [e] + [f] == [e, f];
  }

  lemma TextsOf3(e: Edit, f: Edit, h: Edit)
    ensures Text1([e, f, h]) == Part(e, Insert) + Part(f, Insert) + Part(h, Insert)
    ensures Text2([e, f, h]) == Part(e, Delete) + Part(f, Delete) + Part(h, Delete)
  {
    TextsOf2(e, f);
    TextsSnoc([e, f], h);
    assert [e, f] + [h] == [e, f, h];
  }

  /** No equality has empty text. */
  ghost predicate Solid(d: seq<Edit>) {
    forall i :: 0 <= i < |d| && d[i].op == Equal ==> d[i].text != []
  }

  /** Total length of the deleted and inserted texts. */
  function Edited(d: seq<Edit>): nat {
    if d == [] then 0 else Edited(d[..|d| - 1]) + Changed(d[|d| - 1])
  }

  function Changed(e: Edit): nat {
    if e.op == Equal then 0 else |e.text|
  }

  lemma {:induction false} EditedConcat(d: seq<Edit>, e: seq<Edit>)
    ensures Edited(d + e) == Edited(d) + Edited(e)
  {
    if e == [] {
      assert d + e == d;
    } else {
      assert (d + e)[..|d + e| - 1] == d + e[..|e| - 1];
      EditedConcat(d, e[..|e| - 1]);
    }
  }

  lemma EditedSnoc(d: seq<Edit>, e: Edit)
    ensures Edited(d + [e]) == Edited(d) + Changed(e)
  {
    assert (d + [e])[..|d|] == d;
  }

  lemma EditedOf1(e: Edit)
    ensures Edited([e]) == Changed(e)
  {
    assert [e][..0] == [];
  }

  lemma EditedOf2(e: Edit, f: Edit)
    ensures Edited([e, f]) == Changed(e) + Changed(f)
  {
    EditedOf1(e);
    assert [e, f][..1] == [e];
  }

  lemma EditedOf3(e: Edit, f: Edit, h: Edit)
    ensures Edited([e, f, h]) == Changed(e) + Changed(f) + Changed(h)
  {
    EditedOf2(e, f);
    assert [e, f, h][..2] == [e, f];
  }

  lemma EditedConcat3(a: seq<Edit>, b: seq<Edit>, c: seq<Edit>)
    ensures Edited(a + b + c) == Edited(a) + Edited(b) + Edited(c)
  {
    EditedConcat(a + b, c);
    EditedConcat(a, b);
  }

  /** For a list of edits without equalities, the edited length is that of the two texts. */
  lemma {:induction false} EditedOfEdits(d: seq<Edit>)
    requires forall i :: 0 <= i < |d| ==> d[i].op != Equal
    ensures Edited(d) == |Text1(d)| + |Text2(d)|
  {
    if d != [] { EditedOfEdits(d[..|d| - 1]); }
  }

  /** No list changes more characters than its texts have. */
  lemma {:induction false} EditedBound(d: seq<Edit>)
    ensures Edited(d) <= |Text1(d)| + |Text2(d)|
  {
    if d != [] { EditedBound(d[..|d| - 1]); }
  }

  /** The number of equalities. */
  function Equalities(d: seq<Edit>): nat {
    if d == [] then 0 else Equalities(d[..|d| - 1]) + if d[|d| - 1].op == Equal then 1 else 0
  }

  lemma {:induction false} EqualitiesConcat(d: seq<Edit>, e: seq<Edit>)
    ensures Equalities(d + e) == Equalities(d) + Equalities(e)
  {
    if e == [] {
      assert d + e == d;
    } else {
      assert (d + e)[..|d + e| - 1] == d + e[..|e| - 1];
      EqualitiesConcat(d, e[..|e| - 1]);
    }
  }
}

/** `_merge` in gosubl/gspatch.py: brings a buffer to a text by editing it in place. */
module Patch {
  import opened Edits
  import opened Strings
  import Cleanups
  import Diff

  /** The editor's buffer. Regions are clamped to it. */
  class View {
    var text: Text

    function Substr(start: nat, end: nat): Text
      reads this
    {
      Take(Drop(text, start), if end >= start then end - start else 0)
    }

    method Insert(at: nat, s: Text)
      requires at <= |text|
      modifies this
      ensures text == old(text)[..at] + s + old(text)[at..]
    {
      text := text[..at] + s + text[at..];
    }

    method Erase(start: nat, end: nat)
      requires start <= end <= |text|
      modifies this
      ensures text == old(text)[..start] + old(text)[end..]
    {
      text := text[..start] + text[end..];
    }
  }

  /** The first text of a list is a prefix of the buffer, so every match and deletion meets its text. */
  ghost predicate Fits(d: seq<Edit>, buffer: Text) {
    |Text1(d)| <= |buffer| && buffer[..|Text1(d)|] == Text1(d)
  }

  /** What the edits make of a buffer that fits: the second text, then the untouched rest. */
  ghost function Applied(d: seq<Edit>, buffer: Text): Text
    requires Fits(d, buffer)
  {
    Text2(d) + buffer[|Text1(d)|..]
  }

  lemma {:induction false} FitsPrefix(d: seq<Edit>, k: nat, buffer: Text)
    requires k <= |d| && Fits(d, buffer)
    ensures Fits(d[..k], buffer)
  {
    assert d == d[..k] + d[k..];
    TextsConcat(d[..k], d[k..]);
    assert Text1(d)[..|Text1(d[..k])|] == Text1(d[..k]);
    assert buffer[..|Text1(d)|][..|Text1(d[..k])|] == buffer[..|Text1(d[..k])|];
  }

  /** One more edit: it fits exactly if its text comes next in the buffer, or if it is an insertion. */
  lemma FitsNext(d: seq<Edit>, e: Edit, buffer: Text)
    requires Fits(d, buffer)
    ensures var i, rest := |Text2(d)|, buffer[|Text1(d)|..];
            && (Fits(d + [e], buffer) <==> e.op == Op.Insert || Take(rest, |e.text|) == e.text)
            && Drop(Applied(d, buffer), i) == rest && Applied(d, buffer)[..i] == Text2(d)
            && (Fits(d + [e], buffer) ==>
                  Applied(d + [e], buffer) ==
                  Text2(d) + Part(e, Op.Delete) + (if e.op == Op.Insert then rest else rest[|e.text|..]))
  {
    TextsSnoc(d, e);
    var n, rest := |Text1(d)|, buffer[|Text1(d)|..];
    if e.op != Op.Insert {
      PrefixNext(buffer, Text1(d), e.text);
    }
  }

  lemma PrefixNext(buffer: Text, a: Text, s: Text)
    requires |a| <= |buffer| && buffer[..|a|] == a
    ensures var rest := buffer[|a|..];
            && ((|a + s| <= |buffer| && buffer[..|a + s|] == a + s) <==> Take(rest, |s|) == s)
            && (|a + s| <= |buffer| ==> buffer[|a + s|..] == rest[|s|..])
  {
    var rest := buffer[|a|..];
    assert buffer == a + rest;
    if |a + s| <= |buffer| {
      assert buffer[..|a + s|] == a + rest[..|s|];
      assert (a + s)[|a|..] == s && (a + rest[..|s|])[|a|..] == rest[..|s|];
    }
  }

  /** One edit at index i of the buffer. */
  method MergeEdit(view: View, e: Edit, i: nat, ghost d: seq<Edit>, ghost buffer: Text) returns (mismatch: bool, next: nat)
    requires Fits(d, buffer) && view.text == Applied(d, buffer) && i == |Text2(d)|
    modifies view
    ensures !mismatch <==> Fits(d + [e], buffer)
    ensures !mismatch ==> view.text == Applied(d + [e], buffer) && next == |Text2(d + [e])|
    ensures e.op == Equal || mismatch ==> view.text == old(view.text)
  {
    mismatch, next := false, i;
    var s := e.text;
    FitsNext(d, e, buffer);
    TextsSnoc(d, e);
    if e.op == Equal {
      if view.Substr(i, i + |s|) != s { return true, i; }
      ReadOn(Text2(d), s, buffer[|Text1(d)|..]);
      next := i + |s|;
    } else if e.op == Op.Insert {
      view.Insert(i, s);
      next := i + |s|;
    } else {
      if view.Substr(i, i + |s|) != s { return true, i; }
      EraseNext(Text2(d), s, buffer[|Text1(d)|..]);
      view.Erase(i, i + |s|);
    }
  }

  lemma ReadOn(head: Text, s: Text, rest: Text)
    requires Take(rest, |s|) == s
    ensures |s| <= |rest| && head + s + rest[|s|..] == head + rest
  {
    assert rest == s + rest[|s|..];
  }

  lemma EraseNext(head: Text, s: Text, rest: Text)
    requires Take(rest, |s|) == s
    ensures |s| <= |rest| && (head + rest)[..|head|] + (head + rest)[|head| + |s|..] == head + [] + rest[|s|..]
  {}

  /** The loop hits a mismatch exactly if the list's first text is not a prefix of the buffer; else it
      leaves the second text followed by the untouched tail. */
  method MergeEdits(view: View, diffs: seq<Edit>) returns (mismatch: bool, dirty: bool)
    modifies view
    ensures !mismatch <==> Fits(diffs, old(view.text))
    ensures !mismatch ==> view.text == Applied(diffs, old(view.text))
    ensures !mismatch ==> (dirty <==> exists k :: 0 <= k < |diffs| && diffs[k].op != Equal)
    ensures !dirty ==> view.text == old(view.text)
  {
    ghost var buffer := view.text;
    mismatch, dirty := false, false;
    var i: nat, k := 0, 0;
    while k < |diffs|
      invariant 0 <= k <= |diffs| && Fits(diffs[..k], buffer)
      invariant view.text == Applied(diffs[..k], buffer) && i == |Text2(diffs[..k])|
      invariant dirty <==> exists j :: 0 <= j < k && diffs[j].op != Equal
      invariant !dirty ==> view.text == buffer
    {
      assert diffs[..k] + [diffs[k]] == diffs[..k + 1];
      dirty := dirty || diffs[k].op != Equal;
      mismatch, i := MergeEdit(view, diffs[k], i, diffs[..k], buffer);
      if mismatch {
        if Fits(diffs, buffer) { FitsPrefix(diffs, k + 1, buffer); }
        return;
      }
      k := k + 1;
    }
    assert diffs[..k] == diffs;
  }

  /** `_merge`: the first size characters of the buffer become the text, whatever they were and whenever the
      deadline fires, unless line mode, which is for long texts, returned a list with an empty equality. */
  method Merge(view: View, size: nat, text: Text, dmp: Diff.DiffMatchPatch, editCost: int)
      returns (mismatch: bool, dirty: bool, ghost log: Diff.Log)
    modifies view, dmp.clock
    ensures Diff.Small(Take(old(view.text), size), text) ==> log.AllSolid()
    ensures log.AllSolid() ==> !mismatch && view.text == text + Drop(old(view.text), size)
    ensures !dirty ==> view.text == old(view.text)
  {
    ghost var buffer := view.text;
    var origin := view.Substr(0, size);
    BufferCut(buffer, size);
    var diffs;
    diffs, log := dmp.DiffMain(origin, text, true);
    ghost var cleaned := Cleanups.CleanupEfficiency(diffs, editCost);
    mismatch, dirty := MergeEdits(view, diffs.d);
  }

  lemma BufferCut(buffer: Text, size: nat)
    ensures Take(Drop(buffer, 0), size) == Take(buffer, size)
    ensures var n := |Take(buffer, size)|;
            n <= |buffer| && buffer[..n] == Take(buffer, size) && buffer[n..] == Drop(buffer, size)
  {}
}

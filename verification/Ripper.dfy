/** Ripping the declaration around the cursor off a file (gocode/ripper.go). Scanning is not part of
    this model: tokens are given. */
module Ripper {
  import opened Types

  datatype Kind = LBrace | RBrace | Semicolon | Other

  datatype Token = Token(kind: Kind, offset: nat)

  /** Tokens come in the order of the text, and braces are characters of it. */
  ghost predicate Scanned(ts: seq<Token>, size: nat) {
    && (forall i, j :: 0 <= i <= j < |ts| ==> ts[i].offset <= ts[j].offset)
    && (forall i :: 0 <= i < |ts| && ts[i].kind in {LBrace, RBrace} ==> ts[i].offset < size)
  }

  // ---------------------------------------------------------------------------
  // Braces

  function Step(t: Token): int {
    if t.kind == LBrace then 1 else if t.kind == RBrace then -1 else 0
  }

  /** Open braces minus closed ones in the first n tokens. */
  function Depth(ts: seq<Token>, n: nat): int
    requires n <= |ts|
  {
    if n == 0 then 0 else Depth(ts, n - 1) + Step(ts[n - 1])
  }

  ghost predicate Balanced(ts: seq<Token>) {
    Depth(ts, |ts|) == 0 && forall k: nat :: k <= |ts| ==> Depth(ts, k) >= 0
  }

  /** Brace l is open after token n - 1. */
  ghost predicate OpenAt(ts: seq<Token>, l: nat, n: nat)
    requires n <= |ts|
  {
    l < n && ts[l].kind == LBrace && forall k: nat :: l < k <= n ==> Depth(ts, k) > Depth(ts, l)
  }

  /** Brace e closes brace l. */
  ghost predicate Matches(ts: seq<Token>, l: nat, e: nat) {
    && e < |ts| && OpenAt(ts, l, e) && ts[e].kind == RBrace && Depth(ts, e + 1) == Depth(ts, l)
  }

  // ---------------------------------------------------------------------------
  // What the scans look for

  /** The last of the shallowest places up to token pos; it is less deep than what follows pos. */
  ghost predicate Shallowest(ts: seq<Token>, pos: nat, l: nat)
    requires pos < |ts|
  {
    && l <= pos && Depth(ts, l) < Depth(ts, pos + 1)
    && (forall k: nat :: k <= pos ==> Depth(ts, l) <= Depth(ts, k))
    && (forall k: nat :: l < k <= pos ==> Depth(ts, l) < Depth(ts, k))
  }

  predicate Separator(ts: seq<Token>, l: nat, i: nat)
    requires l < |ts| && i < |ts|
  {
    ts[i].kind == Semicolon && Depth(ts, i) == Depth(ts, l)
  }

  /** The last semicolon of the same depth before l, or l itself without one. */
  ghost predicate DeclStart(ts: seq<Token>, l: nat, s: nat)
    requires l < |ts|
  {
    && s <= l && (s < l ==> Separator(ts, l, s))
    && (forall i: nat :: i < l && (s < i || s == l) ==> !Separator(ts, l, i))
  }

  /** The first of the shallowest places after the tokens from `from` on. */
  ghost predicate DeclEnd(ts: seq<Token>, from: nat, e: nat)
    requires from <= |ts|
  {
    && from <= e < |ts| && Depth(ts, e + 1) < Depth(ts, from)
    && (forall k: nat :: from < k <= |ts| ==> Depth(ts, e + 1) <= Depth(ts, k))
    && (forall k: nat :: from < k <= e ==> Depth(ts, e + 1) < Depth(ts, k))
  }

  /** The token at the cursor: the last one that starts before it, or the first token. */
  ghost predicate CursorToken(ts: seq<Token>, cursor: int, pos: nat) {
    && pos < |ts|
    && (pos > 0 ==> ts[pos].offset < cursor)
    && (pos + 1 < |ts| && (pos > 0 || ts[0].offset < cursor) ==> cursor <= ts[pos + 1].offset)
  }

  /** The scan to the right starts behind an open brace. */
  function From(ts: seq<Token>, pos: nat): nat
    requires pos < |ts|
  {
    if ts[pos].kind == LBrace then pos + 1 else pos
  }

  /** What is cut out for the token at the cursor. */
  ghost predicate Cut(ts: seq<Token>, pos: nat, beg: int, end: int)
    requires pos < |ts|
  {
    && (if exists l: nat :: Shallowest(ts, pos, l) then
          exists l: nat, s: nat :: Shallowest(ts, pos, l) && DeclStart(ts, l, s) && beg == ts[s].offset
        else beg == -1)
    && (if exists e: nat :: DeclEnd(ts, From(ts, pos), e) then
          exists e: nat :: DeclEnd(ts, From(ts, pos), e) && end == ts[e].offset
        else end == -1)
  }

  class TokCollection {
    var tokens: seq<Token>

    /** `find_decl_beg`. */
    method FindDeclBeg(pos: nat) returns (lowpos: int)
      requires pos < |tokens|
      ensures if exists l: nat :: Shallowest(tokens, pos, l) then
                exists l: nat, s: nat :: Shallowest(tokens, pos, l) && DeclStart(tokens, l, s) && lowpos == tokens[s].offset
              else lowpos == -1
    {
      var lowest, lowi, cur := 0, -1, 0;
      lowpos := -1;
      var i: int := pos;
      while i >= 0
        invariant -1 <= i <= pos && cur == Depth(tokens, i + 1) - Depth(tokens, pos + 1)
        invariant forall k: nat :: i < k <= pos ==> lowest <= Depth(tokens, k) - Depth(tokens, pos + 1)
        invariant lowi == -1 ==> lowest == 0 && lowpos == -1
        invariant lowi != -1 ==> i < lowi <= pos && lowest == Depth(tokens, lowi) - Depth(tokens, pos + 1) < 0
        invariant lowi != -1 ==> lowpos == tokens[lowi].offset && forall k: nat :: lowi < k <= pos ==> Depth(tokens, lowi) < Depth(tokens, k)
      {
        var t := tokens[i];
        if t.kind == RBrace {
          cur := cur + 1;
        } else if t.kind == LBrace {
          cur := cur - 1;
        }
        if cur < lowest {
          lowest, lowpos, lowi := cur, t.offset, i;
        }
        i := i - 1;
      }
      if lowi == -1 {
        return;
      }
      assert Shallowest(tokens, pos, lowi);
      ghost var s := lowi;
      cur := lowest;
      i := lowi - 1;
      while i >= 0
        invariant -1 <= i < lowi && cur == lowest + Depth(tokens, i + 1) - Depth(tokens, lowi)
        invariant s == lowi && lowpos == tokens[s].offset
        invariant forall k: nat :: i < k < lowi ==> !Separator(tokens, lowi, k)
      {
        var t := tokens[i];
        if t.kind == RBrace {
          cur := cur + 1;
        } else if t.kind == LBrace {
          cur := cur - 1;
        }
        if t.kind == Semicolon && cur == lowest {
          lowpos := t.offset;
          s := i;
          break;
        }
        i := i - 1;
      }
      assert DeclStart(tokens, lowi, s);
    }

    /** `find_decl_end`. */
    method FindDeclEnd(pos: nat) returns (highpos: int)
      requires pos < |tokens|
      ensures if exists e: nat :: DeclEnd(tokens, From(tokens, pos), e) then
                exists e: nat :: DeclEnd(tokens, From(tokens, pos), e) && highpos == tokens[e].offset
              else highpos == -1
    {
      var highest, cur := 0, 0;
      highpos := -1;
      var start := pos;
      if tokens[pos].kind == LBrace {
        start := pos + 1;
      }
      ghost var e := -1;
      for i := start to |tokens|
        invariant cur == Depth(tokens, start) - Depth(tokens, i)
        invariant forall k: nat :: start < k <= i ==> Depth(tokens, start) - Depth(tokens, k) <= highest
        invariant e == -1 ==> highest == 0 && highpos == -1
        invariant e != -1 ==> start <= e < i && highest == Depth(tokens, start) - Depth(tokens, e + 1) > 0
        invariant e != -1 ==> highpos == tokens[e].offset && forall k: nat :: start < k <= e ==> Depth(tokens, e + 1) < Depth(tokens, k)
      {
        var t := tokens[i];
        if t.kind == RBrace {
          cur := cur + 1;
        } else if t.kind == LBrace {
          cur := cur - 1;
        }
        if cur > highest {
          highest, highpos := cur, t.offset;
          e := i;
        }
      }
      if e != -1 {
        assert DeclEnd(tokens, From(tokens, pos), e);
      }
    }

    /** `find_outermost_scope`. */
    method FindOutermostScope(cursor: int) returns (beg: int, end: int, ghost pos: nat)
      requires tokens != []
      ensures CursorToken(tokens, cursor, pos) && Cut(tokens, pos, beg, end)
    {
      var at := 0;
      var i := 0;
      while i < |tokens|
        invariant 0 <= i <= |tokens| && at == (if i == 0 then 0 else i - 1)
        invariant i > 0 ==> tokens[at].offset < cursor
      {
        if cursor <= tokens[i].offset {
          break;
        }
        at := i;
        i := i + 1;
      }
      pos := at;
      beg := FindDeclBeg(at);
      end := FindDeclEnd(at);
    }

    /** `rip_off_decl`, with the tokens that the scanner delivers. It panics exactly on a file without
        tokens, as the scans look at the first one. */
    method RipOffDecl(scan: seq<Token>, file: array<bv8>, cursor: int)
      returns (panics: bool, cursor': int, file': array<bv8>, ripped: array?<bv8>, ghost pos: nat, ghost beg: int, ghost end: int)
      requires tokens == [] && Scanned(scan, file.Length)
      modifies this
      ensures tokens == scan && (panics <==> scan == [])
      ensures !panics ==> CursorToken(scan, cursor, pos) && Cut(scan, pos, beg, end)
      ensures !panics ==> (ripped == null <==> beg == -1 || end == -1)
      ensures ripped == null ==> file' == file && cursor' == cursor
      ensures ripped != null ==> 0 <= beg <= end < file.Length && ripped[..] == file[beg..end + 1]
      ensures ripped != null ==> beg <= file'.Length && file'[..beg] + ripped[..] + file'[beg..] == file[..]
      ensures ripped != null ==> cursor' == cursor - beg
    {
      for i := 0 to |scan|
        invariant tokens == scan[..i]
      {
        tokens := tokens + [scan[i]];
      }
      assert scan[..|scan|] == scan;
      panics, cursor', file', ripped := tokens == [], cursor, file, null;
      pos, beg, end := 0, -1, -1;
      if panics {
        return;
      }
      var b, e;
      b, e, pos := FindOutermostScope(cursor);
      beg, end := b, e;
      if b == -1 || e == -1 {
        return;
      }
      CutInOrder(scan, file.Length, pos, b, e);
      cursor' := cursor - b;
      file', ripped := Split(file, b, e);
    }

    /** The bytes b to e, and the others. */
    static method Split(file: array<bv8>, b: nat, e: nat) returns (file': array<bv8>, ripped: array<bv8>)
      requires b <= e < file.Length
      ensures ripped[..] == file[b..e + 1]
      ensures b <= file'.Length && file'[..b] + ripped[..] + file'[b..] == file[..]
    {
      ripped := new bv8[e + 1 - b];
      forall i | 0 <= i < ripped.Length {
        ripped[i] := file[b + i];
      }
      file' := new bv8[file.Length - ripped.Length];
      forall i | 0 <= i < file'.Length {
        file'[i] := if i < b then file[i] else file[e + 1 + (i - b)];
      }
      assert ripped[..] == file[b..e + 1];
      assert file'[..b] == file[..b] && file'[b..] == file[e + 1..];
      assert file[..] == file[..b] + file[b..e + 1] + file[e + 1..];
    }
  }

  /** The cut starts before it ends. */
  lemma CutInOrder(ts: seq<Token>, size: nat, pos: nat, beg: int, end: int)
    requires Scanned(ts, size) && pos < |ts| && Cut(ts, pos, beg, end) && beg != -1 && end != -1
    ensures 0 <= beg <= end < size
  {
    var l: nat, s: nat :| Shallowest(ts, pos, l) && DeclStart(ts, l, s) && beg == ts[s].offset;
    var e: nat :| DeclEnd(ts, From(ts, pos), e) && end == ts[e].offset;
    EndsWithBrace(ts, From(ts, pos), e);
  }

  lemma EndsWithBrace(ts: seq<Token>, from: nat, e: nat)
    requires from <= |ts| && DeclEnd(ts, from, e)
    ensures ts[e].kind == RBrace
  {
    assert Depth(ts, e + 1) < Depth(ts, e);
  }

  // ---------------------------------------------------------------------------
  // Balanced braces

  lemma ShallowestExists(ts: seq<Token>, pos: nat) returns (l: nat)
    requires Balanced(ts) && pos < |ts| && Depth(ts, pos + 1) > 0
    ensures Shallowest(ts, pos, l) && Depth(ts, l) == 0 && OpenAt(ts, l, pos + 1)
  {
    l := pos;
    while Depth(ts, l) != 0
      invariant l <= pos && forall k: nat :: l < k <= pos + 1 ==> Depth(ts, k) > 0
      decreases l
    {
      l := l - 1;
    }
    assert Depth(ts, l + 1) > 0;
  }

  lemma DeclEndExists(ts: seq<Token>, from: nat) returns (e: nat)
    requires Balanced(ts) && from < |ts| && Depth(ts, from) > 0
    ensures DeclEnd(ts, from, e) && Depth(ts, e + 1) == 0 && ts[e].kind == RBrace
  {
    var k := from;
    while Depth(ts, k) != 0
      invariant from <= k <= |ts| && forall i: nat :: from <= i < k ==> Depth(ts, i) > 0
      decreases |ts| - k
    {
      k := k + 1;
    }
    e := k - 1;
    assert Depth(ts, e) > 0;
  }

  /** The brace that is open after n tokens and the furthest out. */
  ghost predicate OutermostOpen(ts: seq<Token>, n: nat, l: nat)
    requires n <= |ts|
  {
    OpenAt(ts, l, n) && forall i: nat :: OpenAt(ts, i, n) ==> l <= i
  }

  lemma NothingFurtherOut(ts: seq<Token>, n: nat, l: nat)
    requires Balanced(ts) && n <= |ts| && OpenAt(ts, l, n) && Depth(ts, l) == 0
    ensures OutermostOpen(ts, n, l)
  {
    forall i: nat | OpenAt(ts, i, n)
      ensures l <= i
    {
      assert Depth(ts, i) >= 0;
    }
  }

  /** The first place of depth zero after the cursor is behind the brace that closes l. */
  lemma ClosesOutermost(ts: seq<Token>, pos: nat, l: nat, e: nat)
    requires pos < |ts| && l < |ts| && Depth(ts, l) == 0 && OpenAt(ts, l, pos + 1)
    requires DeclEnd(ts, From(ts, pos), e) && Depth(ts, e + 1) == 0 && ts[e].kind == RBrace
    ensures Matches(ts, l, e)
  {
    assert Depth(ts, pos + 1) > 0;
    forall k: nat | l < k <= e
      ensures Depth(ts, k) > 0
    {
    }
  }

  lemma ShallowestIsOne(ts: seq<Token>, pos: nat, l: nat, l': nat)
    requires pos < |ts| && Shallowest(ts, pos, l) && Shallowest(ts, pos, l')
    ensures l == l'
  {
  }

  lemma DeclEndIsOne(ts: seq<Token>, from: nat, e: nat, e': nat)
    requires from <= |ts| && DeclEnd(ts, from, e) && DeclEnd(ts, from, e')
    ensures e == e'
  {
  }

  lemma CutAtToken(ts: seq<Token>, pos: nat, beg: int, end: int)
    requires Balanced(ts) && pos < |ts| && Cut(ts, pos, beg, end)
    ensures beg != -1 && end != -1 <==> Depth(ts, pos + 1) > 0
    ensures Depth(ts, pos + 1) > 0 ==> BlockCut(ts, pos, beg, end)
  {
    if Depth(ts, pos + 1) > 0 {
      var l0 := ShallowestExists(ts, pos);
      var l: nat, s: nat :| Shallowest(ts, pos, l) && DeclStart(ts, l, s) && beg == ts[s].offset;
      ShallowestIsOne(ts, pos, l0, l);
      FromIsInside(ts, pos);
      var e0 := DeclEndExists(ts, From(ts, pos));
      var e: nat :| DeclEnd(ts, From(ts, pos), e) && end == ts[e].offset;
      DeclEndIsOne(ts, From(ts, pos), e0, e);
      NothingFurtherOut(ts, pos + 1, l);
      ClosesOutermost(ts, pos, l, e);
    } else {
      forall l: nat
        ensures !Shallowest(ts, pos, l)
      {
        if l <= pos {
          assert Depth(ts, l) >= 0;
        }
      }
    }
  }

  lemma FromIsInside(ts: seq<Token>, pos: nat)
    requires Balanced(ts) && pos < |ts| && Depth(ts, pos + 1) > 0
    ensures From(ts, pos) < |ts| && Depth(ts, From(ts, pos)) > 0
  {
  }

  ghost predicate BlockCut(ts: seq<Token>, pos: nat, beg: int, end: int)
    requires pos < |ts|
  {
    exists l: nat, s: nat, e: nat ::
      OutermostOpen(ts, pos + 1, l) && Matches(ts, l, e) && pos < e && DeclStart(ts, l, s) && beg == ts[s].offset && end == ts[e].offset
  }

  /** The block from brace l to brace e is around the cursor. The first token counts as one before it. */
  ghost predicate Around(ts: seq<Token>, cursor: int, l: nat, e: nat) {
    Matches(ts, l, e) && (l == 0 || ts[l].offset < cursor) && cursor <= ts[e].offset
  }

  ghost predicate Outermost(ts: seq<Token>, cursor: int, l: nat, e: nat) {
    Around(ts, cursor, l, e) && forall l': nat, e': nat :: Around(ts, cursor, l', e') ==> l <= l'
  }

  /** The blocks around the cursor are those open after its token. */
  lemma AroundIsOpen(ts: seq<Token>, size: nat, cursor: int, pos: nat, l: nat, e: nat)
    requires Scanned(ts, size) && CursorToken(ts, cursor, pos) && Matches(ts, l, e)
    ensures Around(ts, cursor, l, e) <==> l <= pos < e
    ensures l <= pos < e ==> OpenAt(ts, l, pos + 1)
  {
  }

  /** With balanced braces something is cut out exactly when a block is around the cursor; the cut ends with
      the outermost such block, and starts with its declaration. */
  lemma BalancedCut(ts: seq<Token>, size: nat, cursor: int, pos: nat, beg: int, end: int)
    requires Scanned(ts, size) && Balanced(ts) && CursorToken(ts, cursor, pos) && Cut(ts, pos, beg, end)
    ensures beg != -1 && end != -1 <==> exists l, e :: Around(ts, cursor, l, e)
    ensures beg != -1 && end != -1 ==> exists l: nat, s: nat, e: nat ::
              Outermost(ts, cursor, l, e) && DeclStart(ts, l, s) && beg == ts[s].offset && end == ts[e].offset
  {
    CutAtToken(ts, pos, beg, end);
    forall l: nat, e: nat | Around(ts, cursor, l, e)
      ensures OpenAt(ts, l, pos + 1) && Depth(ts, pos + 1) > 0
    {
      AroundIsOpen(ts, size, cursor, pos, l, e);
      assert Depth(ts, l) >= 0;
    }
    if Depth(ts, pos + 1) > 0 {
      var l: nat, s: nat, e: nat :|
        OutermostOpen(ts, pos + 1, l) && Matches(ts, l, e) && pos < e && DeclStart(ts, l, s) && beg == ts[s].offset && end == ts[e].offset;
      AroundIsOpen(ts, size, cursor, pos, l, e);
      assert Outermost(ts, cursor, l, e);
    }
  }

  /** What is cut out, and what is left, has balanced braces again. */
  lemma CutKeepsBalance(ts: seq<Token>, l: nat, s: nat, e: nat)
    requires Balanced(ts) && Matches(ts, l, e) && DeclStart(ts, l, s) && Depth(ts, l) == 0
    ensures Balanced(ts[s..e + 1]) && Balanced(ts[..s] + ts[e + 1..])
  {
    PartBalanced(ts, s, e + 1);
    RestBalanced(ts, s, e + 1);
  }

  lemma PartBalanced(ts: seq<Token>, a: nat, b: nat)
    requires Balanced(ts) && a <= b <= |ts| && Depth(ts, a) == 0 && Depth(ts, b) == 0
    ensures Balanced(ts[a..b])
  {
    var part := ts[a..b];
    forall k: nat | k <= |part|
      ensures Depth(part, k) == Depth(ts, a + k)
    {
      DepthOf(ts, a, part, 0, k);
    }
  }

  lemma RestBalanced(ts: seq<Token>, a: nat, b: nat)
    requires Balanced(ts) && a <= b <= |ts| && Depth(ts, a) == 0 && Depth(ts, b) == 0
    ensures Balanced(ts[..a] + ts[b..])
  {
    var rest := ts[..a] + ts[b..];
    forall k: nat | k <= |rest|
      ensures Depth(rest, k) >= 0 && (k == |rest| ==> Depth(rest, k) == 0)
    {
      RestDepth(ts, a, b, rest, k);
    }
  }

  /** The depth in what is left is the depth in the whole. */
  lemma RestDepth(ts: seq<Token>, a: nat, b: nat, rest: seq<Token>, k: nat)
    requires a <= b <= |ts| && Depth(ts, a) == 0 && Depth(ts, b) == 0
    requires rest == ts[..a] + ts[b..] && k <= |rest|
    ensures Depth(rest, k) == if k <= a then Depth(ts, k) else Depth(ts, b + (k - a))
  {
    if k <= a {
      SameBefore(ts, a, b, rest, k);
      DepthOf(ts, 0, rest, 0, k);
    } else {
      SameBefore(ts, a, b, rest, a);
      DepthOf(ts, 0, rest, 0, a);
      SameAfter(ts, a, b, rest, k - a);
      DepthOf(ts, b, rest, a, k - a);
    }
  }

  lemma SameBefore(ts: seq<Token>, a: nat, b: nat, rest: seq<Token>, n: nat)
    requires a <= b <= |ts| && rest == ts[..a] + ts[b..] && n <= a
    ensures Same(ts, 0, rest, 0, n)
  {
  }

  lemma SameAfter(ts: seq<Token>, a: nat, b: nat, rest: seq<Token>, n: nat)
    requires a <= b <= |ts| && rest == ts[..a] + ts[b..] && n <= |ts| - b
    ensures Same(ts, b, rest, a, n)
  {
  }

  ghost predicate Same(ts: seq<Token>, a: nat, us: seq<Token>, b: nat, n: nat)
    requires a + n <= |ts| && b + n <= |us|
  {
    forall i: nat :: b <= i < b + n ==> us[i] == ts[i - b + a]
  }

  /** Equal tokens change the depth equally. */
  lemma {:induction false} DepthOf(ts: seq<Token>, a: nat, us: seq<Token>, b: nat, n: nat)
    requires a + n <= |ts| && b + n <= |us| && Same(ts, a, us, b, n)
    ensures Depth(us, b + n) - Depth(us, b) == Depth(ts, a + n) - Depth(ts, a)
  {
    if n > 0 {
      DepthOf(ts, a, us, b, n - 1);
      assert us[b + n - 1] == ts[a + n - 1];
    }
  }
}

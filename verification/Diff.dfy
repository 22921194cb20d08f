/** `diff_main` and the functions it is mutually recursive with. */
module Diff {
  import opened Types
  import opened Edits
  import opened Strings
  import opened CleanupMerge
  import opened Distance
  import Bisect
  import Furthest
  import opened Sealing
  import Cleanups
  import HalfMatch
  import Lines
  import Semantic

  /** What happened in a run: the middles of the half-matches that were taken, and the lists that line mode
      returned. */
  datatype Log = Log(halves: seq<Text>, lists: seq<seq<Edit>>) {
    function Then(after: Log): Log {
      Log(halves + after.halves, lists + after.lists)
    }

    ghost predicate AllSolid() {
      forall l :: l in lists ==> Solid(l)
    }
  }

  /** The stages of line mode: the distinct lines, the texts as line numbers, their diff, the list of lines after the
      elimination of equalities, and after the alignment of edits. */
  datatype Stages = Stages(lines: seq<Text>, chars1: Text, chars2: Text, coded: seq<Edit>, merged: seq<Edit>, aligned: seq<Edit>)

  /** One block of a list, up to an equality, and what has become of it. */
  datatype Block = Block(before: seq<Edit>, run: seq<Edit>, last: Edit, done: seq<Edit>, again: seq<Edit>)

  function Count(run: seq<Edit>, op: Op): nat {
    if run == [] then 0 else Count(run[..|run| - 1], op) + if run[|run| - 1].op == op then 1 else 0
  }

  /** Too short for line mode. */
  predicate Small(text1: Text, text2: Text) {
    |text1| <= 100 || |text2| <= 100
  }

  /** What texts have in common is used for something. */
  ghost predicate Saves(d: seq<Edit>, text1: Text, text2: Text) {
    Dist(text1, text2) < |text1| + |text2| ==> Edited(d) < |text1| + |text2|
  }

  /** The settings of a diff, and the clock that `time.time() > deadline` reads. */
  class DiffMatchPatch {
    const clock: Bisect.Clock
    const unlimited: bool  // Diff_Timeout <= 0: there is no deadline either
    const score: (Text, Text) -> int

    constructor (clock: Bisect.Clock, unlimited: bool, score: (Text, Text) -> int)
      ensures this.clock == clock && this.unlimited == unlimited && this.score == score
    {
      this.clock, this.unlimited, this.score := clock, unlimited, score;
    }

    /** Half-matches are of texts, and taken only with a time limit; line mode is for long texts. */
    ghost predicate LogOk(log: Log, text1: Text, text2: Text, checklines: bool) {
      && (unlimited ==> log.halves == [])
      && (!checklines || Small(text1, text2) ==> log.lists == [])
      && forall c :: c in log.halves ==> |c| >= 2 && HalfMatch.Shared(c, text1, text2)
    }

    /** The list spells both texts and has no empty equality, unless line mode returned a list with one. If the
        deadline never comes and there was no line mode, the list keeps something of texts that have anything
        in common, and it is a shortest one if no half-match was taken. */
    ghost predicate Outcome(d: seq<Edit>, text1: Text, text2: Text, log: Log) {
      && (log.AllSolid() ==> Spells(d, text1, text2) && Solid(d))
      && (clock.Never() && log.lists == [] ==> Saves(d, text1, text2) && (log.halves == [] ==> Edited(d) <= Dist(text1, text2)))
    }

    /** `diff_main`, whenever the deadline fires. The list is in the normal form of `diff_cleanupMerge`. */
    method DiffMain(text1: Text, text2: Text, checklines: bool) returns (diffs: EditList, ghost log: Log)
      modifies clock
      ensures fresh(diffs) && Chain(diffs.d) && NoShift(diffs.d)
      ensures LogOk(log, text1, text2, checklines) && Outcome(diffs.d, text1, text2, log)
      ensures clock.Never() && log == Log([], []) ==> Shortest(diffs.d, text1, text2) && Edited(diffs.d) == Dist(text1, text2)
      decreases checklines, |text1| + |text2|, 3
    {
      log := Log([], []);
      if text1 == text2 {
        diffs := AllEqual(text1);
        DistBound(text1, text1);
        IsShortest(diffs.d, text1, text2);
        return;
      }
      var prefix, mid1, mid2, suffix := Trim(text1, text2);
      diffs, log := Compute(mid1, mid2, checklines);
      ghost var d0 := diffs.d;
      Restore(diffs, prefix, suffix);
      CleanupMerge.CleanupMerge(diffs);
      TrimmedLog(log, text1, text2, checklines, prefix, mid1, mid2, suffix);
      TrimmedOutcome(d0, diffs.d, text1, text2, log, prefix, mid1, mid2, suffix);
    }

    lemma TrimmedLog(log: Log, text1: Text, text2: Text, checklines: bool, prefix: Text, mid1: Text, mid2: Text, suffix: Text)
      requires prefix + mid1 + suffix == text1 && prefix + mid2 + suffix == text2
      requires LogOk(log, mid1, mid2, checklines)
      ensures LogOk(log, text1, text2, checklines)
    {
      forall c | c in log.halves ensures HalfMatch.Shared(c, text1, text2) {
        HalfMatch.SharedInside(c, prefix, mid1, mid2, suffix);
      }
    }

    lemma TrimmedOutcome(d0: seq<Edit>, d: seq<Edit>, text1: Text, text2: Text, log: Log, prefix: Text, mid1: Text, mid2: Text, suffix: Text)
      requires prefix + mid1 + suffix == text1 && prefix + mid2 + suffix == text2
      requires Outcome(d0, mid1, mid2, log) && (log.AllSolid() ==> Spells(d, text1, text2) && Solid(d)) && Edited(d) <= Edited(d0)
      ensures Outcome(d, text1, text2, log)
      ensures clock.Never() && log == Log([], []) ==> Shortest(d, text1, text2) && Edited(d) == Dist(text1, text2)
    {
      if clock.Never() && log.lists == [] {
        TrimmedSaves(d0, d, prefix, mid1, mid2, suffix);
        if log.halves == [] { StillShortest(d, text1, text2, prefix, mid1, mid2, suffix); }
      }
    }

    /** `diff_compute`. */
    method Compute(text1: Text, text2: Text, checklines: bool) returns (diffs: EditList, ghost log: Log)
      modifies clock
      ensures fresh(diffs) && LogOk(log, text1, text2, checklines) && Outcome(diffs.d, text1, text2, log)
      decreases checklines, |text1| + |text2|, if Trimmed(text1, text2) then 2 else 6
    {
      log := Log([], []);
      var simple := Shortcut(text1, text2);
      if simple != null {
        diffs := simple;
        return;
      }
      var hm := HalfMatch.FindHalf(unlimited, text1, text2);
      if hm.Some? {
        diffs, log := BothSides(text1, text2, hm.value, checklines);
        return;
      }
      if checklines && |text1| > 100 && |text2| > 100 {
        ghost var stages;
        diffs, stages := LineMode(text1, text2);
        log := Log([], [diffs.d]);
        return;
      }
      diffs, log := DiffBisect(text1, text2);
    }

    /** The two sides of a half-match are diffed on their own. */
    method BothSides(text1: Text, text2: Text, hm: HalfMatch.Half, checklines: bool) returns (diffs: EditList, ghost log: Log)
      requires HalfMatch.HalfOf(hm, text1, text2) && |hm.common| >= 2 && !unlimited
      modifies clock
      ensures fresh(diffs) && log.halves != [] && LogOk(log, text1, text2, checklines) && Outcome(diffs.d, text1, text2, log)
      decreases checklines, |text1| + |text2|, 1
    {
      ghost var logA, logB;
      var diffsA, diffsB;
      diffsA, logA := DiffMain(hm.a1, hm.a2, checklines);
      diffsB, logB := DiffMain(hm.b1, hm.b2, checklines);
      diffs := new EditList(diffsA.d + [Edit(Equal, hm.common)] + diffsB.d);
      log := Log([hm.common], []).Then(logA).Then(logB);
      SidesLog(hm, text1, text2, checklines, logA, logB);
      SidesOutcome(hm, text1, text2, diffsA.d, diffsB.d, logA, logB);
    }

    lemma TrimmedSaves(d0: seq<Edit>, d: seq<Edit>, prefix: Text, mid1: Text, mid2: Text, suffix: Text)
      requires Spells(d0, mid1, mid2) && Saves(d0, mid1, mid2) && Edited(d) <= Edited(d0)
      ensures Saves(d, prefix + mid1 + suffix, prefix + mid2 + suffix)
    {
      EditedBound(d0);
      if prefix == [] && suffix == [] {
        NoEnds(mid1);
        NoEnds(mid2);
      }
    }

    lemma SidesLog(hm: HalfMatch.Half, text1: Text, text2: Text, checklines: bool, logA: Log, logB: Log)
      requires HalfMatch.HalfOf(hm, text1, text2) && |hm.common| >= 2 && !unlimited
      requires LogOk(logA, hm.a1, hm.a2, checklines) && LogOk(logB, hm.b1, hm.b2, checklines)
      ensures LogOk(Log([hm.common], []).Then(logA).Then(logB), text1, text2, checklines)
    {
      var log := Log([hm.common], []).Then(logA).Then(logB);
      forall c | c in log.halves ensures |c| >= 2 && HalfMatch.Shared(c, text1, text2) {
        if c in logA.halves {
          HalfMatch.SharedBefore(c, hm, text1, text2);
        } else if c in logB.halves {
          HalfMatch.SharedBehind(c, hm, text1, text2);
        } else {
          HalfMatch.HalfIsShared(hm, text1, text2);
        }
      }
    }

    lemma SidesOutcome(hm: HalfMatch.Half, text1: Text, text2: Text, a: seq<Edit>, b: seq<Edit>, logA: Log, logB: Log)
      requires HalfMatch.HalfOf(hm, text1, text2) && Outcome(a, hm.a1, hm.a2, logA) && Outcome(b, hm.b1, hm.b2, logB)
      ensures Outcome(a + [Edit(Equal, hm.common)] + b, text1, text2, Log([hm.common], []).Then(logA).Then(logB))
    {
      SolidThen(Log([hm.common], []).Then(logA), logB);
      SolidThen(Log([hm.common], []), logA);
      if logA.AllSolid() && logB.AllSolid() {
        SidesTexts(hm, text1, text2, a, b);
        assert clock.Never() && logA.lists == [] && logB.lists == [] ==> Saves(a + [Edit(Equal, hm.common)] + b, text1, text2);
      }
    }

    lemma SidesTexts(hm: HalfMatch.Half, text1: Text, text2: Text, a: seq<Edit>, b: seq<Edit>)
      requires HalfMatch.HalfOf(hm, text1, text2) && Spells(a, hm.a1, hm.a2) && Spells(b, hm.b1, hm.b2) && Solid(a) && Solid(b)
      ensures var d := a + [Edit(Equal, hm.common)] + b;
              Spells(d, text1, text2) && Solid(d) && Edited(d) < |text1| + |text2|
    {
      var common := Edit(Equal, hm.common);
      TextsConcat3(a, [common], b);
      TextsOf1(common);
      EditedConcat3(a, [common], b);
      EditedOf1(common);
      EditedBound(a);
      EditedBound(b);
    }

    lemma SolidThen(a: Log, b: Log)
      ensures a.Then(b).AllSolid() <==> a.AllSolid() && b.AllSolid()
    {
      forall l | l in a.lists || l in b.lists ensures l in a.Then(b).lists {}
    }

    /** `diff_bisect`. */
    method DiffBisect(text1: Text, text2: Text) returns (diffs: EditList, ghost log: Log)
      requires |text1| + |text2| >= 3
      modifies clock
      ensures fresh(diffs) && LogOk(log, text1, text2, false) && Outcome(diffs.d, text1, text2, log)
      decreases false, |text1| + |text2|, if Bisect.Apart(text1, text2) then 1 else 5
    {
      log := Log([], []);
      var found, x, y := Bisect.MiddleSnake(clock, text1, text2);
      if found {
        diffs, log := BisectSplit(text1, text2, x, y);
      } else {
        diffs := Replacement(text1, text2);
      }
    }

    /** `diff_bisectSplit`; a split point outside the grid is clamped by the slices. */
    method BisectSplit(text1: Text, text2: Text, x: nat, y: nat) returns (diffs: EditList, ghost log: Log)
      modifies clock
      ensures fresh(diffs) && Spells(diffs.d, text1, text2) && Solid(diffs.d) && LogOk(log, text1, text2, false)
      ensures Best(text1, text2, x, y) ==> Outcome(diffs.d, text1, text2, log)
      decreases false, |text1| + |text2|, if 0 < |Take(text1, x)| + |Take(text2, y)| < |text1| + |text2| then 0 else 4
    {
      ghost var log1, log2;
      var diffs1, diffs2;
      diffs1, log1 := DiffMain(Take(text1, x), Take(text2, y), false);
      diffs2, log2 := DiffMain(Drop(text1, x), Drop(text2, y), false);
      diffs := new EditList(diffs1.d + diffs2.d);
      log := log1.Then(log2);
      SplitLog(text1, text2, x, y, log1, log2);
      SplitTexts(text1, text2, x, y, diffs1.d, diffs2.d);
      if Best(text1, text2, x, y) { SplitOutcome(text1, text2, x, y, diffs1.d, diffs2.d, log1, log2); }
    }

    lemma SplitLog(text1: Text, text2: Text, x: nat, y: nat, log1: Log, log2: Log)
      requires LogOk(log1, Take(text1, x), Take(text2, y), false) && LogOk(log2, Drop(text1, x), Drop(text2, y), false)
      ensures LogOk(log1.Then(log2), text1, text2, false)
    {
      Clamped(text1, x);
      Clamped(text2, y);
      forall c | c in log1.halves + log2.halves ensures |c| >= 2 && HalfMatch.Shared(c, text1, text2) {
        if c in log1.halves {
          HalfMatch.SharedParts(c, Take(text1, x), Drop(text1, x), Take(text2, y), Drop(text2, y));
        } else {
          HalfMatch.SharedParts(c, Take(text1, x), Drop(text1, x), Take(text2, y), Drop(text2, y));
        }
      }
    }

    lemma SplitTexts(text1: Text, text2: Text, x: nat, y: nat, d: seq<Edit>, e: seq<Edit>)
      requires Spells(d, Take(text1, x), Take(text2, y)) && Spells(e, Drop(text1, x), Drop(text2, y)) && Solid(d) && Solid(e)
      ensures Spells(d + e, text1, text2) && Solid(d + e)
    {
      Clamped(text1, x);
      Clamped(text2, y);
      TextsConcat(d, e);
    }

    lemma SplitOutcome(text1: Text, text2: Text, x: nat, y: nat, d: seq<Edit>, e: seq<Edit>, log1: Log, log2: Log)
      requires Best(text1, text2, x, y) && log1.lists == [] && log2.lists == []
      requires Outcome(d, Take(text1, x), Take(text2, y), log1) && Outcome(e, Drop(text1, x), Drop(text2, y), log2)
      ensures Outcome(d + e, text1, text2, log1.Then(log2))
    {
      SplitTexts(text1, text2, x, y, d, e);
      Halves(d, e, text1, text2, x, y);
      Clamped(text1, x);
      Clamped(text2, y);
      EditedBound(d);
      EditedBound(e);
      DistBound(Take(text1, x), Take(text2, y));
      DistBound(Drop(text1, x), Drop(text2, y));
    }

    /** The list comes from a diff of the texts, without line mode. */
    ghost predicate Diffed(text1: Text, text2: Text, d: seq<Edit>) {
      Chain(d) && NoShift(d) && exists log: Log :: log.lists == [] && LogOk(log, text1, text2, false) && Outcome(d, text1, text2, log)
    }

    /** Up to an equality, every block with deletions and insertions has given way to a diff of its own, and any
        other block is as it was. */
    ghost predicate Rediffed(d: seq<Edit>, r: seq<Edit>)
      decreases |d|
    {
      if d == [] then r == [] else exists b {:trigger BlockOf(d, r, b)} :: BlockOf(d, r, b) && Rediffed(b.before, b.done)
    }

    ghost predicate BlockOf(d: seq<Edit>, r: seq<Edit>, b: Block) {
      && d == b.before + b.run + [b.last] && r == b.done + b.again + [b.last]
      && b.last.op == Equal && EndsEqual(b.before) && (forall i :: 0 <= i < |b.run| ==> b.run[i].op != Equal)
      && if Count(b.run, Delete) > 0 && Count(b.run, Insert) > 0 then Diffed(Text1(b.run), Text2(b.run), b.again) else b.again == b.run
    }

    /** The first stages: the diff of the line numbers. */
    ghost predicate Numbered(text1: Text, text2: Text, s: Stages) {
      && Lines.Coded(s.chars1, s.lines) && Lines.Decode(s.chars1, s.lines) == text1 && Lines.AllEnded(s.chars1, s.lines)
      && Lines.Coded(s.chars2, s.lines) && Lines.Decode(s.chars2, s.lines) == text2 && Lines.AllEnded(s.chars2, s.lines)
      && Diffed(s.chars1, s.chars2, s.coded)
    }

    /** The list that line mode returns comes from that diff, stage by stage. */
    ghost predicate ByLines(text1: Text, text2: Text, d: seq<Edit>, s: Stages) {
      && Numbered(text1, text2, s)
      && (Cleanups.Settled(Lines.Hydrated(s.coded, s.lines), None) ==> s.merged == Lines.Hydrated(s.coded, s.lines))
      && Semantic.Aligned(s.merged, 1, s.aligned, score)
      && Rediffed(Semantic.AllExtracted(s.aligned) + [Edit(Equal, [])], d + [Edit(Equal, [])])
    }

    /** `diff_lineMode`: the list it returns spells both texts, though it may hold empty equalities. */
    method LineMode(text1: Text, text2: Text) returns (diffs: EditList, ghost stages: Stages)
      modifies clock
      ensures fresh(diffs)
      ensures Spells(diffs.d, text1, text2) && ByLines(text1, text2, diffs.d, stages)
      decreases true, |text1| + |text2|, 1
    {
      diffs, stages := LineDiff(text1, text2);
      ghost var merged, aligned := Semantic.CleanupSemantic(diffs, score);
      stages := stages.(merged := merged, aligned := aligned);
      Rediff(diffs);
    }

    /** The diff of the line numbers, with the lines put back. */
    method LineDiff(text1: Text, text2: Text) returns (diffs: EditList, ghost stages: Stages)
      modifies clock
      ensures fresh(diffs) && Numbered(text1, text2, stages) && diffs.d == Lines.Hydrated(stages.coded, stages.lines)
      ensures Spells(diffs.d, text1, text2) && Solid(diffs.d)
      decreases true, |text1| + |text2|, 0
    {
      var table := new Lines.LineTable();
      var chars1 := table.Munge(text1);
      ghost var before := table.lines;
      var chars2 := table.Munge(text2);
      Lines.DecodeGrown(chars1, before, table.lines);
      Lines.EndedGrown(chars1, before, table.lines);
      ghost var log;
      diffs, log := DiffMain(chars1, chars2, false);
      stages := Stages(table.lines, chars1, chars2, diffs.d, [], []);
      Hydrate(diffs, table.lines);
    }

    /** The coded lines give way to the lines. */
    method Hydrate(diffs: EditList, table: seq<Text>)
      requires Lines.Coded(Text1(diffs.d), table) && Lines.Coded(Text2(diffs.d), table)
      requires Solid(diffs.d) && forall i :: 0 < i < |table| ==> table[i] != []
      modifies diffs
      ensures Spells(diffs.d, Lines.Decode(old(Text1(diffs.d)), table), Lines.Decode(old(Text2(diffs.d)), table))
      ensures Solid(diffs.d) && diffs.d == Lines.Hydrated(old(diffs.d), table)
    {
      Lines.SpelledCoded(diffs.d, table);
      Lines.HydratedTexts(diffs.d, table);
      Lines.HydratedSolid(diffs.d, table);
      Lines.CharsToLines(diffs, table);
    }

    /** Diffs each block of deletions and insertions again, character by character. */
    method Rediff(diffs: EditList)
      modifies clock, diffs
      ensures SameTexts(diffs.d, old(diffs.d))
      ensures Rediffed(old(diffs.d) + [Edit(Equal, [])], diffs.d + [Edit(Equal, [])])
      decreases true, 0, 0
    {
      ghost var d0 := diffs.d;
      EqualSnoc(d0, Edit(Equal, []));
      diffs.d := diffs.d + [Edit(Equal, [])];
      var pointer: nat, countDelete: nat, countInsert: nat := 0, 0, 0;
      var textDelete: Text, textInsert: Text := [], [];
      ghost var cut := RediffStart(diffs.d);
      ghost var all, done: seq<Edit> := diffs.d, [];
      CourseStarts(all, cut);
      while pointer < |diffs.d|
        invariant Rediffing(diffs.d, cut, pointer, countDelete, countInsert, textDelete, textInsert)
        invariant Course(all, done, cut, countDelete, countInsert)
        invariant SameTexts(diffs.d, d0)
        decreases |cut.post|
      {
        pointer, countDelete, countInsert, textDelete, textInsert, cut, done :=
          RediffStep(diffs, all, done, cut, pointer, countDelete, countInsert, textDelete, textInsert);
        pointer := pointer + 1;
      }
      CourseEnds(all, done, cut, countDelete, countInsert, diffs.d, pointer, textDelete, textInsert);
      DropLastEntry(diffs.d);
      diffs.d := diffs.d[..|diffs.d| - 1];
    }

    /** One entry of the scan. */
    method RediffStep(diffs: EditList, ghost all: seq<Edit>, ghost done: seq<Edit>, ghost cut: Cut, pointer: nat, cd: nat, ci: nat,
                      td: Text, ti: Text)
        returns (p: nat, countDelete: nat, countInsert: nat, textDelete: Text, textInsert: Text, ghost next: Cut, ghost more: seq<Edit>)
      requires Rediffing(diffs.d, cut, pointer, cd, ci, td, ti) && Course(all, done, cut, cd, ci) && pointer < |diffs.d|
      modifies clock, diffs
      ensures Rediffing(diffs.d, next, p + 1, countDelete, countInsert, textDelete, textInsert)
      ensures Course(all, more, next, countDelete, countInsert) && SameTexts(diffs.d, old(diffs.d)) && |next.post| < |cut.post|
      decreases false, |td| + |ti|, 5
    {
      var e := diffs.d[pointer];
      p, countDelete, countInsert, textDelete, textInsert, more := pointer, cd, ci, td, ti, done;
      if e.op != Equal {
        next := Gathered(diffs.d, cut, pointer, cd, ci, td, ti);
        CourseGathers(all, done, cut, cd, ci, e, next);
        if e.op == Insert {
          countInsert, textInsert := countInsert + 1, textInsert + e.text;
        } else {
          countDelete, textDelete := countDelete + 1, textDelete + e.text;
        }
      } else {
        ghost var again := cut.run;
        if countDelete >= 1 && countInsert >= 1 {
          p, next, again := RediffBlock(diffs, cut, pointer, cd, ci, td, ti);
        } else {
          next := PassedOver(diffs.d, cut, pointer, cd, ci, td, ti);
        }
        more := CoursePasses(all, done, cut, cd, ci, e, again, next);
        countDelete, countInsert, textDelete, textInsert := 0, 0, [], [];
      }
    }

    /** How far the list all has come: done are the entries of it that cut.pre has taken the place of. */
    ghost predicate Course(all: seq<Edit>, done: seq<Edit>, cut: Cut, cd: nat, ci: nat) {
      forall z: nat {:trigger Seal(z)} :: Seal(z) ==>
        && all == done + cut.run + cut.post && Rediffed(done, cut.pre) && EndsEqual(done)
        && (forall i :: 0 <= i < |cut.run| ==> cut.run[i].op != Equal)
        && cd == Count(cut.run, Delete) && ci == Count(cut.run, Insert)
    }

    lemma CourseStarts(all: seq<Edit>, cut: Cut)
      requires cut == Cut([], [], all)
      ensures Course(all, [], cut, 0, 0)
    {
      assert [] + [] + all == all;
    }

    lemma CourseGathers(all: seq<Edit>, done: seq<Edit>, cut: Cut, cd: nat, ci: nat, e: Edit, next: Cut)
      requires Course(all, done, cut, cd, ci) && e.op != Equal && cut.post != [] && cut.post[0] == e
      requires next == Cut(cut.pre, cut.run + [e], cut.post[1..])
      ensures Course(all, done, next, cd + (if e.op == Delete then 1 else 0), ci + (if e.op == Insert then 1 else 0))
    {
      assert Seal(0);
      CountSnoc(cut.run, e, Delete);
      CountSnoc(cut.run, e, Insert);
      assert cut.post == [e] + cut.post[1..] && done + cut.run + ([e] + cut.post[1..]) == done + (cut.run + [e]) + cut.post[1..];
    }

    lemma CoursePasses(all: seq<Edit>, done: seq<Edit>, cut: Cut, cd: nat, ci: nat, e: Edit, again: seq<Edit>, next: Cut)
        returns (more: seq<Edit>)
      requires Course(all, done, cut, cd, ci) && e.op == Equal && cut.post != [] && cut.post[0] == e
      requires if cd >= 1 && ci >= 1 then Diffed(Text1(cut.run), Text2(cut.run), again) else again == cut.run
      requires next == Cut(cut.pre + again + [e], [], cut.post[1..])
      ensures Course(all, more, next, 0, 0)
    {
      assert Seal(0);
      more := done + cut.run + [e];
      OneBlock(Block(done, cut.run, e, cut.pre, again));
      PastBlock(done, cut.run, cut.post);
    }

    lemma OneBlock(b: Block)
      requires b.last.op == Equal && EndsEqual(b.before) && (forall i :: 0 <= i < |b.run| ==> b.run[i].op != Equal)
      requires if Count(b.run, Delete) > 0 && Count(b.run, Insert) > 0 then Diffed(Text1(b.run), Text2(b.run), b.again) else b.again == b.run
      requires Rediffed(b.before, b.done)
      ensures Rediffed(b.before + b.run + [b.last], b.done + b.again + [b.last])
    {
      assert BlockOf(b.before + b.run + [b.last], b.done + b.again + [b.last], b);
    }

    lemma CourseEnds(all: seq<Edit>, done: seq<Edit>, cut: Cut, cd: nat, ci: nat, d: seq<Edit>, p: nat, td: Text, ti: Text)
      requires Course(all, done, cut, cd, ci) && Rediffing(d, cut, p, cd, ci, td, ti) && p >= |d|
      requires all != [] && all[|all| - 1] == Edit(Equal, [])
      ensures Rediffed(all, d) && d[..|d| - 1] + [Edit(Equal, [])] == d
    {
      assert Seal(0);
      assert cut.post == [];
      if cut.run != [] { LastOfRun(done, cut.run); }
      assert done == all && cut.pre == d;
    }

    /** One block before an equality gives way to its own diff. */
    method RediffBlock(diffs: EditList, ghost cut: Cut, pointer: nat, countDelete: nat, countInsert: nat,
                       textDelete: Text, textInsert: Text)
        returns (p: nat, ghost next: Cut, ghost again: seq<Edit>)
      requires Rediffing(diffs.d, cut, pointer, countDelete, countInsert, textDelete, textInsert)
      requires pointer < |diffs.d|
      modifies clock, diffs
      ensures SameTexts(diffs.d, old(diffs.d))
      ensures Rediffing(diffs.d, next, p + 1, 0, 0, [], []) && |next.post| < |cut.post|
      ensures Diffed(textDelete, textInsert, again) && cut.post != [] && cut.post[0] == old(diffs.d)[pointer]
      ensures next == Cut(cut.pre + again + [cut.post[0]], [], cut.post[1..])
      decreases false, |textDelete| + |textInsert|, 4
    {
      var a;
      ghost var log;
      a, log := DiffMain(textDelete, textInsert, false);
      again := a.d;
      next := BlockDone(diffs.d, cut, pointer, countDelete, countInsert, textDelete, textInsert, a.d);
      diffs.d := diffs.d[..pointer - countDelete - countInsert] + a.d + diffs.d[pointer..];
      p := pointer - countDelete - countInsert + |a.d|;
    }
  }

  lemma LastOfRun(done: seq<Edit>, run: seq<Edit>)
    requires run != []
    ensures (done + run + [])[|done + run + []| - 1] == run[|run| - 1]
  {}

  lemma PastBlock(done: seq<Edit>, run: seq<Edit>, post: seq<Edit>)
    requires post != []
    ensures done + run + post == done + run + [post[0]] + [] + post[1..]
  {
    assert post == [post[0]] + post[1..];
  }

  lemma CountSnoc(run: seq<Edit>, e: Edit, op: Op)
    ensures Count(run + [e], op) == Count(run, op) + if e.op == op then 1 else 0
  {
    assert (run + [e])[..|run|] == run;
  }

  /** The shortcuts of `diff_compute` for texts that are empty, contained in one another, or of one character. */
  method Shortcut(text1: Text, text2: Text) returns (diffs: EditList?)
    ensures diffs != null ==> fresh(diffs) && Spells(diffs.d, text1, text2) && Solid(diffs.d) && Edited(diffs.d) <= Dist(text1, text2)
    ensures diffs == null ==> |text1| >= 2 && |text2| >= 2
  {
    if text1 == [] {
      diffs := OneEdit(Insert, text2);
      return;
    }
    if text2 == [] {
      diffs := OneEdit(Delete, text1);
      return;
    }
    var swap := |text1| > |text2|;
    var long, short := if swap then text1 else text2, if swap then text2 else text1;
    var i := Find(long, short, 0);
    if i != -1 {
      diffs := Inside(long, short, i, if swap then Delete else Insert);
      DistBound(text1, text2);
      return;
    }
    if |short| == 1 {
      diffs := Replacement(text1, text2);
      OneCharacter(long, short);
      Furthest.Swapped(long, short, |long|, |short|);
      return;
    }
    diffs := null;
  }

  method AllEqual(text: Text) returns (diffs: EditList)
    ensures fresh(diffs) && Spells(diffs.d, text, text) && Solid(diffs.d) && Chain(diffs.d) && NoShift(diffs.d)
    ensures Edited(diffs.d) == 0
  {
    if text != [] {
      TextsOf1(Edit(Equal, text));
      EditedOf1(Edit(Equal, text));
      diffs := new EditList([Edit(Equal, text)]);
    } else {
      diffs := new EditList([]);
    }
  }

  method OneEdit(op: Op, text: Text) returns (diffs: EditList)
    requires op != Equal
    ensures fresh(diffs) && Solid(diffs.d) && Edited(diffs.d) == |text|
    ensures Spells(diffs.d, if op == Delete then text else [], if op == Insert then text else [])
  {
    TextsOf1(Edit(op, text));
    EditedOf1(Edit(op, text));
    diffs := new EditList([Edit(op, text)]);
  }

  method Replacement(text1: Text, text2: Text) returns (diffs: EditList)
    ensures fresh(diffs) && Spells(diffs.d, text1, text2) && Solid(diffs.d) && Edited(diffs.d) == |text1| + |text2|
  {
    TextsOf2(Edit(Delete, text1), Edit(Insert, text2));
    EditedOf2(Edit(Delete, text1), Edit(Insert, text2));
    diffs := new EditList([Edit(Delete, text1), Edit(Insert, text2)]);
  }

  /** The shorter text lies inside the longer one. */
  method Inside(long: Text, short: Text, i: nat, op: Op) returns (diffs: EditList)
    requires OccursAt(short, long, i) && short != [] && op != Equal
    ensures fresh(diffs) && Solid(diffs.d) && Edited(diffs.d) == |long| - |short|
    ensures if op == Delete then Spells(diffs.d, long, short) else Spells(diffs.d, short, long)
  {
    Contained(long, short, i);
    TextsOf3(Edit(op, long[..i]), Edit(Equal, short), Edit(op, long[i + |short|..]));
    EditedOf3(Edit(op, long[..i]), Edit(Equal, short), Edit(op, long[i + |short|..]));
    NoEnds(short);
    diffs := new EditList([Edit(op, long[..i]), Edit(Equal, short), Edit(op, long[i + |short|..])]);
  }

  lemma NoEnds(t: Text)
    ensures [] + t + [] == t
  {}

  /** Trims the common prefix and then the common suffix. */
  method Trim(text1: Text, text2: Text) returns (prefix: Text, mid1: Text, mid2: Text, suffix: Text)
    ensures prefix + mid1 + suffix == text1 && prefix + mid2 + suffix == text2
    ensures |mid1| + |mid2| <= |text1| + |text2| && Trimmed(mid1, mid2)
  {
    var rest1, rest2;
    prefix, rest1, rest2 := TrimFront(text1, text2);
    mid1, mid2, suffix := TrimBack(rest1, rest2);
    Regrouped(prefix, mid1, suffix);
    Regrouped(prefix, mid2, suffix);
  }

  method TrimFront(text1: Text, text2: Text) returns (prefix: Text, rest1: Text, rest2: Text)
    ensures text1 == prefix + rest1 && text2 == prefix + rest2
    ensures rest1 == [] || rest2 == [] || rest1[0] != rest2[0]
  {
    var common := CommonPrefix(text1, text2);
    FrontApart(text1, text2, common);
    prefix := Take(text1, common);
    rest1 := Drop(text1, common);
    rest2 := Drop(text2, common);
  }

  method TrimBack(text1: Text, text2: Text) returns (mid1: Text, mid2: Text, suffix: Text)
    ensures text1 == mid1 + suffix && text2 == mid2 + suffix
    ensures mid1 == [] || mid2 == [] || mid1[|mid1| - 1] != mid2[|mid2| - 1]
  {
    var common := CommonSuffix(text1, text2);
    BackApart(text1, text2, common);
    if common == 0 {
      mid1, mid2, suffix := text1, text2, [];
    } else {
      suffix := TakeLast(text1, common);
      mid1 := DropLast(text1, common);
      mid2 := DropLast(text2, common);
    }
  }

  lemma Halves(d: seq<Edit>, e: seq<Edit>, text1: Text, text2: Text, x: nat, y: nat)
    ensures Edited(d + e) == Edited(d) + Edited(e)
    ensures Best(text1, text2, x, y) ==>
              Dist(text1, text2) == Dist(Take(text1, x), Take(text2, y)) + Dist(Drop(text1, x), Drop(text2, y))
  {
    EditedConcat(d, e);
    if Best(text1, text2, x, y) { BestSplit(text1, text2, x, y); }
  }

  /** What is trimmed off changes no distance. */
  lemma StillShortest(d: seq<Edit>, text1: Text, text2: Text, prefix: Text, mid1: Text, mid2: Text, suffix: Text)
    requires Spells(d, text1, text2) && prefix + mid1 + suffix == text1 && prefix + mid2 + suffix == text2
    requires Edited(d) <= Dist(mid1, mid2)
    ensures Shortest(d, text1, text2) && Edited(d) == Dist(text1, text2)
  {
    CommonTail(prefix + mid1, prefix + mid2, suffix);
    CommonHead(prefix, mid1, mid2);
    AtLeast(d);
    IsShortest(d, text1, text2);
  }

  /** The texts have no common ends. They are diffed again, with their common ends trimmed off, before the search
      divides any others. */
  predicate Trimmed(text1: Text, text2: Text) {
    text1 == [] || text2 == [] || Bisect.Apart(text1, text2)
  }

  /** A character that is not in a text has nothing in common with it. */
  lemma OneCharacter(long: Text, short: Text)
    requires |short| == 1 && forall i: nat :: !OccursAt(short, long, i)
    ensures Dist(long, short) == |long| + 1
  {
    forall i | 0 <= i < |long| ensures long[i] != short[0] {
      assert !OccursAt(short, long, i);
      assert long[i..i + 1] == [long[i]] && short == [short[0]];
    }
    NotAmong(long, short, |long|);
  }

  lemma {:induction false} NotAmong(long: Text, short: Text, n: nat)
    requires n <= |long| && |short| == 1 && forall i {:trigger long[i]} :: 0 <= i < n ==> long[i] != short[0]
    ensures To(long, short, n, 1) == n + 1
    decreases n
  {
    if n > 0 { NotAmong(long, short, n - 1); }
  }

  lemma FrontApart(text1: Text, text2: Text, n: nat)
    requires LongestPrefix(text1, text2, n)
    ensures var a, b := Drop(text1, n), Drop(text2, n); a == [] || b == [] || a[0] != b[0]
  {
    if n < |text1| && n < |text2| { OneMoreFirst(text1, text2, n); }
  }

  lemma BackApart(text1: Text, text2: Text, n: nat)
    requires LongestSuffix(text1, text2, n)
    ensures var a, b := if n == 0 then text1 else DropLast(text1, n), if n == 0 then text2 else DropLast(text2, n);
            a == [] || b == [] || a[|a| - 1] != b[|b| - 1]
  {
    if n < |text1| && n < |text2| {
      OneMoreLast(text1, text2, n);
      LastLeft(text1, n);
      LastLeft(text2, n);
    }
  }

  lemma LastLeft(t: Text, n: nat)
    requires n < |t|
    ensures var a := if n == 0 then t else DropLast(t, n); a != [] && a[|a| - 1] == t[|t| - n - 1]
  {}

  lemma Regrouped(a: Text, b: Text, c: Text)
    ensures a + (b + c) == a + b + c
  {}

  /** Restores them, as equalities around the diff of the rest. */
  method Restore(diffs: EditList, prefix: Text, suffix: Text)
    modifies diffs
    ensures Text1(diffs.d) == prefix + old(Text1(diffs.d)) + suffix && Text2(diffs.d) == prefix + old(Text2(diffs.d)) + suffix
    ensures (Solid(old(diffs.d)) ==> Solid(diffs.d)) && Edited(diffs.d) == old(Edited(diffs.d))
  {
    if prefix != [] {
      Before(prefix, diffs.d);
      diffs.d := [Edit(Equal, prefix)] + diffs.d;
    } else {
      NothingBefore(Text1(diffs.d));
      NothingBefore(Text2(diffs.d));
    }
    RestoreSuffix(diffs, suffix);
  }

  method RestoreSuffix(diffs: EditList, suffix: Text)
    modifies diffs
    ensures Text1(diffs.d) == old(Text1(diffs.d)) + suffix && Text2(diffs.d) == old(Text2(diffs.d)) + suffix
    ensures (Solid(old(diffs.d)) ==> Solid(diffs.d)) && Edited(diffs.d) == old(Edited(diffs.d))
  {
    if suffix != [] {
      After(diffs.d, suffix);
      diffs.d := diffs.d + [Edit(Equal, suffix)];
    } else {
      NothingAfter(Text1(diffs.d));
      NothingAfter(Text2(diffs.d));
    }
  }

  lemma Before(prefix: Text, d: seq<Edit>)
    requires prefix != []
    ensures var r := [Edit(Equal, prefix)] + d;
            Text1(r) == prefix + Text1(d) && Text2(r) == prefix + Text2(d) && (Solid(d) ==> Solid(r)) && Edited(r) == Edited(d)
  {
    EditedConcat([Edit(Equal, prefix)], d);
    assert [Edit(Equal, prefix)][..0] == [];
    OnlyEqual(prefix);
    TextsConcat([Edit(Equal, prefix)], d);
    Semantic.SolidAppend([Edit(Equal, prefix)], d);
  }

  lemma After(d: seq<Edit>, suffix: Text)
    requires suffix != []
    ensures var r := d + [Edit(Equal, suffix)];
            Text1(r) == Text1(d) + suffix && Text2(r) == Text2(d) + suffix && (Solid(d) ==> Solid(r)) && Edited(r) == Edited(d)
  {
    EditedSnoc(d, Edit(Equal, suffix));
    EqualSnoc(d, Edit(Equal, suffix));
    Semantic.SolidAppend(d, [Edit(Equal, suffix)]);
  }

  lemma NothingBefore(t: Text)
    ensures [] + t == t
  {}

  lemma NothingAfter(t: Text)
    ensures t + [] == t
  {}

  lemma Clamped(t: Text, x: nat)
    ensures Take(t, x) + Drop(t, x) == t && |Take(t, x)| + |Drop(t, x)| == |t|
  {}

  ghost predicate Rediffing(d: seq<Edit>, cut: Cut, p: nat, cd: nat, ci: nat, td: Text, ti: Text) {
    && d == cut.pre + cut.run + cut.post && p == |cut.pre| + |cut.run|
    && Run(cut.run, cd, ci, td, ti) && d != [] && d[|d| - 1] == Edit(Equal, [])
  }

  lemma RediffStart(d: seq<Edit>) returns (cut: Cut)
    requires d != [] && d[|d| - 1] == Edit(Equal, [])
    ensures Rediffing(d, cut, 0, 0, 0, [], []) && cut == Cut([], [], d)
  {
    cut := Cut([], [], d);
    assert [] + [] + d == d;
  }

  lemma Last(head: seq<Edit>, e: Edit, rest: seq<Edit>)
    ensures (head + [e] + rest)[|head + [e] + rest| - 1] == if rest == [] then e else rest[|rest| - 1]
    ensures head + ([e] + rest) == head + [e] + rest && head + [e] + [] + rest == head + [e] + rest
  {}

  lemma DropLastEntry(d: seq<Edit>)
    requires d != [] && d[|d| - 1] == Edit(Equal, [])
    ensures SameTexts(d[..|d| - 1], d)
  {
    assert d == d[..|d| - 1] + [Edit(Equal, [])];
    EqualSnoc(d[..|d| - 1], Edit(Equal, []));
  }

  /** The scan has gathered one more edit. */
  lemma Gathered(d: seq<Edit>, cut: Cut, p: nat, cd: nat, ci: nat, td: Text, ti: Text) returns (next: Cut)
    requires Rediffing(d, cut, p, cd, ci, td, ti) && p < |d| && d[p].op != Equal
    ensures d[p].op == Insert ==> Rediffing(d, next, p + 1, cd, ci + 1, td, ti + d[p].text)
    ensures d[p].op == Delete ==> Rediffing(d, next, p + 1, cd + 1, ci, td + d[p].text, ti)
    ensures |next.post| < |cut.post| && cut.post != [] && cut.post[0] == d[p] && next == Cut(cut.pre, cut.run + [d[p]], cut.post[1..])
  {
    var e, rest := NextEntry(cut.pre, cut.run, cut.post, d);
    RunGrows(cut.run, cd, ci, td, ti, e);
    next := Cut(cut.pre, cut.run + [e], rest);
  }

  lemma PassedOver(d: seq<Edit>, cut: Cut, p: nat, cd: nat, ci: nat, td: Text, ti: Text) returns (next: Cut)
    requires Rediffing(d, cut, p, cd, ci, td, ti) && p < |d|
    ensures Rediffing(d, next, p + 1, 0, 0, [], []) && |next.post| < |cut.post|
    ensures cut.post != [] && cut.post[0] == d[p] && next == Cut(cut.pre + cut.run + [d[p]], [], cut.post[1..])
  {
    var e, rest := NextEntry(cut.pre, cut.run, cut.post, d);
    Last(cut.pre + cut.run, e, rest);
    next := Cut(cut.pre + cut.run + [e], [], rest);
  }

  /** A block replaced by a list that spells the same. */
  lemma BlockDone(d: seq<Edit>, cut: Cut, p: nat, cd: nat, ci: nat, td: Text, ti: Text, a: seq<Edit>) returns (next: Cut)
    requires Rediffing(d, cut, p, cd, ci, td, ti) && p < |d| && Spells(a, td, ti)
    ensures 0 <= p - cd - ci
    ensures var r := d[..p - cd - ci] + a + d[p..]; SameTexts(r, d) && Rediffing(r, next, p - cd - ci + |a| + 1, 0, 0, [], [])
    ensures |next.post| < |cut.post| && cut.post != [] && cut.post[0] == d[p] && next == Cut(cut.pre + a + [d[p]], [], cut.post[1..])
  {
    var e, rest := NextEntry(cut.pre, cut.run, cut.post, d);
    BlockSlices(d, cut.pre, cut.run, e, rest, p - cd - ci, p, a);
    SameBlock(cut.pre, a, cut.run, e, rest);
    Last(cut.pre + cut.run, e, rest);
    next := BlockCut(cut.pre, a, e, rest);
  }

  lemma BlockSlices(d: seq<Edit>, pre: seq<Edit>, run: seq<Edit>, e: Edit, rest: seq<Edit>, i: int, p: int, a: seq<Edit>)
    requires d == pre + run + [e] + rest && i == |pre| && p == |pre| + |run|
    ensures d[..i] + a + d[p..] == pre + a + [e] + rest
  {
    ReplaceRun(pre, run, e, rest, a);
  }

  lemma BlockCut(pre: seq<Edit>, a: seq<Edit>, e: Edit, rest: seq<Edit>) returns (next: Cut)
    requires (if rest == [] then e else rest[|rest| - 1]) == Edit(Equal, [])
    ensures Rediffing(pre + a + [e] + rest, next, |pre| + |a| + 1, 0, 0, [], []) && next == Cut(pre + a + [e], [], rest)
  {
    Last(pre + a, e, rest);
    next := Cut(pre + a + [e], [], rest);
  }

  lemma SameBlock(pre: seq<Edit>, a: seq<Edit>, run: seq<Edit>, e: Edit, rest: seq<Edit>)
    requires SameTexts(a, run)
    ensures SameTexts(pre + a + [e] + rest, pre + run + [e] + rest)
  {
    TextsConcat(pre, a);
    TextsConcat(pre, run);
    RestTexts(pre + a, pre + run, [e] + rest);
    assert pre + a + ([e] + rest) == pre + a + [e] + rest && pre + run + ([e] + rest) == pre + run + [e] + rest;
  }

  lemma Contained(long: Text, short: Text, i: nat)
    requires OccursAt(short, long, i)
    ensures i + |short| <= |long| && long == long[..i] + short + long[i + |short|..]
  {}
}

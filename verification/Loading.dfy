/** The concurrent importer (importer/importer.go: doImport, doImport0, importSource) as interleaved
    steps of any number of goroutines. */
module Loading {
  import opened Types

  type Path = string

  /** What is on disk: the imports of a package in the order in which the type checker asks for
      them, or None where the files cannot be parsed. */
  type Source = Path -> Option<seq<Path>>

  function Deps(src: Source, p: Path): seq<Path> {
    match src(p)
    case Some(ds) => ds
    case None => []
  }

  /** One activation of doImport on a goroutine's stack: about to take the lock; loading the package,
      with imports still to ask for; done loading, with the ready channel not yet closed; waiting for
      the channel. */
  datatype Frame =
    | Calling(path: Path)
    | Loads(path: Path, todo: seq<Path>)
    | Loaded(path: Path)
    | Waits(path: Path)

  /** `importInfo`: its result, once set; whether the channel is closed; and where its loader is. */
  datatype Entry = Entry(info: Option<nat>, ready: bool, thread: nat, depth: nat)

  /** The map of imports, the stacks of the goroutines, top last; and the history: which path each goroutine
      was started for, how many loads have begun in all and which, which results calls have returned, and which
      packages became ready. */
  datatype State = State(imported: map<Path, Entry>, threads: seq<seq<Frame>>, calls: seq<Path>,
                         begun: seq<Path>, returned: set<(Path, nat)>, order: seq<Path>)

  function Init(): State {
    State(map[], [], [], [], {}, [])
  }

  function Top(stack: seq<Frame>): Frame
    requires stack != []
  {
    stack[|stack| - 1]
  }

  function WithTop(stack: seq<Frame>, f: Frame): seq<Frame>
    requires stack != []
  {
    stack[..|stack| - 1] + [f]
  }

  /** A call returns: its caller, if it is a type checker, goes on with the next import. */
  function Popped(stack: seq<Frame>): seq<Frame>
    requires stack != []
  {
    var rest := stack[..|stack| - 1];
    if rest != [] && Top(rest).Loads? && Top(rest).todo != []
    then WithTop(rest, Loads(Top(rest).path, Top(rest).todo[1..])) else rest
  }

  // ---------------------------------------------------------------------------
  // Steps

  /** A goroutine starts to import a path. */
  function Started(s: State, p: Path): State {
    s.(threads := s.threads + [[Calling(p)]], calls := s.calls + [p])
  }

  /** importSource starts a goroutine for each import of the package, to fetch it ahead. */
  function Prefetched(s: State, ds: seq<Path>): State {
    if ds == [] then s
    else
      var before, d := ds[..|ds| - 1], ds[|ds| - 1];
      if d == "unsafe" || d in before then Prefetched(s, before) else Started(Prefetched(s, before), d)
  }

  /** A caller imports a path. `unsafe` never gets this far. */
  predicate Start(s: State, s': State, p: Path) {
    p != "unsafe" && s' == Started(s, p)
  }

  predicate AtTop(s: State, t: nat) {
    t < |s.threads| && s.threads[t] != []
  }

  function SetStack(s: State, t: nat, stack: seq<Frame>): seq<seq<Frame>>
    requires t < |s.threads|
  {
    s.threads[t := stack]
  }

  /** The goroutine waits for the loader of p. */
  function Waiting(s: State, t: nat, p: Path): State
    requires AtTop(s, t)
  {
    s.(threads := SetStack(s, t, WithTop(s.threads[t], Waits(p))))
  }

  /** The goroutine is the loader of p. */
  function Loader(src: Source, s: State, t: nat, p: Path): State
    requires AtTop(s, t)
  {
    s.(imported := s.imported[p := Entry(None, false, t, |s.threads[t]| - 1)],
       threads := SetStack(s, t, WithTop(s.threads[t], Loads(p, Deps(src, p)))), begun := s.begun + [p])
  }

  /** Under the lock: the path gets an entry if it has none, and the goroutine becomes its loader, or
      else it is to wait. */
  predicate Enter(src: Source, s: State, s': State, t: nat) {
    && AtTop(s, t) && Top(s.threads[t]).Calling?
    && var p := Top(s.threads[t]).path;
       s' == if p in s.imported then Waiting(s, t, p) else Prefetched(Loader(src, s, t, p), Deps(src, p))
  }

  /** The type checker of a package asks for the next import; `unsafe` is handed out at once. */
  predicate Ask(s: State, s': State, t: nat) {
    && AtTop(s, t) && Top(s.threads[t]).Loads? && Top(s.threads[t]).todo != []
    && var f, stack := Top(s.threads[t]), s.threads[t];
       if f.todo[0] == "unsafe" then
         s' == s.(threads := SetStack(s, t, WithTop(stack, Loads(f.path, f.todo[1..]))))
       else
         s' == s.(threads := SetStack(s, t, stack + [Calling(f.todo[0])]))
  }

  /** The package is complete, or could not be parsed: the result is set. */
  predicate SetInfo(s: State, s': State, t: nat) {
    && AtTop(s, t) && Top(s.threads[t]).Loads? && Top(s.threads[t]).todo == []
    && Top(s.threads[t]).path in s.imported
    && var p, stack := Top(s.threads[t]).path, s.threads[t];
       s' == s.(imported := s.imported[p := s.imported[p].(info := Some(|s.begun|))],
                threads := SetStack(s, t, WithTop(stack, Loaded(p))))
  }

  /** The loader closes the channel and returns the result. */
  predicate Close(s: State, s': State, t: nat) {
    && AtTop(s, t) && Top(s.threads[t]).Loaded?
    && Top(s.threads[t]).path in s.imported && s.imported[Top(s.threads[t]).path].info.Some?
    && var p, stack := Top(s.threads[t]).path, s.threads[t];
       s' == s.(imported := s.imported[p := s.imported[p].(ready := true)], threads := SetStack(s, t, Popped(stack)),
                returned := s.returned + {(p, s.imported[p].info.value)}, order := s.order + [p])
  }

  /** A waiter finds the channel closed and returns the result. */
  predicate Wake(s: State, s': State, t: nat) {
    && AtTop(s, t) && Top(s.threads[t]).Waits?
    && Top(s.threads[t]).path in s.imported
    && s.imported[Top(s.threads[t]).path].ready && s.imported[Top(s.threads[t]).path].info.Some?
    && var p, stack := Top(s.threads[t]).path, s.threads[t];
       s' == s.(threads := SetStack(s, t, Popped(stack)), returned := s.returned + {(p, s.imported[p].info.value)})
  }

  /** A step of goroutine t. */
  predicate Move(src: Source, s: State, s': State, t: nat) {
    Enter(src, s, s', t) || Ask(s, s', t) || SetInfo(s, s', t) || Close(s, s', t) || Wake(s, s', t)
  }

  ghost predicate Next(src: Source, s: State, s': State) {
    (exists p :: Start(s, s', p)) || (exists t: nat :: Move(src, s, s', t))
  }

  ghost predicate Run(src: Source, states: seq<State>) {
    && states != [] && states[0] == Init()
    && forall i {:trigger states[i]} :: 0 < i < |states| ==> Next(src, states[i - 1], states[i])
  }

  ghost predicate Reachable(src: Source, s: State) {
    exists states :: Run(src, states) && states[|states| - 1] == s
  }

  // ---------------------------------------------------------------------------
  // The invariant

  predicate IsLoader(f: Frame, p: Path) {
    (f.Loads? || f.Loaded?) && f.path == p
  }

  /** Imports of p asked for so far have been answered, and what is left are the others. */
  predicate Progress(src: Source, s: State, p: Path, todo: seq<Path>) {
    && |todo| <= |Deps(src, p)| && todo == Deps(src, p)[|Deps(src, p)| - |todo|..]
    && forall i :: 0 <= i < |Deps(src, p)| - |todo| ==> Deps(src, p)[i] == "unsafe" || Deps(src, p)[i] in s.order
  }

  /** One frame of a stack. */
  predicate FrameOk(src: Source, s: State, t: nat, i: nat)
    requires t < |s.threads| && i < |s.threads[t]|
  {
    var f, stack := s.threads[t][i], s.threads[t];
    && f.path != "unsafe"
    && (f.Waits? ==> f.path in s.imported)
    && (IsLoader(f, f.path) ==> f.path in s.imported && !s.imported[f.path].ready
                                && s.imported[f.path].thread == t && s.imported[f.path].depth == i)
    && (f.Loads? ==> Progress(src, s, f.path, f.todo) && s.imported[f.path].info == None)
    && (f.Loaded? ==> Progress(src, s, f.path, []) && s.imported[f.path].info.Some?)
    && (i + 1 < |stack| ==> f.Loads? && f.todo != [] && stack[i + 1].path == f.todo[0])
  }

  predicate LoaderAt(s: State, e: Entry, p: Path) {
    e.thread < |s.threads| && e.depth < |s.threads[e.thread]| && IsLoader(s.threads[e.thread][e.depth], p)
  }

  /** An entry is ready, with a result, or has one loader. */
  predicate EntryOk(s: State, p: Path)
    requires p in s.imported
  {
    var e := s.imported[p];
    && (e.ready <==> p in s.order) && (e.ready ==> e.info.Some?)
    && (!e.ready ==> LoaderAt(s, e, p))
  }

  /** Packages become ready after all their imports. */
  predicate OrderOk(src: Source, order: seq<Path>) {
    order == [] ||
    var last, before := order[|order| - 1], order[..|order| - 1];
    last !in before && OrderOk(src, before)
    && forall i :: 0 <= i < |Deps(src, last)| ==> Deps(src, last)[i] == "unsafe" || Deps(src, last)[i] in before
  }

  ghost predicate Returned(s: State, p: Path) {
    exists r :: (p, r) in s.returned
  }

  /** A goroutine works on the path it was started for, until that is returned. */
  ghost predicate CallOk(s: State, t: nat)
    requires t < |s.threads| == |s.calls|
  {
    if s.threads[t] == [] then Returned(s, s.calls[t]) else s.threads[t][0].path == s.calls[t]
  }

  ghost predicate Inv(src: Source, s: State) {
    && |s.calls| == |s.threads| && (forall t: nat {:trigger CallOk(s, t)} :: t < |s.threads| ==> CallOk(s, t))
    && (forall t: nat, i: nat {:trigger FrameOk(src, s, t, i)} :: t < |s.threads| && i < |s.threads[t]| ==> FrameOk(src, s, t, i))
    && (forall p {:trigger EntryOk(s, p)} :: p in s.imported ==> EntryOk(s, p))
    && (forall p :: p in s.order ==> p in s.imported) && OrderOk(src, s.order)
    && (forall p :: p in s.begun <==> p in s.imported) && (forall i, j :: 0 <= i < j < |s.begun| ==> s.begun[i] != s.begun[j])
    && (forall p, r :: (p, r) in s.returned ==> p in s.imported && s.imported[p].ready && s.imported[p].info == Some(r))
  }

  // ---------------------------------------------------------------------------
  // Every step keeps the invariant

  lemma StartKeeps(src: Source, s: State, s': State, p: Path)
    requires Inv(src, s) && Start(s, s', p)
    ensures Inv(src, s')
  {
    forall t: nat | t < |s'.threads| ensures CallOk(s', t) {
      if t < |s.threads| {
        assert CallOk(s, t);
        if s.threads[t] == [] { StillReturned(s, s', s.calls[t]); }
      }
    }
    forall t: nat, i: nat | t < |s'.threads| && i < |s'.threads[t]| ensures FrameOk(src, s', t, i) {
      if t < |s.threads| { assert FrameOk(src, s, t, i); }
    }
    forall q | q in s'.imported ensures EntryOk(s', q) {
      assert EntryOk(s, q);
    }
  }

  predicate EntryStays(s: State, s': State, f: Frame) {
    f.path in s.imported ==>
      f.path in s'.imported && (IsLoader(f, f.path) ==> s'.imported[f.path] == s.imported[f.path])
  }

  /** What a step leaves of the frames it does not touch. */
  lemma FrameStays(src: Source, s: State, s': State, t: nat, i: nat)
    requires t < |s.threads| && i < |s.threads[t]| && FrameOk(src, s, t, i)
    requires t < |s'.threads| && i < |s'.threads[t]| && s'.threads[t][i] == s.threads[t][i]
    requires i + 1 < |s'.threads[t]| ==> i + 1 < |s.threads[t]| && s'.threads[t][i + 1].path == s.threads[t][i + 1].path
    requires forall p :: p in s.order ==> p in s'.order
    requires EntryStays(s, s', s.threads[t][i])
    ensures FrameOk(src, s', t, i)
  {}

  lemma StillReturned(s: State, s': State, p: Path)
    requires Returned(s, p) && s.returned <= s'.returned
    ensures Returned(s', p)
  {
    var r :| (p, r) in s.returned;
    assert (p, r) in s'.returned;
  }

  /** The calls of the other goroutines are not touched. */
  lemma CallsStay(src: Source, s: State, s': State, t: nat)
    requires Inv(src, s) && t < |s.threads| && s'.calls == s.calls && s.returned <= s'.returned
    requires |s'.threads| == |s.threads| && (forall u: nat :: u < |s.threads| && u != t ==> s'.threads[u] == s.threads[u])
    requires CallOk(s', t)
    ensures forall u: nat {:trigger CallOk(s', u)} :: u < |s'.threads| ==> CallOk(s', u)
  {
    forall u: nat | u < |s'.threads| ensures CallOk(s', u) {
      if u != t {
        assert CallOk(s, u);
        if s.threads[u] == [] { StillReturned(s, s', s.calls[u]); }
      }
    }
  }

  lemma {:induction false} PrefetchKeeps(src: Source, s: State, ds: seq<Path>)
    requires Inv(src, s)
    ensures Inv(src, Prefetched(s, ds))
    ensures var s' := Prefetched(s, ds); s'.(threads := s.threads, calls := s.calls) == s
    decreases |ds|
  {
    if ds != [] {
      var before, d := ds[..|ds| - 1], ds[|ds| - 1];
      PrefetchKeeps(src, s, before);
      if d != "unsafe" && d !in before {
        var s' := Started(Prefetched(s, before), d);
        StartKeeps(src, Prefetched(s, before), s', d);
      }
    }
  }

  lemma EnterKeeps(src: Source, s: State, s': State, t: nat)
    requires Inv(src, s) && Enter(src, s, s', t)
    ensures Inv(src, s')
  {
    var p := Top(s.threads[t]).path;
    if p in s.imported {
      TurnKeeps(src, s, s', t);
    } else {
      TurnKeeps(src, s, Loader(src, s, t, p), t);
      PrefetchKeeps(src, Loader(src, s, t, p), Deps(src, p));
    }
  }

  /** The goroutine turns into a waiter or a loader. */
  lemma TurnKeeps(src: Source, s: State, s': State, t: nat)
    requires Inv(src, s) && AtTop(s, t) && Top(s.threads[t]).Calling?
    requires var p := Top(s.threads[t]).path; s' == if p in s.imported then Waiting(s, t, p) else Loader(src, s, t, p)
    ensures Inv(src, s')
  {
    var stack := s.threads[t];
    assert FrameOk(src, s, t, |stack| - 1);
    assert CallOk(s, t) && stack == stack[..|stack| - 1] + [Top(stack)];
    CallsStay(src, s, s', t);
    forall u: nat, i: nat | u < |s'.threads| && i < |s'.threads[u]| ensures FrameOk(src, s', u, i) {
      assert FrameOk(src, s, u, i);
      if u != t || i < |stack| - 1 { FrameStays(src, s, s', u, i); }
    }
    forall q | q in s'.imported ensures EntryOk(s', q) {
      if q in s.imported { assert EntryOk(s, q); }
    }
  }

  lemma AskKeeps(src: Source, s: State, s': State, t: nat)
    requires Inv(src, s) && Ask(s, s', t)
    ensures Inv(src, s')
  {
    var stack := s.threads[t];
    assert FrameOk(src, s, t, |stack| - 1) && CallOk(s, t);
    CallsStay(src, s, s', t);
    AskFrames(src, s, s', t);
    forall q | q in s'.imported ensures EntryOk(s', q) {
      assert EntryOk(s, q);
    }
  }

  lemma AskFrames(src: Source, s: State, s': State, t: nat)
    requires Inv(src, s) && Ask(s, s', t)
    ensures forall u: nat, i: nat {:trigger FrameOk(src, s', u, i)} :: u < |s'.threads| && i < |s'.threads[u]| ==> FrameOk(src, s', u, i)
  {
    var stack := s.threads[t];
    var top := |stack| - 1;
    assert FrameOk(src, s, t, top);
    forall u: nat, i: nat | u < |s'.threads| && i < |s'.threads[u]| ensures FrameOk(src, s', u, i) {
      if u != t || i < top {
        assert FrameOk(src, s, u, i);
        FrameStays(src, s, s', u, i);
      } else if i == top && stack[top].todo[0] == "unsafe" {
        NextImport(src, s, stack[top].path, stack[top].todo);
      }
    }
  }

  lemma NextImport(src: Source, s: State, p: Path, todo: seq<Path>)
    requires Progress(src, s, p, todo) && todo != [] && (todo[0] == "unsafe" || todo[0] in s.order)
    ensures Progress(src, s, p, todo[1..])
  {
    var ds := Deps(src, p);
    assert ds[|ds| - |todo|] == todo[0] && todo[1..] == ds[|ds| - |todo| + 1..];
  }

  lemma SetInfoKeeps(src: Source, s: State, s': State, t: nat)
    requires Inv(src, s) && SetInfo(s, s', t)
    ensures Inv(src, s')
  {
    var stack := s.threads[t];
    assert FrameOk(src, s, t, |stack| - 1) && CallOk(s, t);
    CallsStay(src, s, s', t);
    assert EntryOk(s, Top(stack).path);
    SetInfoFrames(src, s, s', t);
    forall q | q in s'.imported ensures EntryOk(s', q) {
      assert EntryOk(s, q);
    }
  }

  lemma SetInfoFrames(src: Source, s: State, s': State, t: nat)
    requires Inv(src, s) && SetInfo(s, s', t)
    ensures forall u: nat, i: nat {:trigger FrameOk(src, s', u, i)} :: u < |s'.threads| && i < |s'.threads[u]| ==> FrameOk(src, s', u, i)
  {
    var stack := s.threads[t];
    assert FrameOk(src, s, t, |stack| - 1);
    assert EntryOk(s, Top(stack).path);
    forall u: nat, i: nat | u < |s'.threads| && i < |s'.threads[u]| ensures FrameOk(src, s', u, i) {
      assert FrameOk(src, s, u, i);
      if u != t || i < |stack| - 1 { FrameStays(src, s, s', u, i); }
    }
  }

  /** When the top call of a stack returns a package that is ready, the frames below stay in order. */
  lemma PoppedOk(src: Source, s: State, s': State, t: nat, i: nat)
    requires AtTop(s, t) && t < |s'.threads| && s'.threads[t] == Popped(s.threads[t]) && i < |s'.threads[t]|
    requires FrameOk(src, s, t, i) && (forall p :: p in s.order ==> p in s'.order) && Top(s.threads[t]).path in s'.order
    requires EntryStays(s, s', s.threads[t][i])
    ensures FrameOk(src, s', t, i)
  {
    var stack := s.threads[t];
    if i == |stack| - 2 && stack[i].Loads? && stack[i].todo != [] {
      assert Progress(src, s', stack[i].path, stack[i].todo);
      NextImport(src, s', stack[i].path, stack[i].todo);
    } else {
      FrameStays(src, s, s', t, i);
    }
  }

  lemma PoppedCalls(src: Source, s: State, s': State, t: nat, r: nat)
    requires Inv(src, s) && AtTop(s, t) && s'.threads == SetStack(s, t, Popped(s.threads[t])) && s'.calls == s.calls
    requires s'.returned == s.returned + {(Top(s.threads[t]).path, r)}
    ensures forall u: nat {:trigger CallOk(s', u)} :: u < |s'.threads| ==> CallOk(s', u)
  {
    assert CallOk(s, t);
    if |s.threads[t]| == 1 { assert (s.calls[t], r) in s'.returned && Returned(s', s.calls[t]); }
    CallsStay(src, s, s', t);
  }

  lemma CloseKeeps(src: Source, s: State, s': State, t: nat)
    requires Inv(src, s) && Close(s, s', t)
    ensures Inv(src, s')
  {
    var stack := s.threads[t];
    var p := Top(stack).path;
    assert FrameOk(src, s, t, |stack| - 1) && EntryOk(s, p);
    PoppedCalls(src, s, s', t, s.imported[p].info.value);
    CloseFrames(src, s, s', t);
    forall q | q in s'.imported ensures EntryOk(s', q) {
      assert EntryOk(s, q);
      if !s'.imported[q].ready { LoaderStays(src, s, s', t, q); }
    }
    assert s'.order[..|s'.order| - 1] == s.order;
  }

  lemma CloseFrames(src: Source, s: State, s': State, t: nat)
    requires Inv(src, s) && Close(s, s', t)
    ensures forall u: nat, i: nat {:trigger FrameOk(src, s', u, i)} :: u < |s'.threads| && i < |s'.threads[u]| ==> FrameOk(src, s', u, i)
  {
    var stack := s.threads[t];
    assert FrameOk(src, s, t, |stack| - 1);
    forall u: nat, i: nat | u < |s'.threads| && i < |s'.threads[u]| ensures FrameOk(src, s', u, i) {
      assert FrameOk(src, s, u, i);
      if u != t { FrameStays(src, s, s', u, i); } else { PoppedOk(src, s, s', t, i); }
    }
  }

  lemma LoaderStays(src: Source, s: State, s': State, t: nat, q: Path)
    requires AtTop(s, t) && s'.threads == SetStack(s, t, Popped(s.threads[t])) && q in s.imported && EntryOk(s, q)
    requires !s.imported[q].ready && (s.imported[q].thread != t || s.imported[q].depth < |s.threads[t]| - 1)
    ensures LoaderAt(s', s.imported[q], q)
  {}

  lemma WakeKeeps(src: Source, s: State, s': State, t: nat)
    requires Inv(src, s) && Wake(s, s', t)
    ensures Inv(src, s')
  {
    var stack := s.threads[t];
    var p := Top(stack).path;
    assert EntryOk(s, p);
    PoppedCalls(src, s, s', t, s.imported[p].info.value);
    forall u: nat, i: nat | u < |s'.threads| && i < |s'.threads[u]| ensures FrameOk(src, s', u, i) {
      assert FrameOk(src, s, u, i);
      if u != t { FrameStays(src, s, s', u, i); } else { PoppedOk(src, s, s', t, i); }
    }
    forall q | q in s'.imported ensures EntryOk(s', q) {
      assert EntryOk(s, q);
      if !s'.imported[q].ready {
        assert Top(stack) == stack[|stack| - 1];
        LoaderStays(src, s, s', t, q);
      }
    }
  }

  lemma NextKeeps(src: Source, s: State, s': State)
    requires Inv(src, s) && Next(src, s, s')
    ensures Inv(src, s')
  {
    if p :| Start(s, s', p) {
      StartKeeps(src, s, s', p);
    } else {
      var t: nat :| Move(src, s, s', t);
      if Enter(src, s, s', t) { EnterKeeps(src, s, s', t); }
      else if Ask(s, s', t) { AskKeeps(src, s, s', t); }
      else if SetInfo(s, s', t) { SetInfoKeeps(src, s, s', t); }
      else if Close(s, s', t) { CloseKeeps(src, s, s', t); }
      else { WakeKeeps(src, s, s', t); }
    }
  }

  lemma {:induction false} RunKeeps(src: Source, states: seq<State>, n: nat)
    requires Run(src, states) && n < |states|
    ensures Inv(src, states[n])
  {
    if n > 0 {
      RunKeeps(src, states, n - 1);
      NextKeeps(src, states[n - 1], states[n]);
    }
  }

  // ---------------------------------------------------------------------------
  // Safety over every run

  lemma ReachableOk(src: Source, s: State)
    requires Reachable(src, s)
    ensures Inv(src, s)
  {
    var states :| Run(src, states) && states[|states| - 1] == s;
    RunKeeps(src, states, |states| - 1);
  }

  /** Each path is loaded at most once, and all calls that have returned for it have returned the one
      result of that load, after the package became ready. */
  lemma LoadedOnce(src: Source, s: State)
    requires Reachable(src, s)
    ensures forall i, j :: 0 <= i < j < |s.begun| ==> s.begun[i] != s.begun[j]
    ensures forall p, r :: (p, r) in s.returned ==> p in s.begun && p in s.imported && s.imported[p].ready && s.imported[p].info == Some(r)
    ensures forall p, q, r :: (p, q) in s.returned && (p, r) in s.returned ==> q == r
  {
    ReachableOk(src, s);
  }

  /** A package that is ready stays so, with its result. */
  lemma ReadyForGood(src: Source, s: State, s': State, p: Path)
    requires Inv(src, s) && Next(src, s, s') && p in s.imported && s.imported[p].ready
    ensures p in s'.imported && s'.imported[p] == s.imported[p]
  {
    if q :| Start(s, s', q) {
    } else {
      var t: nat :| Move(src, s, s', t);
      assert FrameOk(src, s, t, |s.threads[t]| - 1);
      if Enter(src, s, s', t) && Top(s.threads[t]).path !in s.imported {
        var q := Top(s.threads[t]).path;
        TurnKeeps(src, s, Loader(src, s, t, q), t);
        PrefetchKeeps(src, Loader(src, s, t, q), Deps(src, q));
      }
    }
  }

  // ---------------------------------------------------------------------------
  // Deadlock

  ghost predicate Acyclic(src: Source, rank: Path -> nat) {
    forall p, d :: d in Deps(src, p) && d != "unsafe" ==> rank(d) < rank(p)
  }

  predicate Stuck(s: State, t: nat) {
    AtTop(s, t) && Top(s.threads[t]).Waits? && Top(s.threads[t]).path in s.imported && !s.imported[Top(s.threads[t]).path].ready
  }

  /** A goroutine with work to do can make a step, unless it waits for a package that is not ready. */
  lemma MovesOrWaits(src: Source, s: State, t: nat)
    requires Inv(src, s) && AtTop(s, t)
    ensures (exists s' :: Move(src, s, s', t)) || Stuck(s, t)
  {
    var stack := s.threads[t];
    assert FrameOk(src, s, t, |stack| - 1);
    var f := Top(stack);
    match f {
      case Calling(p) =>
        var s1 := if p in s.imported then Waiting(s, t, p) else Prefetched(Loader(src, s, t, p), Deps(src, p));
        assert Enter(src, s, s1, t);
        assert Move(src, s, s1, t);
      case Loads(p, todo) =>
        if todo == [] {
          var s1 := s.(imported := s.imported[p := s.imported[p].(info := Some(|s.begun|))],
                       threads := SetStack(s, t, WithTop(stack, Loaded(p))));
          assert SetInfo(s, s1, t);
          assert Move(src, s, s1, t);
        } else {
          var s1 := if todo[0] == "unsafe" then s.(threads := SetStack(s, t, WithTop(stack, Loads(p, todo[1..]))))
                    else s.(threads := SetStack(s, t, stack + [Calling(todo[0])]));
          assert Ask(s, s1, t);
          assert Move(src, s, s1, t);
        }
      case Loaded(p) =>
        var s1 := s.(imported := s.imported[p := s.imported[p].(ready := true)], threads := SetStack(s, t, Popped(stack)),
                     returned := s.returned + {(p, s.imported[p].info.value)}, order := s.order + [p]);
        assert Close(s, s1, t);
        assert Move(src, s, s1, t);
      case Waits(p) =>
        assert EntryOk(s, p);
        if s.imported[p].ready {
          var s1 := s.(threads := SetStack(s, t, Popped(stack)), returned := s.returned + {(p, s.imported[p].info.value)});
          assert Wake(s, s1, t);
          assert Move(src, s, s1, t);
        }
    }
  }

  lemma LeftToAsk(src: Source, s: State, p: Path, todo: seq<Path>)
    requires Progress(src, s, p, todo) && todo != []
    ensures todo[0] in Deps(src, p)
  {
    var ds := Deps(src, p);
    assert ds[|ds| - |todo|] == todo[0];
  }

  lemma CallDescends(src: Source, s: State, t: nat, i: nat, rank: Path -> nat)
    requires Inv(src, s) && Acyclic(src, rank) && t < |s.threads| && i + 1 < |s.threads[t]|
    ensures rank(s.threads[t][i + 1].path) < rank(s.threads[t][i].path)
  {
    assert FrameOk(src, s, t, i) && FrameOk(src, s, t, i + 1);
    LeftToAsk(src, s, s.threads[t][i].path, s.threads[t][i].todo);
  }

  /** Along a stack, each call is for an import of the package below it. */
  lemma {:induction false} StackDescends(src: Source, s: State, t: nat, i: nat, j: nat, rank: Path -> nat)
    requires Inv(src, s) && Acyclic(src, rank) && t < |s.threads| && i < j < |s.threads[t]|
    ensures rank(s.threads[t][j].path) < rank(s.threads[t][i].path)
    decreases j - i
  {
    CallDescends(src, s, t, i, rank);
    if i + 1 < j { StackDescends(src, s, t, i + 1, j, rank); }
  }

  /** The goroutine that loads what t waits for is able to go on, or waits in turn for a package of
      lower rank. */
  lemma {:induction false} SomeoneMoves(src: Source, s: State, t: nat, rank: Path -> nat) returns (u: nat, s': State)
    requires Inv(src, s) && Acyclic(src, rank) && AtTop(s, t)
    ensures Move(src, s, s', u)
    decreases if Stuck(s, t) then rank(Top(s.threads[t]).path) + 1 else 0
  {
    MovesOrWaits(src, s, t);
    if !Stuck(s, t) {
      u := t;
      s' :| Move(src, s, s', t);
    } else {
      var p := Top(s.threads[t]).path;
      assert EntryOk(s, p);
      var e := s.imported[p];
      var top := |s.threads[e.thread]| - 1;
      if Stuck(s, e.thread) { StackDescends(src, s, e.thread, e.depth, top, rank); }
      u, s' := SomeoneMoves(src, s, e.thread, rank);
    }
  }

  /** If imports are acyclic, no reachable state is deadlocked. */
  lemma NoDeadlock(src: Source, s: State, t: nat, rank: Path -> nat)
    requires Reachable(src, s) && Acyclic(src, rank) && AtTop(s, t)
    ensures exists u: nat, s' :: Move(src, s, s', u)
  {
    ReachableOk(src, s);
    var u, s' := SomeoneMoves(src, s, t, rank);
  }

  // ---------------------------------------------------------------------------
  // Progress

  /** What one call of doImport for p may take, its prefetching goroutines included. */
  function CallWork(src: Source, rank: Path -> nat, p: Path): nat
    decreases rank(p), |Deps(src, p)| + 1
  {
    3 + 2 * TodoWork(src, rank, p, Deps(src, p))
  }

  /** What the imports of p that are left to ask for may take. */
  function TodoWork(src: Source, rank: Path -> nat, p: Path, todo: seq<Path>): nat
    decreases rank(p), |todo|
  {
    if todo == [] then 0
    else 1 + ImportWork(src, rank, p, todo[0]) + TodoWork(src, rank, p, todo[1..])
  }

  function ImportWork(src: Source, rank: Path -> nat, p: Path, d: Path): nat
    decreases rank(p), 0
  {
    if d != "unsafe" && rank(d) < rank(p) then CallWork(src, rank, d) else 0
  }

  /** The work of one frame; a type checker with a call above it has that import behind it. */
  function FrameWork(src: Source, rank: Path -> nat, f: Frame, top: bool): nat {
    match f
    case Calling(p) => CallWork(src, rank, p)
    case Loads(p, todo) => 2 + TodoWork(src, rank, p, if top || todo == [] then todo else todo[1..])
    case Loaded(_) => 1
    case Waits(_) => 1
  }

  function StackWork(src: Source, rank: Path -> nat, stack: seq<Frame>, top: bool): nat
    decreases |stack|
  {
    if stack == [] then 0
    else FrameWork(src, rank, Top(stack), top) + StackWork(src, rank, stack[..|stack| - 1], false)
  }

  function ThreadsWork(src: Source, rank: Path -> nat, threads: seq<seq<Frame>>): nat {
    if threads == [] then 0
    else ThreadsWork(src, rank, threads[..|threads| - 1]) + StackWork(src, rank, threads[|threads| - 1], true)
  }

  /** A bound on the steps that all goroutines together still have to make. */
  function Work(src: Source, rank: Path -> nat, s: State): nat {
    ThreadsWork(src, rank, s.threads)
  }

  lemma {:induction false} OtherStack(src: Source, rank: Path -> nat, threads: seq<seq<Frame>>, t: nat, stack: seq<Frame>)
    requires t < |threads|
    ensures ThreadsWork(src, rank, threads[t := stack]) ==
            ThreadsWork(src, rank, threads) - StackWork(src, rank, threads[t], true) + StackWork(src, rank, stack, true)
    decreases |threads|
  {
    var rest, changed := threads[..|threads| - 1], threads[t := stack];
    if t == |threads| - 1 {
      assert changed[..|threads| - 1] == rest;
    } else {
      assert changed[..|threads| - 1] == rest[t := stack];
      OtherStack(src, rank, rest, t, stack);
    }
  }

  lemma OtherTop(src: Source, rank: Path -> nat, stack: seq<Frame>, f: Frame)
    requires stack != []
    ensures StackWork(src, rank, WithTop(stack, f), true) ==
            StackWork(src, rank, stack, true) - FrameWork(src, rank, Top(stack), true) + FrameWork(src, rank, f, true)
  {
    assert WithTop(stack, f)[..|stack| - 1] == stack[..|stack| - 1];
  }

  /** A return takes the work of the frame away. */
  lemma PoppedWork(src: Source, rank: Path -> nat, stack: seq<Frame>)
    requires stack != [] && (|stack| > 1 ==> stack[|stack| - 2].Loads? && stack[|stack| - 2].todo != [])
    ensures StackWork(src, rank, Popped(stack), true) == StackWork(src, rank, stack, true) - FrameWork(src, rank, Top(stack), true)
  {
    var rest := stack[..|stack| - 1];
    if rest != [] {
      assert Popped(stack)[..|rest| - 1] == rest[..|rest| - 1];
    }
  }

  lemma {:induction false} PrefetchWork(src: Source, rank: Path -> nat, s: State, p: Path, ds: seq<Path>)
    requires forall d :: d in ds && d != "unsafe" ==> rank(d) < rank(p)
    ensures Work(src, rank, Prefetched(s, ds)) <= Work(src, rank, s) + TodoWork(src, rank, p, ds)
    decreases |ds|
  {
    if ds != [] {
      var before, d := ds[..|ds| - 1], ds[|ds| - 1];
      var s1 := Prefetched(s, before);
      PrefetchWork(src, rank, s, p, before);
      TodoSnoc(src, rank, p, before, d);
      assert before + [d] == ds;
      if d != "unsafe" && d !in before {
        assert Started(s1, d).threads[..|s1.threads|] == s1.threads;
        OneFrame(src, rank, Calling(d));
        assert d in ds;
      }
    }
  }

  lemma OneFrame(src: Source, rank: Path -> nat, f: Frame)
    ensures StackWork(src, rank, [f], true) == FrameWork(src, rank, f, true)
  {
    assert [f][..0] == [];
  }

  lemma {:induction false} TodoSnoc(src: Source, rank: Path -> nat, p: Path, todo: seq<Path>, d: Path)
    ensures TodoWork(src, rank, p, todo + [d]) == TodoWork(src, rank, p, todo) + 1 + ImportWork(src, rank, p, d)
    decreases |todo|
  {
    if todo == [] {
      assert todo + [d] == [d] && [d][1..] == [];
    } else {
      assert (todo + [d])[1..] == todo[1..] + [d];
      TodoSnoc(src, rank, p, todo[1..], d);
    }
  }

  /** If imports are acyclic, every step of a goroutine is progress. */
  lemma MoveWorks(src: Source, rank: Path -> nat, s: State, s': State, t: nat)
    requires Inv(src, s) && Acyclic(src, rank) && Move(src, s, s', t)
    ensures Work(src, rank, s') < Work(src, rank, s)
  {
    var stack := s.threads[t];
    var f := Top(stack);
    assert FrameOk(src, s, t, |stack| - 1);
    if |stack| > 1 { assert FrameOk(src, s, t, |stack| - 2); }
    if Enter(src, s, s', t) {
      EnterWorks(src, rank, s, s', t);
    } else if Ask(s, s', t) {
      AskWorks(src, rank, s, s', t);
    } else if SetInfo(s, s', t) {
      OtherStack(src, rank, s.threads, t, WithTop(stack, Loaded(f.path)));
      OtherTop(src, rank, stack, Loaded(f.path));
    } else {
      OtherStack(src, rank, s.threads, t, Popped(stack));
      PoppedWork(src, rank, stack);
    }
  }

  lemma EnterWorks(src: Source, rank: Path -> nat, s: State, s': State, t: nat)
    requires Acyclic(src, rank) && Enter(src, s, s', t)
    ensures Work(src, rank, s') < Work(src, rank, s)
  {
    var stack := s.threads[t];
    var p := Top(stack).path;
    var f := if p in s.imported then Waits(p) else Loads(p, Deps(src, p));
    OtherStack(src, rank, s.threads, t, WithTop(stack, f));
    OtherTop(src, rank, stack, f);
    if p !in s.imported { PrefetchWork(src, rank, Loader(src, s, t, p), p, Deps(src, p)); }
  }

  lemma AskWorks(src: Source, rank: Path -> nat, s: State, s': State, t: nat)
    requires Acyclic(src, rank) && Ask(s, s', t) && FrameOk(src, s, t, |s.threads[t]| - 1)
    ensures Work(src, rank, s') < Work(src, rank, s)
  {
    var stack := s.threads[t];
    var f := Top(stack);
    LeftToAsk(src, s, f.path, f.todo);
    if f.todo[0] == "unsafe" {
      OtherStack(src, rank, s.threads, t, WithTop(stack, Loads(f.path, f.todo[1..])));
      OtherTop(src, rank, stack, Loads(f.path, f.todo[1..]));
    } else {
      OtherStack(src, rank, s.threads, t, stack + [Calling(f.todo[0])]);
      CalledWork(src, rank, stack, Calling(f.todo[0]));
      AskedWork(src, rank, f);
    }
  }

  lemma AskedWork(src: Source, rank: Path -> nat, f: Frame)
    requires Acyclic(src, rank) && f.Loads? && f.todo != [] && f.todo[0] != "unsafe" && f.todo[0] in Deps(src, f.path)
    ensures FrameWork(src, rank, f, true) == FrameWork(src, rank, f, false) + 1 + FrameWork(src, rank, Calling(f.todo[0]), true)
  {
    assert ImportWork(src, rank, f.path, f.todo[0]) == CallWork(src, rank, f.todo[0]);
  }

  lemma CalledWork(src: Source, rank: Path -> nat, stack: seq<Frame>, f: Frame)
    requires stack != []
    ensures StackWork(src, rank, stack + [f], true) == StackWork(src, rank, stack, true) + FrameWork(src, rank, f, true)
              - FrameWork(src, rank, Top(stack), true) + FrameWork(src, rank, Top(stack), false)
  {
    assert (stack + [f])[..|stack|] == stack;
  }

  ghost predicate Moved(src: Source, s: State, s': State) {
    exists t: nat :: Move(src, s, s', t)
  }

  /** A run in which no further call is started. */
  ghost predicate Moves(src: Source, states: seq<State>) {
    states != [] && forall i {:trigger states[i]} :: 0 < i < |states| ==> Moved(src, states[i - 1], states[i])
  }

  lemma {:induction false} MovesWork(src: Source, rank: Path -> nat, states: seq<State>, n: nat)
    requires Moves(src, states) && Inv(src, states[0]) && Acyclic(src, rank) && n < |states|
    ensures Inv(src, states[n]) && Work(src, rank, states[n]) + n <= Work(src, rank, states[0])
    decreases n
  {
    if n > 0 {
      MovesWork(src, rank, states, n - 1);
      var t: nat :| Move(src, states[n - 1], states[n], t);
      NextKeeps(src, states[n - 1], states[n]);
      MoveWorks(src, rank, states[n - 1], states[n], t);
    }
  }

  /** If imports are acyclic, the goroutines stop: from any reachable state they make at most Work steps. */
  lemma RunsEnd(src: Source, rank: Path -> nat, states: seq<State>)
    requires Moves(src, states) && Reachable(src, states[0]) && Acyclic(src, rank)
    ensures |states| - 1 <= Work(src, rank, states[0])
  {
    ReachableOk(src, states[0]);
    MovesWork(src, rank, states, |states| - 1);
  }

  /** Nothing is left to do: no goroutine has a call to return from, and every path that one was started for is
      ready and has been returned. */
  ghost predicate Finished(s: State) {
    && (forall t :: 0 <= t < |s.threads| ==> s.threads[t] == [])
    && forall p :: p in s.calls ==> p in s.imported && s.imported[p].ready && Returned(s, p)
  }

  /** And when they stop, all calls have returned. */
  lemma StopsFinished(src: Source, rank: Path -> nat, s: State)
    requires Reachable(src, s) && Acyclic(src, rank)
    ensures (forall s' :: !Moved(src, s, s')) <==> Finished(s)
  {
    ReachableOk(src, s);
    if forall s' :: !Moved(src, s, s') {
      forall t: nat | t < |s.threads| ensures s.threads[t] == [] {
        if AtTop(s, t) {
          var u, s' := SomeoneMoves(src, s, t, rank);
          assert Moved(src, s, s');
        }
      }
      forall p | p in s.calls ensures p in s.imported && s.imported[p].ready && Returned(s, p) {
        var t :| 0 <= t < |s.calls| && s.calls[t] == p;
        assert CallOk(s, t);
      }
    }
  }

  /** So every call that is started returns in the end, however the goroutines are scheduled. */
  lemma {:induction false} Completes(src: Source, rank: Path -> nat, s: State) returns (states: seq<State>)
    requires Reachable(src, s) && Acyclic(src, rank)
    ensures Moves(src, states) && states[0] == s && Finished(states[|states| - 1])
    decreases Work(src, rank, s)
  {
    if s' :| Moved(src, s, s') {
      OneMove(src, rank, s, s');
      var rest := Completes(src, rank, s');
      states := [s] + rest;
      forall i | 0 < i < |states| ensures Moved(src, states[i - 1], states[i]) {
        if i > 1 { assert rest[i - 1] == states[i] && rest[i - 2] == states[i - 1]; }
      }
    } else {
      StopsFinished(src, rank, s);
      states := [s];
    }
  }

  lemma OneMove(src: Source, rank: Path -> nat, s: State, s': State)
    requires Reachable(src, s) && Acyclic(src, rank) && Moved(src, s, s')
    ensures Reachable(src, s') && Work(src, rank, s') < Work(src, rank, s)
  {
    ReachableOk(src, s);
    var t: nat :| Move(src, s, s', t);
    MoveWorks(src, rank, s, s', t);
    ReachableNext(src, s, s');
  }

  lemma ReachableNext(src: Source, s: State, s': State)
    requires Reachable(src, s) && Next(src, s, s')
    ensures Reachable(src, s')
  {
    var states :| Run(src, states) && states[|states| - 1] == s;
    var longer := states + [s'];
    assert Run(src, longer) && longer[|longer| - 1] == s';
  }

  // ---------------------------------------------------------------------------
  // Cycles

  /** Each package on the way imports the next one. */
  predicate ImportPath(src: Source, ps: seq<Path>) {
    forall i {:trigger ps[i]} :: 0 < i < |ps| ==> ps[i] in Deps(src, ps[i - 1]) && ps[i] != "unsafe"
  }

  lemma {:induction false} DepsBefore(src: Source, order: seq<Path>, i: nat, d: Path) returns (j: nat)
    requires OrderOk(src, order) && i < |order| && d in Deps(src, order[i]) && d != "unsafe"
    ensures j < i && order[j] == d
    decreases |order|
  {
    var before := order[..|order| - 1];
    if i < |order| - 1 {
      j := DepsBefore(src, before, i, d);
    } else {
      var k :| 0 <= k < |Deps(src, order[i])| && Deps(src, order[i])[k] == d;
      j :| 0 <= j < |before| && before[j] == d;
    }
  }

  lemma {:induction false} PathDescends(src: Source, order: seq<Path>, ps: seq<Path>, n: nat, i: nat) returns (j: nat)
    requires OrderOk(src, order) && ImportPath(src, ps) && n < |ps| && i < |order| && order[i] == ps[0]
    ensures j < |order| && order[j] == ps[n] && (n > 0 ==> j < i) && (n == 0 ==> j == i)
    decreases n
  {
    j := i;
    if n > 0 {
      var k := PathDescends(src, order, ps, n - 1, i);
      j := DepsBefore(src, order, k, ps[n]);
    }
  }

  lemma {:induction false} OrderDistinct(src: Source, order: seq<Path>, i: nat, j: nat)
    requires OrderOk(src, order) && i < j < |order|
    ensures order[i] != order[j]
    decreases |order|
  {
    if j < |order| - 1 { OrderDistinct(src, order[..|order| - 1], i, j); }
  }

  lemma {:induction false} RestOfPath(src: Source, order: seq<Path>, ps: seq<Path>, i: nat, a: nat, n: nat) returns (b: nat)
    requires OrderOk(src, order) && ImportPath(src, ps) && i <= n < |ps| && a < |order| && order[a] == ps[i]
    ensures b < |order| && order[b] == ps[n] && (n > i ==> b < a)
  {
    var rest := ps[i..];
    assert forall j {:trigger rest[j]} :: 0 < j < |rest| ==> rest[j - 1] == ps[i + j - 1] && rest[j] == ps[i + j];
    b := PathDescends(src, order, rest, n - i, a);
  }

  /** A package on an import cycle, or one that leads to a cycle, never becomes ready, so that no call for it
      ever returns. */
  lemma CycleNeverReady(src: Source, s: State, ps: seq<Path>, i: nat, j: nat)
    requires Reachable(src, s) && ImportPath(src, ps) && i < j < |ps| && ps[i] == ps[j]
    ensures ps[0] in s.imported ==> !s.imported[ps[0]].ready
    ensures forall r :: (ps[0], r) !in s.returned
  {
    ReachableOk(src, s);
    if ps[0] in s.imported {
      assert EntryOk(s, ps[0]);
      if ps[0] in s.order {
        var first :| 0 <= first < |s.order| && s.order[first] == ps[0];
        var a := PathDescends(src, s.order, ps, i, first);
        var b := RestOfPath(src, s.order, ps, i, a, j);
        OrderDistinct(src, s.order, b, a);
      }
    }
  }
}

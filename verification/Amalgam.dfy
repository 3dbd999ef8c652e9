/** Depth-first expansion of includes into one file: once-only, complete, and in order. */
module Amalgam {

  type File = nat

  /** A line of a file: its own text, or an include of a project header. */
  datatype Item = Own | Include(target: File)

  /** The project files, their lines, and the headers that may be repeated; cycles are allowed. */
  datatype Graph = Graph(content: map<File, seq<Item>>, repeatable: set<File>) {
    ghost predicate Sound() {
      forall f :: f in content ==> TargetsInside(f)
    }

    ghost predicate TargetsInside(f: File)
      requires f in content
    {
      forall i :: 0 <= i < |content[f]| && content[f][i].Include? ==> content[f][i].target in content
    }

    ghost predicate Includes(f: File, t: File) {
      f in content && Include(t) in content[f]
    }

    ghost predicate OwnLine(f: File, i: nat) {
      f in content && i < |content[f]| && content[f][i].Own?
    }
  }

  /** A piece of the output: line i of a file, or one of the comments the generator adds. */
  datatype Token = Line(file: File, index: nat) | Marker(file: File) | Skipped(file: File) | Section(file: File)

  /** Files finished and not repeatable, files expanded at all, and the text so far. */
  datatype State = State(emitted: set<File>, visited: set<File>, text: seq<Token>)

  function SetOf(s: seq<File>): set<File> {
    set f | f in s
  }

  // ----- the specification -----------------------------------------------------------------------------------

  ghost function Free(g: Graph, stack: seq<File>): nat {
    |g.content.Keys - SetOf(stack)|
  }

  lemma StackGrows(g: Graph, stack: seq<File>, path: File)
    requires path in g.content && path !in stack
    ensures Free(g, stack + [path]) < Free(g, stack)
  {
    var a, b := g.content.Keys - SetOf(stack + [path]), g.content.Keys - SetOf(stack);
    assert path in b && path !in a;
    assert a <= b - {path};
    Smaller(a, b - {path});
  }

  lemma Smaller(a: set<File>, b: set<File>)
    requires a <= b
    ensures |a| <= |b|
  {
    if a != {} {
      var x :| x in a;
      Smaller(a - {x}, b - {x});
    }
  }

  /** expand_file: nothing for a finished file, a comment for one on the stack, otherwise its lines in order. */
  ghost function Expand(g: Graph, st: State, path: File, stack: seq<File>): State
    requires g.Sound() && path in g.content
    decreases Free(g, stack), 1, 0
  {
    if path !in g.repeatable && path in st.emitted then st
    else if path in stack then st.(text := st.text + [Skipped(path)])
    else
      StackGrows(g, stack, path);
      var after := ExpandLines(g, st, path, 0, stack + [path]);
      after.(emitted := if path in g.repeatable then after.emitted else after.emitted + {path},
             visited := after.visited + {path})
  }

  ghost function ExpandLines(g: Graph, st: State, path: File, i: nat, stack: seq<File>): State
    requires g.Sound() && path in g.content && i <= |g.content[path]|
    decreases Free(g, stack), 2, |g.content[path]| - i
  {
    if i == |g.content[path]| then st
    else
      match g.content[path][i]
      case Own => ExpandLines(g, st.(text := st.text + [Line(path, i)]), path, i + 1, stack)
      case Include(t) =>
        assert g.TargetsInside(path);
        ExpandLines(g, Expand(g, st.(text := st.text + [Marker(t)]), t, stack), path, i + 1, stack)
  }

  // ----- what is kept ---------------------------------------------------------------------------------------------

  /** Files on the stack are unfinished; finished files are among the expanded ones. */
  ghost predicate Consistent(g: Graph, st: State, stack: seq<File>) {
    && st.emitted <= st.visited && st.emitted !! SetOf(stack) && st.emitted !! g.repeatable
    && forall f :: f in st.visited && f !in g.repeatable && f !in stack ==> f in st.emitted
  }

  /** Everything an expanded file includes is expanded too, or still on the stack. */
  ghost predicate ClosedUpTo(g: Graph, visited: set<File>, stack: set<File>) {
    forall f, t :: f in visited && g.Includes(f, t) ==> t in visited || t in stack
  }

  function Count(text: seq<Token>, t: Token): nat {
    if text == [] then 0 else Count(text[..|text| - 1], t) + if text[|text| - 1] == t then 1 else 0
  }

  lemma CountOne(text: seq<Token>, x: Token, t: Token)
    ensures Count(text + [x], t) == Count(text, t) + if x == t then 1 else 0
  {
    assert (text + [x])[..|text|] == text;
  }

  /** How often line i of file f stands in the text when f is finished or not. */
  ghost predicate CountedOnce(g: Graph, st: State, f: File, i: nat) {
    Count(st.text, Line(f, i)) == if f in st.emitted && g.OwnLine(f, i) then 1 else 0
  }

  /** Finished and untouched files are counted right; files on the stack are not looked at here. */
  ghost predicate OnceOnly(g: Graph, st: State, stack: seq<File>) {
    forall f, i: nat :: f !in g.repeatable && f !in stack ==> CountedOnce(g, st, f, i)
  }

  /** Every expanded file's own lines are in the text. */
  ghost predicate Present(g: Graph, st: State) {
    forall f, i: nat :: f in st.visited && g.OwnLine(f, i) ==> Line(f, i) in st.text
  }

  /** What holds between calls of expand_file. */
  ghost predicate Inv(g: Graph, st: State, stack: seq<File>) {
    && Consistent(g, st, stack) && OnceOnly(g, st, stack) && ClosedUpTo(g, st.visited, SetOf(stack)) && Present(g, st)
  }

  /** Nothing is lost, and no line of a file on the stack is written by a file above it. */
  ghost predicate Grows(st: State, st': State, stack: seq<File>) {
    && st.emitted <= st'.emitted && st.visited <= st'.visited && st.text <= st'.text
    && forall f, i: nat :: f in stack ==> Count(st'.text, Line(f, i)) == Count(st.text, Line(f, i))
  }

  /** What the lines of a file from i on add: each own line once more, and its headers expanded. */
  ghost predicate LinesDone(g: Graph, st: State, st': State, path: File, i: nat, stack: seq<File>)
    requires path in g.content
  {
    && st.emitted <= st'.emitted && st.visited <= st'.visited && st.text <= st'.text
    && (forall f, k: nat :: f in stack && f != path ==> Count(st'.text, Line(f, k)) == Count(st.text, Line(f, k)))
    && (forall k: nat :: Count(st'.text, Line(path, k)) == Count(st.text, Line(path, k)) + if i <= k && g.OwnLine(path, k) then 1 else 0)
    && (forall k: nat :: i <= k && g.OwnLine(path, k) ==> Line(path, k) in st'.text)
    && (forall k :: i <= k < |g.content[path]| && g.content[path][k].Include? ==>
          g.content[path][k].target in st'.visited || g.content[path][k].target in stack)
  }

  /** A token that is no line of an untouched file changes nothing that matters. */
  lemma AddToken(g: Graph, st: State, x: Token, stack: seq<File>)
    requires Inv(g, st, stack) && (x.Line? ==> x.file in stack)
    ensures Inv(g, st.(text := st.text + [x]), stack)
  {
    var st' := st.(text := st.text + [x]);
    forall f, i: nat
      ensures Count(st'.text, Line(f, i)) == Count(st.text, Line(f, i)) + if x == Line(f, i) then 1 else 0
    {
      CountOne(st.text, x, Line(f, i));
    }
    forall f, i: nat | f !in g.repeatable && f !in stack
      ensures CountedOnce(g, st', f, i)
    {
      assert CountedOnce(g, st, f, i);
    }
    forall f, i: nat | f in st'.visited && g.OwnLine(f, i)
      ensures Line(f, i) in st'.text
    {
      assert Line(f, i) in st.text;
    }
  }

  lemma CountsAfterToken(text: seq<Token>, x: Token)
    ensures forall f: File, i: nat :: Count(text + [x], Line(f, i)) == Count(text, Line(f, i)) + if x == Line(f, i) then 1 else 0
  {
    forall f: File, i: nat
      ensures Count(text + [x], Line(f, i)) == Count(text, Line(f, i)) + if x == Line(f, i) then 1 else 0
    {
      CountOne(text, x, Line(f, i));
    }
  }

  /** Entering a file: it joins the stack. */
  lemma EnterFile(g: Graph, st: State, path: File, stack: seq<File>)
    requires Inv(g, st, stack) && path !in stack && (path in g.repeatable || path !in st.emitted)
    ensures Inv(g, st, stack + [path])
    ensures path !in g.repeatable ==> forall k: nat :: Count(st.text, Line(path, k)) == 0
  {
    var more := stack + [path];
    assert forall f :: f in more <==> f in stack || f == path;
    if path !in g.repeatable {
      forall k: nat
        ensures Count(st.text, Line(path, k)) == 0
      {
        assert CountedOnce(g, st, path, k);
      }
    }
    forall f, i: nat | f !in g.repeatable && f !in more
      ensures CountedOnce(g, st, f, i)
    {
    }
  }

  /** Leaving a file: it is finished. */
  lemma LeaveFile(g: Graph, st: State, after: State, path: File, stack: seq<File>)
    requires path in g.content && Inv(g, st, stack) && path !in stack && (path in g.repeatable || path !in st.emitted)
    requires Inv(g, after, stack + [path]) && LinesDone(g, st, after, path, 0, stack + [path])
    requires path !in g.repeatable ==> forall k: nat :: Count(st.text, Line(path, k)) == 0
    ensures
      var st' := after.(emitted := if path in g.repeatable then after.emitted else after.emitted + {path},
                        visited := after.visited + {path});
      Inv(g, st', stack) && Grows(st, st', stack) && path in st'.visited
  {
    var more := stack + [path];
    assert forall f :: f in more <==> f in stack || f == path;
    var st' := after.(emitted := if path in g.repeatable then after.emitted else after.emitted + {path},
                      visited := after.visited + {path});
    assert ClosedUpTo(g, st'.visited, SetOf(stack)) by {
      forall f, t | f in st'.visited && g.Includes(f, t)
        ensures t in st'.visited || t in SetOf(stack)
      {
        if f == path {
          var k :| 0 <= k < |g.content[path]| && g.content[path][k] == Include(t);
        } else {
          assert t in after.visited || t in SetOf(more);
        }
      }
    }
    forall f, i: nat | f !in g.repeatable && f !in stack
      ensures CountedOnce(g, st', f, i)
    {
      if f != path {
        assert CountedOnce(g, after, f, i);
      }
    }
    forall f, i: nat | f in st'.visited && g.OwnLine(f, i)
      ensures Line(f, i) in st'.text
    {
    }
  }

  /** One own line is written. */
  lemma OwnLineDone(g: Graph, st: State, st': State, path: File, i: nat, stack: seq<File>)
    requires path in g.content && i < |g.content[path]| && g.content[path][i].Own?
    requires LinesDone(g, st.(text := st.text + [Line(path, i)]), st', path, i + 1, stack)
    ensures LinesDone(g, st, st', path, i, stack)
  {
    CountsAfterToken(st.text, Line(path, i));
    var mid := st.text + [Line(path, i)];
    assert mid[|st.text|] == Line(path, i);
    assert st.text <= mid <= st'.text;
  }

  /** One include is expanded. */
  lemma IncludeDone(g: Graph, st: State, mid: State, st': State, path: File, i: nat, stack: seq<File>)
    requires path in g.content && i < |g.content[path]| && g.content[path][i].Include? && path in stack
    requires Grows(st.(text := st.text + [Marker(g.content[path][i].target)]), mid, stack)
    requires g.content[path][i].target in mid.visited || g.content[path][i].target in stack
    requires LinesDone(g, mid, st', path, i + 1, stack)
    ensures LinesDone(g, st, st', path, i, stack)
  {
    CountsAfterToken(st.text, Marker(g.content[path][i].target));
    assert st.text <= st.text + [Marker(g.content[path][i].target)] <= mid.text <= st'.text;
  }

  /** expand_file keeps the invariant and expands the file, unless it is on the stack. */
  lemma {:induction false} ExpandKeeps(g: Graph, st: State, path: File, stack: seq<File>)
    requires g.Sound() && path in g.content && Inv(g, st, stack)
    ensures
      var st' := Expand(g, st, path, stack);
      Inv(g, st', stack) && Grows(st, st', stack) && (path in st'.visited || path in stack)
    decreases Free(g, stack), 1, 0
  {
    hide Inv, Count, CountedOnce;
    if path !in g.repeatable && path in st.emitted {
      assert path in st.visited by { EmittedVisited(g, st, stack); }
    } else if path in stack {
      AddToken(g, st, Skipped(path), stack);
      CountsAfterToken(st.text, Skipped(path));
    } else {
      EnterFile(g, st, path, stack);
      StackGrows(g, stack, path);
      LinesKeep(g, st, path, 0, stack + [path]);
      hide Grows, LinesDone;
      LeaveFile(g, st, ExpandLines(g, st, path, 0, stack + [path]), path, stack);
    }
  }

  lemma EmittedVisited(g: Graph, st: State, stack: seq<File>)
    requires Inv(g, st, stack)
    ensures st.emitted <= st.visited
  {
  }

  lemma {:induction false} LinesKeep(g: Graph, st: State, path: File, i: nat, stack: seq<File>)
    requires g.Sound() && path in g.content && i <= |g.content[path]| && Inv(g, st, stack) && path in stack
    ensures
      var st' := ExpandLines(g, st, path, i, stack);
      Inv(g, st', stack) && LinesDone(g, st, st', path, i, stack)
    decreases Free(g, stack), 2, |g.content[path]| - i
  {
    hide Inv, Count, CountedOnce;
    if i < |g.content[path]| {
      hide LinesDone, Grows;
      match g.content[path][i]
      case Own =>
        AddToken(g, st, Line(path, i), stack);
        LinesKeep(g, st.(text := st.text + [Line(path, i)]), path, i + 1, stack);
        OwnLineDone(g, st, ExpandLines(g, st, path, i, stack), path, i, stack);
      case Include(t) =>
        assert g.TargetsInside(path);
        var marked := st.(text := st.text + [Marker(t)]);
        AddToken(g, st, Marker(t), stack);
        ExpandKeeps(g, marked, t, stack);
        var mid := Expand(g, marked, t, stack);
        LinesKeep(g, mid, path, i + 1, stack);
        IncludeDone(g, st, mid, ExpandLines(g, st, path, i, stack), path, i, stack);
    }
  }

  // ----- the whole run --------------------------------------------------------------------------------------------------

  function Nothing(): State {
    State({}, {}, [])
  }

  /** The files that the generator expands one after the other, each under a heading. */
  ghost function ExpandAll(g: Graph, st: State, paths: seq<File>): State
    requires g.Sound() && forall k :: 0 <= k < |paths| ==> paths[k] in g.content
  {
    if paths == [] then st
    else
      var before := ExpandAll(g, st, paths[..|paths| - 1]);
      var path := paths[|paths| - 1];
      Expand(g, before.(text := before.text + [Section(path)]), path, [])
  }

  lemma {:induction false} AllKeep(g: Graph, paths: seq<File>)
    requires g.Sound() && forall k :: 0 <= k < |paths| ==> paths[k] in g.content
    ensures
      var st := ExpandAll(g, Nothing(), paths);
      Inv(g, st, []) && forall k :: 0 <= k < |paths| ==> paths[k] in st.visited
  {
    hide Inv, Grows;
    if paths == [] {
      NothingYet(g);
    } else {
      var rest, path := paths[..|paths| - 1], paths[|paths| - 1];
      AllKeep(g, rest);
      var before := ExpandAll(g, Nothing(), rest);
      AddToken(g, before, Section(path), []);
      ExpandKeeps(g, before.(text := before.text + [Section(path)]), path, []);
      VisitedGrows(before.(text := before.text + [Section(path)]), ExpandAll(g, Nothing(), paths));
      forall k | 0 <= k < |paths|
        ensures paths[k] in ExpandAll(g, Nothing(), paths).visited
      {
        if k < |rest| {
          assert rest[k] == paths[k];
        }
      }
    }
  }

  lemma VisitedGrows(st: State, st': State)
    requires Grows(st, st', [])
    ensures st.visited <= st'.visited
  {
  }

  lemma NothingYet(g: Graph)
    ensures Inv(g, Nothing(), [])
  {
  }

  /** A chain of includes. */
  ghost predicate IsPath(g: Graph, p: seq<File>) {
    |p| > 0 && forall k :: 0 <= k < |p| - 1 ==> g.Includes(p[k], p[k + 1])
  }

  lemma {:induction false} ClosedReaches(g: Graph, visited: set<File>, p: seq<File>)
    requires ClosedUpTo(g, visited, {}) && IsPath(g, p) && p[0] in visited
    ensures p[|p| - 1] in visited
  {
    if |p| > 1 {
      var q := p[..|p| - 1];
      assert IsPath(g, q) by {
        forall k | 0 <= k < |q| - 1
          ensures g.Includes(q[k], q[k + 1])
        {
          assert g.Includes(p[k], p[k + 1]);
        }
      }
      ClosedReaches(g, visited, q);
      assert g.Includes(p[|p| - 2], p[|p| - 1]);
    }
  }

  /**
   * For every include graph, cyclic or not: each own line of a non-repeatable file is in the output exactly once if
   * the file was reached and never otherwise; and all own lines of every file reachable from the roots are there.
   */
  lemma OnceAndComplete(g: Graph, paths: seq<File>, f: File, i: nat, p: seq<File>)
    requires g.Sound() && (forall k :: 0 <= k < |paths| ==> paths[k] in g.content) && g.OwnLine(f, i)
    ensures
      var st := ExpandAll(g, Nothing(), paths);
      && (f !in g.repeatable ==> Count(st.text, Line(f, i)) == if f in st.visited then 1 else 0)
      && (IsPath(g, p) && p[0] in paths && p[|p| - 1] == f ==> f in st.visited && Line(f, i) in st.text)
  {
    hide ExpandAll, Count;
    AllKeep(g, paths);
    var st := ExpandAll(g, Nothing(), paths);
    if f !in g.repeatable {
      assert CountedOnce(g, st, f, i);
    }
    if IsPath(g, p) && p[0] in paths && p[|p| - 1] == f {
      assert SetOf([]) == {};
      ClosedReaches(g, st.visited, p);
    }
  }

  // ----- only what is reached ---------------------------------------------------------------------------------------------

  ghost predicate Reaches(g: Graph, f: File, t: File) {
    exists p :: IsPath(g, p) && p[0] == f && p[|p| - 1] == t
  }

  lemma ReachesItself(g: Graph, f: File)
    ensures Reaches(g, f, f)
  {
    assert IsPath(g, [f]) && [f][0] == f;
  }

  lemma ReachesThrough(g: Graph, f: File, h: File, t: File)
    requires g.Includes(f, h) && Reaches(g, h, t)
    ensures Reaches(g, f, t)
  {
    var p :| IsPath(g, p) && p[0] == h && p[|p| - 1] == t;
    var q := [f] + p;
    assert IsPath(g, q) by {
      forall k | 0 <= k < |q| - 1
        ensures g.Includes(q[k], q[k + 1])
      {
        if k > 0 {
          assert g.Includes(p[k - 1], p[k]);
        }
      }
    }
    assert q[0] == f && q[|q| - 1] == t;
  }

  ghost predicate NoLineOf(f: File, text: seq<Token>) {
    forall q :: 0 <= q < |text| && text[q].Line? ==> text[q].file != f
  }

  /** Expanding a file writes no line of a file that it does not reach. */
  lemma {:induction false} ExpandAvoids(g: Graph, st: State, path: File, stack: seq<File>, f: File)
    requires g.Sound() && path in g.content && NoLineOf(f, st.text) && !Reaches(g, path, f)
    ensures NoLineOf(f, Expand(g, st, path, stack).text)
    decreases Free(g, stack), 1, 0
  {
    if (path in g.repeatable || path !in st.emitted) && path !in stack {
      StackGrows(g, stack, path);
      LinesAvoid(g, st, path, 0, stack + [path], f);
    }
  }

  lemma {:induction false} LinesAvoid(g: Graph, st: State, path: File, i: nat, stack: seq<File>, f: File)
    requires g.Sound() && path in g.content && i <= |g.content[path]| && NoLineOf(f, st.text) && !Reaches(g, path, f)
    ensures NoLineOf(f, ExpandLines(g, st, path, i, stack).text)
    decreases Free(g, stack), 2, |g.content[path]| - i
  {
    hide Reaches;
    if i < |g.content[path]| {
      match g.content[path][i]
      case Own =>
        ReachesItself(g, path);
        LinesAvoid(g, st.(text := st.text + [Line(path, i)]), path, i + 1, stack, f);
      case Include(t) =>
        assert g.TargetsInside(path);
        assert g.Includes(path, t);
        if Reaches(g, t, f) {
          ReachesThrough(g, path, t, f);
        }
        var marked := st.(text := st.text + [Marker(t)]);
        ExpandAvoids(g, marked, t, stack, f);
        LinesAvoid(g, Expand(g, marked, t, stack), path, i + 1, stack, f);
    }
  }

  lemma {:induction false} AllAvoid(g: Graph, paths: seq<File>, f: File)
    requires g.Sound() && forall k :: 0 <= k < |paths| ==> paths[k] in g.content
    requires forall k :: 0 <= k < |paths| ==> !Reaches(g, paths[k], f)
    ensures NoLineOf(f, ExpandAll(g, Nothing(), paths).text)
  {
    hide Reaches;
    if paths != [] {
      var rest, path := paths[..|paths| - 1], paths[|paths| - 1];
      AllAvoid(g, rest, f);
      var before := ExpandAll(g, Nothing(), rest);
      ExpandAvoids(g, before.(text := before.text + [Section(path)]), path, [], f);
    }
  }

  /** An own line is in the output exactly when its file is reached from one of the files that are expanded. */
  lemma WrittenExactly(g: Graph, paths: seq<File>, f: File, i: nat)
    requires g.Sound() && (forall k :: 0 <= k < |paths| ==> paths[k] in g.content) && g.OwnLine(f, i)
    ensures Line(f, i) in ExpandAll(g, Nothing(), paths).text <==> exists r :: r in paths && Reaches(g, r, f)
  {
    hide ExpandAll, Count;
    if r :| r in paths && Reaches(g, r, f) {
      var p :| IsPath(g, p) && p[0] == r && p[|p| - 1] == f;
      OnceAndComplete(g, paths, f, i, p);
    } else {
      AllAvoid(g, paths, f);
    }
  }

  /** The headings of a text, in order. */
  function Sections(text: seq<Token>): seq<File> {
    if text == [] then []
    else Sections(text[..|text| - 1]) + match text[|text| - 1] { case Section(f) => [f] case _ => [] }
  }

  lemma OneMoreToken(text: seq<Token>, x: Token)
    ensures Sections(text + [x]) == Sections(text) + match x { case Section(f) => [f] case _ => [] }
  {
    assert (text + [x])[..|text|] == text;
  }

  lemma {:induction false} ExpandHasNoSections(g: Graph, st: State, path: File, stack: seq<File>)
    requires g.Sound() && path in g.content
    ensures Sections(Expand(g, st, path, stack).text) == Sections(st.text)
    decreases Free(g, stack), 1, 0
  {
    hide Sections;
    if (path in g.repeatable || path !in st.emitted) && path !in stack {
      StackGrows(g, stack, path);
      LinesHaveNoSections(g, st, path, 0, stack + [path]);
    } else {
      OneMoreToken(st.text, Skipped(path));
    }
  }

  lemma {:induction false} LinesHaveNoSections(g: Graph, st: State, path: File, i: nat, stack: seq<File>)
    requires g.Sound() && path in g.content && i <= |g.content[path]|
    ensures Sections(ExpandLines(g, st, path, i, stack).text) == Sections(st.text)
    decreases Free(g, stack), 2, |g.content[path]| - i
  {
    hide Sections;
    if i < |g.content[path]| {
      match g.content[path][i]
      case Own =>
        OneMoreToken(st.text, Line(path, i));
        LinesHaveNoSections(g, st.(text := st.text + [Line(path, i)]), path, i + 1, stack);
      case Include(t) =>
        assert g.TargetsInside(path);
        OneMoreToken(st.text, Marker(t));
        var marked := st.(text := st.text + [Marker(t)]);
        ExpandHasNoSections(g, marked, t, stack);
        LinesHaveNoSections(g, Expand(g, marked, t, stack), path, i + 1, stack);
    }
  }

  /** The headings are the expanded files in order. */
  lemma {:induction false} SectionsInOrder(g: Graph, paths: seq<File>)
    requires g.Sound() && forall k :: 0 <= k < |paths| ==> paths[k] in g.content
    ensures Sections(ExpandAll(g, Nothing(), paths).text) == paths
  {
    hide Sections, Expand;
    if paths == [] {
      assert Sections([]) == [] by { NoSections(); }
    } else {
      var rest, path := paths[..|paths| - 1], paths[|paths| - 1];
      SectionsInOrder(g, rest);
      var before := ExpandAll(g, Nothing(), rest);
      OneMoreToken(before.text, Section(path));
      ExpandHasNoSections(g, before.(text := before.text + [Section(path)]), path, []);
      assert rest + [path] == paths;
    }
  }

  lemma NoSections()
    ensures Sections([]) == []
  {
  }

  // ----- order ----------------------------------------------------------------------------------------------------------

  /** All own lines of a file are in a text. */
  ghost predicate AllLinesIn(g: Graph, f: File, text: seq<Token>) {
    forall k: nat :: g.OwnLine(f, k) ==> Line(f, k) in text
  }

  /** Line j of file f comes after all lines of the headers that f includes before line j. */
  ghost predicate HeadersBefore(g: Graph, f: File, j: nat, text: seq<Token>)
  {
    f in g.content && forall i :: 0 <= i < j && i < |g.content[f]| && g.content[f][i].Include? ==>
      AllLinesIn(g, g.content[f][i].target, text)
  }

  ghost predicate Ordered(g: Graph, text: seq<Token>) {
    forall q :: 0 <= q < |text| && text[q].Line? ==> HeadersBefore(g, text[q].file, text[q].index, text[..q])
  }

  lemma OrderedAppend(g: Graph, text: seq<Token>, x: Token)
    requires Ordered(g, text) && (x.Line? ==> HeadersBefore(g, x.file, x.index, text))
    ensures Ordered(g, text + [x])
  {
    var u := text + [x];
    forall q | 0 <= q < |u| && u[q].Line?
      ensures HeadersBefore(g, u[q].file, u[q].index, u[..q])
    {
      if q < |text| {
        assert u[..q] == text[..q];
      } else {
        assert u[..q] == text;
      }
    }
  }

  lemma VisitedLines(g: Graph, st: State, stack: seq<File>, f: File)
    requires Inv(g, st, stack) && f in st.visited
    ensures AllLinesIn(g, f, st.text)
  {
  }

  lemma OrderedPrefix(g: Graph, text: seq<Token>, more: seq<Token>)
    requires text <= more && Ordered(g, more)
    ensures Ordered(g, text)
  {
    forall q | 0 <= q < |text| && text[q].Line?
      ensures HeadersBefore(g, text[q].file, text[q].index, text[..q])
    {
      assert text[q] == more[q] && text[..q] == more[..q];
    }
  }

  ghost predicate OwnLineFrom(g: Graph, f: File, i: nat) {
    exists j: nat :: i <= j && g.OwnLine(f, j)
  }

  /** The skipped include of t at line i of f matters: t still owes lines, and f has lines of its own to come. */
  ghost predicate Harmful(g: Graph, text: seq<Token>, f: File, i: nat, t: File, stack: seq<File>) {
    t in stack && !AllLinesIn(g, t, text) && OwnLineFrom(g, f, i + 1)
  }

  /** No skipped include matters while expand_file works on a file. */
  ghost predicate Calm(g: Graph, st: State, path: File, stack: seq<File>)
    requires g.Sound() && path in g.content
    decreases Free(g, stack), 1, 0
  {
    if (path !in g.repeatable && path in st.emitted) || path in stack then true
    else
      StackGrows(g, stack, path);
      CalmLines(g, st, path, 0, stack + [path])
  }

  ghost predicate CalmLines(g: Graph, st: State, path: File, i: nat, stack: seq<File>)
    requires g.Sound() && path in g.content && i <= |g.content[path]|
    decreases Free(g, stack), 2, |g.content[path]| - i
  {
    if i == |g.content[path]| then true
    else
      match g.content[path][i]
      case Own => CalmLines(g, st.(text := st.text + [Line(path, i)]), path, i + 1, stack)
      case Include(t) =>
        assert g.TargetsInside(path);
        var marked := st.(text := st.text + [Marker(t)]);
        && !Harmful(g, st.text, path, i, t, stack) && Calm(g, marked, t, stack)
        && CalmLines(g, Expand(g, marked, t, stack), path, i + 1, stack)
  }

  /** Where no skipped include matters, expand_file keeps the order. */
  lemma {:induction false} ExpandOrders(g: Graph, st: State, path: File, stack: seq<File>)
    requires g.Sound() && path in g.content && Inv(g, st, stack) && Ordered(g, st.text) && Calm(g, st, path, stack)
    ensures Ordered(g, Expand(g, st, path, stack).text)
    decreases Free(g, stack), 1, 0
  {
    hide Inv, Count, CountedOnce, Ordered, Grows;
    if path in g.repeatable || path !in st.emitted {
      if path in stack {
        OrderedAppend(g, st.text, Skipped(path));
      } else {
        EnterFile(g, st, path, stack);
        StackGrows(g, stack, path);
        LinesOrder(g, st, path, 0, stack + [path]);
      }
    }
  }

  lemma {:induction false} LinesOrder(g: Graph, st: State, path: File, i: nat, stack: seq<File>)
    requires g.Sound() && path in g.content && i <= |g.content[path]| && Inv(g, st, stack) && path in stack
    requires Ordered(g, st.text) && CalmLines(g, st, path, i, stack)
    requires OwnLineFrom(g, path, i) ==> HeadersBefore(g, path, i, st.text)
    ensures Ordered(g, ExpandLines(g, st, path, i, stack).text)
    decreases Free(g, stack), 2, |g.content[path]| - i
  {
    hide Inv, Count, CountedOnce, Ordered, AllLinesIn, Grows;
    if i < |g.content[path]| {
      match g.content[path][i]
      case Own =>
        var next := st.(text := st.text + [Line(path, i)]);
        assert OwnLineFrom(g, path, i) by { assert g.OwnLine(path, i); }
        AddToken(g, st, Line(path, i), stack);
        OrderedAppend(g, st.text, Line(path, i));
        StillBefore(g, path, i, st.text, next.text);
        LinesOrder(g, next, path, i + 1, stack);
      case Include(t) =>
        assert g.TargetsInside(path);
        var marked := st.(text := st.text + [Marker(t)]);
        AddToken(g, st, Marker(t), stack);
        OrderedAppend(g, st.text, Marker(t));
        ExpandKeeps(g, marked, t, stack);
        ExpandOrders(g, marked, t, stack);
        var mid := Expand(g, marked, t, stack);
        TextGrows(marked, mid, stack);
        if OwnLineFrom(g, path, i + 1) {
          assert OwnLineFrom(g, path, i);
          StillBefore(g, path, i, st.text, mid.text);
          if t in stack {
            StillIn(g, t, st.text, mid.text);
          } else {
            VisitedLines(g, mid, stack, t);
          }
        }
        LinesOrder(g, mid, path, i + 1, stack);
    }
  }

  lemma TextGrows(st: State, st': State, stack: seq<File>)
    requires Grows(st, st', stack)
    ensures st.text <= st'.text
  {
  }

  lemma StillIn(g: Graph, f: File, text: seq<Token>, more: seq<Token>)
    requires AllLinesIn(g, f, text) && text <= more
    ensures AllLinesIn(g, f, more)
  {
  }

  lemma StillBefore(g: Graph, f: File, j: nat, text: seq<Token>, more: seq<Token>)
    requires HeadersBefore(g, f, j, text) && text <= more
    ensures HeadersBefore(g, f, j, more)
  {
    forall i | 0 <= i < j && i < |g.content[f]| && g.content[f][i].Include?
      ensures AllLinesIn(g, g.content[f][i].target, more)
    {
      assert AllLinesIn(g, g.content[f][i].target, text);
    }
  }

  // ----- disorder -------------------------------------------------------------------------------------------------------

  /** Line j of the file is written with line k of t still missing. */
  ghost predicate WrittenWithout(text: seq<Token>, f: File, j: nat, t: File, k: nat) {
    exists q :: 0 <= q < |text| && text[q] == Line(f, j) && Line(t, k) !in text[..q]
  }

  lemma {:induction false} CountZero(text: seq<Token>, x: Token)
    ensures Count(text, x) == 0 <==> x !in text
  {
    if text != [] {
      var rest := text[..|text| - 1];
      CountZero(rest, x);
      assert text == rest + [text[|text| - 1]];
    }
  }

  /** While a file is on the stack, the files above it write none of its lines. */
  lemma {:induction false} LateLine(g: Graph, st: State, path: File, i: nat, stack: seq<File>, j: nat, t: File, k: nat)
    requires g.Sound() && path in g.content && i <= |g.content[path]| && Inv(g, st, stack) && path in stack && t in stack
    requires i <= j && g.OwnLine(path, j) && (t == path ==> k == j) && Line(t, k) !in st.text
    ensures WrittenWithout(ExpandLines(g, st, path, i, stack).text, path, j, t, k)
    decreases |g.content[path]| - i
  {
    hide Inv, Count, CountedOnce, Grows;
    var end := ExpandLines(g, st, path, i, stack);
    match g.content[path][i]
    case Own =>
      var next := st.(text := st.text + [Line(path, i)]);
      AddToken(g, st, Line(path, i), stack);
      if i == j {
        LinesKeep(g, next, path, i + 1, stack);
        LinesGrow(g, next, end, path, i + 1, stack);
        assert end.text[|st.text|] == Line(path, j) && end.text[..|st.text|] == st.text;
      } else {
        LateLine(g, next, path, i + 1, stack, j, t, k);
      }
    case Include(h) =>
      assert g.TargetsInside(path);
      var marked := st.(text := st.text + [Marker(h)]);
      AddToken(g, st, Marker(h), stack);
      ExpandKeeps(g, marked, h, stack);
      var mid := Expand(g, marked, h, stack);
      StillMissing(marked, mid, stack, t, k);
      LateLine(g, mid, path, i + 1, stack, j, t, k);
  }

  lemma LinesGrow(g: Graph, st: State, st': State, path: File, i: nat, stack: seq<File>)
    requires path in g.content && LinesDone(g, st, st', path, i, stack)
    ensures st.text <= st'.text
  {
  }

  lemma StillMissing(st: State, st': State, stack: seq<File>, t: File, k: nat)
    requires Grows(st, st', stack) && t in stack && Line(t, k) !in st.text
    ensures Line(t, k) !in st'.text
  {
    CountZero(st.text, Line(t, k));
    CountZero(st'.text, Line(t, k));
  }

  /** One skipped include that matters, and the order is lost. */
  lemma {:induction false} ExpandDisorders(g: Graph, st: State, path: File, stack: seq<File>)
    requires g.Sound() && path in g.content && Inv(g, st, stack) && !Calm(g, st, path, stack)
    ensures !Ordered(g, Expand(g, st, path, stack).text)
    decreases Free(g, stack), 1, 0
  {
    hide Inv, Count, CountedOnce, Ordered;
    EnterFile(g, st, path, stack);
    StackGrows(g, stack, path);
    LinesDisorder(g, st, path, 0, stack + [path]);
  }

  lemma {:induction false} LinesDisorder(g: Graph, st: State, path: File, i: nat, stack: seq<File>)
    requires g.Sound() && path in g.content && i <= |g.content[path]| && Inv(g, st, stack) && path in stack
    requires !CalmLines(g, st, path, i, stack) && HeldUpTo(g, path, i, st.text)
    ensures !Ordered(g, ExpandLines(g, st, path, i, stack).text)
    decreases Free(g, stack), 2, |g.content[path]| - i
  {
    hide Inv, Count, CountedOnce, Ordered, Grows, Harmful, WrittenWithout;
    match g.content[path][i]
    case Own =>
      AddToken(g, st, Line(path, i), stack);
      assert HeldUpTo(g, path, i + 1, st.text + [Line(path, i)]);
      LinesDisorder(g, st.(text := st.text + [Line(path, i)]), path, i + 1, stack);
    case Include(t) =>
      assert g.TargetsInside(path);
      var marked := st.(text := st.text + [Marker(t)]);
      AddToken(g, st, Marker(t), stack);
      ExpandKeeps(g, marked, t, stack);
      var mid, end := Expand(g, marked, t, stack), ExpandLines(g, st, path, i, stack);
      TextGrows(marked, mid, stack);
      StillHeld(g, path, i, st.text, mid.text);
      if Harmful(g, st.text, path, i, t, stack) {
        var j, k := Harm(g, st.text, path, i, t, stack);
        StillMissing(marked, mid, stack, t, k);
        LateLine(g, mid, path, i + 1, stack, j, t, k);
        Misplaced(g, end.text, path, i, j, t, k);
      } else if !Calm(g, marked, t, stack) {
        ExpandDisorders(g, marked, t, stack);
        LinesKeep(g, mid, path, i + 1, stack);
        LinesGrow(g, mid, end, path, i + 1, stack);
        if Ordered(g, end.text) {
          OrderedPrefix(g, mid.text, end.text);
        }
      } else {
        LinesDisorder(g, mid, path, i + 1, stack);
      }
  }

  /** The line that comes too early, and a line it should have waited for. */
  lemma Harm(g: Graph, text: seq<Token>, f: File, i: nat, t: File, stack: seq<File>) returns (j: nat, k: nat)
    requires Harmful(g, text, f, i, t, stack) && HeldUpTo(g, f, i, text) && !g.OwnLine(f, i)
    ensures t in stack && i < j && g.OwnLine(f, j) && g.OwnLine(t, k) && Line(t, k) !in text && (t == f ==> k == j)
  {
    k :| g.OwnLine(t, k) && Line(t, k) !in text;
    if t == f {
      j := k;
    } else {
      j :| i + 1 <= j && g.OwnLine(f, j);
    }
  }

  /** The own lines of a file before line i are in the text. */
  ghost predicate HeldUpTo(g: Graph, f: File, i: nat, text: seq<Token>) {
    forall k: nat :: k < i && g.OwnLine(f, k) ==> Line(f, k) in text
  }

  lemma StillHeld(g: Graph, f: File, i: nat, text: seq<Token>, more: seq<Token>)
    requires HeldUpTo(g, f, i, text) && text <= more && !g.OwnLine(f, i)
    ensures HeldUpTo(g, f, i + 1, more)
  {
    forall k: nat | k < i + 1 && g.OwnLine(f, k)
      ensures Line(f, k) in more
    {
      assert k != i && Line(f, k) in text;
    }
  }

  lemma Misplaced(g: Graph, text: seq<Token>, f: File, i: nat, j: nat, t: File, k: nat)
    requires f in g.content && i < |g.content[f]| && g.content[f][i] == Include(t) && i < j
    requires g.OwnLine(t, k) && WrittenWithout(text, f, j, t, k)
    ensures !Ordered(g, text)
  {
    var q :| 0 <= q < |text| && text[q] == Line(f, j) && Line(t, k) !in text[..q];
    assert !HeadersBefore(g, f, j, text[..q]) by {
      assert !AllLinesIn(g, t, text[..q]);
    }
  }

  // ----- order of the whole run ---------------------------------------------------------------------------------------

  /** No skipped include matters in the whole run. */
  ghost predicate CalmRun(g: Graph, paths: seq<File>)
    requires g.Sound() && forall k :: 0 <= k < |paths| ==> paths[k] in g.content
  {
    paths == [] ||
    var rest, path := paths[..|paths| - 1], paths[|paths| - 1];
    var before := ExpandAll(g, Nothing(), rest);
    CalmRun(g, rest) && Calm(g, before.(text := before.text + [Section(path)]), path, [])
  }

  /**
   * For every include graph, cyclic or not: each line stands after all lines of the headers its file includes before
   * it, exactly when the run meets no include of a file that is still open and owes lines, followed in the including
   * file by a line of its own.
   */
  lemma {:induction false} OrderedExactly(g: Graph, paths: seq<File>)
    requires g.Sound() && forall k :: 0 <= k < |paths| ==> paths[k] in g.content
    ensures Ordered(g, ExpandAll(g, Nothing(), paths).text) <==> CalmRun(g, paths)
  {
    hide Inv, HeadersBefore, Calm;
    if paths != [] {
      var rest, path := paths[..|paths| - 1], paths[|paths| - 1];
      OrderedExactly(g, rest);
      hide Ordered;
      AllKeep(g, rest);
      var before := ExpandAll(g, Nothing(), rest);
      var headed := before.(text := before.text + [Section(path)]);
      AddToken(g, before, Section(path), []);
      ExpandKeeps(g, headed, path, []);
      TextGrows(headed, Expand(g, headed, path, []), []);
      if !CalmRun(g, rest) {
        if Ordered(g, Expand(g, headed, path, []).text) {
          OrderedPrefix(g, before.text, Expand(g, headed, path, []).text);
        }
      } else if Calm(g, headed, path, []) {
        OrderedAppend(g, before.text, Section(path));
        ExpandOrders(g, headed, path, []);
      } else {
        ExpandDisorders(g, headed, path, []);
      }
    }
  }

  /** Includes go from higher to lower rank: there is no cycle. */
  ghost predicate Ranked(g: Graph, rank: File -> nat) {
    forall f, t :: g.Includes(f, t) ==> rank(t) < rank(f)
  }

  /** Without cycles no file is met on the stack. */
  lemma {:induction false} RankedIsCalm(g: Graph, rank: File -> nat, st: State, path: File, stack: seq<File>)
    requires g.Sound() && path in g.content && Ranked(g, rank) && forall s :: s in stack ==> rank(path) < rank(s)
    ensures Calm(g, st, path, stack)
    decreases Free(g, stack), 1, 0
  {
    if path in g.repeatable || path !in st.emitted {
      StackGrows(g, stack, path);
      RankedLines(g, rank, st, path, 0, stack + [path]);
    }
  }

  lemma {:induction false} RankedLines(g: Graph, rank: File -> nat, st: State, path: File, i: nat, stack: seq<File>)
    requires g.Sound() && path in g.content && i <= |g.content[path]| && Ranked(g, rank)
    requires forall s :: s in stack ==> rank(path) <= rank(s)
    ensures CalmLines(g, st, path, i, stack)
    decreases Free(g, stack), 2, |g.content[path]| - i
  {
    hide AllLinesIn, OwnLineFrom;
    if i < |g.content[path]| {
      match g.content[path][i]
      case Own => RankedLines(g, rank, st.(text := st.text + [Line(path, i)]), path, i + 1, stack);
      case Include(t) =>
        assert g.TargetsInside(path);
        assert g.Includes(path, t);
        var marked := st.(text := st.text + [Marker(t)]);
        RankedIsCalm(g, rank, marked, t, stack);
        RankedLines(g, rank, Expand(g, marked, t, stack), path, i + 1, stack);
    }
  }

  /**
   * For every acyclic include graph: wherever a line stands in the output, all lines of the headers its file
   * includes before that line stand earlier.
   */
  lemma {:induction false} HeadersComeFirst(g: Graph, rank: File -> nat, paths: seq<File>)
    requires g.Sound() && Ranked(g, rank) && forall k :: 0 <= k < |paths| ==> paths[k] in g.content
    ensures CalmRun(g, paths) && Ordered(g, ExpandAll(g, Nothing(), paths).text)
  {
    hide Ordered, Calm;
    if paths != [] {
      var rest, path := paths[..|paths| - 1], paths[|paths| - 1];
      HeadersComeFirst(g, rank, rest);
      var before := ExpandAll(g, Nothing(), rest);
      RankedIsCalm(g, rank, before.(text := before.text + [Section(path)]), path, []);
    }
    OrderedExactly(g, paths);
  }

  /** Two headers that include each other and then have a line of their own. */
  function Mutual(): (g: Graph)
    ensures g.content.Keys == {0, 1} && g.repeatable == {} && g.Sound()
    ensures g.content[0] == [Include(1), Own] && g.content[1] == [Include(0), Own]
  {
    var g := Graph(map[0 := [Include(1), Own], 1 := [Include(0), Own]], {});
    assert g.TargetsInside(0) && g.TargetsInside(1);
    g
  }

  /** The inner header, met while the outer one is open. */
  lemma ExpandInner(st: State)
    requires st.emitted == {}
    ensures Expand(Mutual(), st, 1, [0]).text == st.text + [Marker(0), Skipped(0), Line(1, 1)]
  {
    hide Mutual, Free;
    var g := Mutual();
    var marked := st.(text := st.text + [Marker(0)]);
    var skipped := marked.(text := marked.text + [Skipped(0)]);
    assert [0] + [1] == [0, 1];
    assert Expand(g, marked, 0, [0, 1]) == skipped;
    assert g.content[1][0] == Include(0) && g.content[1][1] == Own;
    var last := skipped.(text := skipped.text + [Line(1, 1)]);
    assert ExpandLines(g, last, 1, 2, [0, 1]) == last;
    assert ExpandLines(g, skipped, 1, 1, [0, 1]) == last;
    assert ExpandLines(g, st, 1, 0, [0, 1]) == last;
    assert last.text == st.text + [Marker(0), Skipped(0), Line(1, 1)];
  }

  lemma ExpandOuter(st: State)
    requires st.emitted == {}
    ensures Expand(Mutual(), st, 0, []).text ==
            st.text + [Marker(1), Marker(0), Skipped(0), Line(1, 1), Line(0, 1)]
  {
    hide Mutual, Free;
    var g := Mutual();
    var marked := st.(text := st.text + [Marker(1)]);
    ExpandInner(marked);
    var mid := Expand(g, marked, 1, [0]);
    assert [] + [0] == [0];
    assert g.content[0][0] == Include(1) && g.content[0][1] == Own;
    var last := mid.(text := mid.text + [Line(0, 1)]);
    assert ExpandLines(g, last, 0, 2, [0]) == last;
    assert ExpandLines(g, mid, 0, 1, [0]) == last;
    assert ExpandLines(g, st, 0, 0, [0]) == last;
  }

  /** On that cycle the inner header's line comes before the line of the outer header it includes. */
  lemma CycleLosesOrder()
    ensures ExpandAll(Mutual(), Nothing(), [0]).text ==
            [Section(0), Marker(1), Marker(0), Skipped(0), Line(1, 1), Line(0, 1)]
    ensures !Ordered(Mutual(), ExpandAll(Mutual(), Nothing(), [0]).text)
  {
    hide Mutual, Expand;
    var g := Mutual();
    var paths: seq<File> := [0];
    assert paths[..|paths| - 1] == [] && ExpandAll(g, Nothing(), []) == Nothing();
    assert [] + [Section(0)] == [Section(0)];
    var headed := State({}, {}, [Section(0)]);
    ExpandOuter(headed);
    assert ExpandAll(g, Nothing(), paths) == Expand(g, headed, 0, []);
    var text := ExpandAll(g, Nothing(), [0]).text;
    assert text == [Section(0), Marker(1), Marker(0), Skipped(0), Line(1, 1), Line(0, 1)];
    assert g.OwnLine(0, 1) && Line(0, 1) !in text[..4];
    assert !AllLinesIn(g, 0, text[..4]);
    assert g.content[1][0] == Include(0);
    assert !HeadersBefore(g, 1, 1, text[..4]);
    assert text[4] == Line(1, 1);
  }
}

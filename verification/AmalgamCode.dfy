/** The generator's object and loops, tied to the expansion they compute. */
module AmalgamCode {
  import opened Amalgam

  /** The headers a file includes directly, without the repeatable ones, in order. */
  function DirectIncludes(g: Graph, f: File, n: nat): (headers: seq<File>)
    requires f in g.content && n <= |g.content[f]|
  {
    if n == 0 then []
    else
      DirectIncludes(g, f, n - 1) +
      match g.content[f][n - 1]
      case Own => []
      case Include(t) => if t in g.repeatable then [] else [t]
  }

  /** Everything that is expanded: the extra headers, the direct includes of every source, then the sources. */
  function AllIncludes(g: Graph, sources: seq<File>): seq<File>
    requires forall k :: 0 <= k < |sources| ==> sources[k] in g.content
  {
    if sources == [] then []
    else
      var last := sources[|sources| - 1];
      AllIncludes(g, sources[..|sources| - 1]) + DirectIncludes(g, last, |g.content[last]|)
  }

  class Amalgamator {
    const g: Graph
    var emitted: set<File>
    var stack: seq<File>
    ghost var visited: set<File>

    constructor (g: Graph)
      ensures this.g == g && emitted == {} && stack == [] && visited == {}
    {
      this.g := g;
      emitted := {};
      stack := [];
      visited := {};
    }

    /** The state of the expansion when the given text has been produced. */
    ghost function At(text: seq<Token>): State
      reads this
    {
      State(emitted, visited, text)
    }

    method DirectHeaders(path: File) returns (headers: seq<File>)
      requires path in g.content
      ensures headers == DirectIncludes(g, path, |g.content[path]|)
    {
      headers := [];
      var lines := g.content[path];
      for i := 0 to |lines|
        invariant headers == DirectIncludes(g, path, i)
      {
        if lines[i].Include? && lines[i].target !in g.repeatable {
          headers := headers + [lines[i].target];
        }
      }
    }

    /** Terminates on every graph: the files not on the stack get fewer. */
    method ExpandFile(path: File, ghost text: seq<Token>) returns (result: seq<Token>)
      requires g.Sound() && path in g.content
      modifies this
      ensures stack == old(stack)
      ensures At(text + result) == Expand(g, old(At(text)), path, old(stack))
      decreases Free(g, stack), 1, 0
    {
      var repeatable := path in g.repeatable;
      if !repeatable && path in emitted {
        assert text + [] == text;
        return [];
      }
      if path in stack {
        return [Skipped(path)];
      }
      StackGrows(g, stack, path);
      ghost var below, begin := stack, At(text);
      stack := stack + [path];
      var output: seq<Token> := [];
      var lines := g.content[path];
      assert text + output == text;
      for i: nat := 0 to |lines|
        invariant stack == below + [path]
        invariant ExpandLines(g, At(text + output), path, i, stack) == ExpandLines(g, begin, path, 0, stack)
      {
        if lines[i].Include? {
          var header := lines[i].target;
          assert g.TargetsInside(path);
          ghost var sofar := text + output + [Marker(header)];
          assert At(text + output).(text := text + output + [Marker(header)]) == At(sofar);
          var nested := ExpandFile(header, sofar);
          assert sofar + nested == text + (output + ([Marker(header)] + nested));
          output := output + ([Marker(header)] + nested);
        } else {
          assert text + (output + [Line(path, i)]) == text + output + [Line(path, i)];
          output := output + [Line(path, i)];
        }
      }
      if !repeatable {
        emitted := emitted + {path};
      }
      visited := visited + {path};
      stack := stack[..|stack| - 1];
      assert stack == below;
      return output;
    }

    /** Expands a list of files, each under its heading. */
    method ExpandEach(paths: seq<File>, ghost text: seq<Token>, ghost before: seq<File>) returns (result: seq<Token>)
      requires g.Sound() && stack == [] && forall k :: 0 <= k < |paths| ==> paths[k] in g.content
      requires forall k :: 0 <= k < |before| ==> before[k] in g.content
      requires At(text) == ExpandAll(g, Nothing(), before)
      modifies this
      ensures stack == [] && At(text + result) == ExpandAll(g, Nothing(), before + paths)
    {
      hide Expand;
      result := [];
      assert text + result == text && before + paths[..0] == before;
      for i := 0 to |paths|
        invariant stack == [] && At(text + result) == ExpandAll(g, Nothing(), before + paths[..i])
      {
        ghost var sofar := text + result + [Section(paths[i])];
        assert At(text + result).(text := sofar) == At(sofar);
        var expanded := ExpandFile(paths[i], sofar);
        ghost var longer := before + paths[..i + 1];
        assert longer[..|longer| - 1] == before + paths[..i] && longer[|longer| - 1] == paths[i];
        assert sofar + expanded == text + (result + ([Section(paths[i])] + expanded));
        result := result + ([Section(paths[i])] + expanded);
      }
      assert paths[..|paths|] == paths;
    }

    /** Expands the direct includes of every source. */
    method ExpandIncludes(sources: seq<File>, ghost text: seq<Token>, ghost before: seq<File>) returns (result: seq<Token>)
      requires g.Sound() && stack == [] && AllInside(g, sources) && AllInside(g, before)
      requires At(text) == ExpandAll(g, Nothing(), before)
      modifies this
      ensures stack == [] && AllInside(g, before + AllIncludes(g, sources))
      ensures At(text + result) == ExpandAll(g, Nothing(), before + AllIncludes(g, sources))
    {
      hide Expand, ExpandAll, DirectIncludes;
      result := [];
      assert text + result == text && sources[..0] == [];
      assert before + AllIncludes(g, sources[..0]) == before;
      for s: nat := 0 to |sources|
        invariant stack == [] && AllInside(g, before + AllIncludes(g, sources[..s]))
        invariant At(text + result) == ExpandAll(g, Nothing(), before + AllIncludes(g, sources[..s]))
      {
        var headers := DirectHeaders(sources[s]);
        ghost var done := before + AllIncludes(g, sources[..s]);
        HeadersInside(g, sources[s], |g.content[sources[s]]|);
        var more := ExpandEach(headers, text + result, done);
        assert sources[..s + 1][..s] == sources[..s];
        assert done + headers == before + AllIncludes(g, sources[..s + 1]);
        assert (text + result) + more == text + (result + more);
        result := result + more;
      }
      assert sources[..|sources|] == sources;
    }

    /** The preamble with all headers, then the bodies of the sources. */
    method Generate(extra: seq<File>, sources: seq<File>) returns (output: seq<Token>)
      requires g.Sound() && stack == [] && emitted == {} && visited == {}
      requires AllInside(g, extra) && AllInside(g, sources)
      modifies this
      ensures AllInside(g, extra + AllIncludes(g, sources) + sources)
      ensures output == ExpandAll(g, Nothing(), extra + AllIncludes(g, sources) + sources).text
      ensures HasHeadings(g, extra, sources, Sections(output))
      ensures HeadersReachNoSource(g, extra, sources) ==> HeadersBeforeSources(g, extra, sources, output)
    {
      hide Expand, AllIncludes, HasHeadings, HeadersReachNoSource, HeadersBeforeSources;
      assert [] + extra == extra;
      var first := ExpandEach(extra, [], []);
      assert [] + first == first;
      hide ExpandAll;
      var headers := ExpandIncludes(sources, first, extra);
      var preamble := first + headers;
      var body := ExpandEach(sources, preamble, extra + AllIncludes(g, sources));
      output := preamble + body;
      HeadingsOf(g, extra, sources);
      if HeadersReachNoSource(g, extra, sources) {
        PreambleFirst(g, extra, sources);
      }
    }
  }

  // ----- what the preamble is for -----------------------------------------------------------------------------------------

  /** An extra header, or one that some source includes and that may not be repeated. */
  ghost predicate IsHeader(g: Graph, extra: seq<File>, sources: seq<File>, t: File) {
    t in extra || (t !in g.repeatable && exists s :: s in sources && g.Includes(s, t))
  }

  ghost predicate HeadersReachNoSource(g: Graph, extra: seq<File>, sources: seq<File>) {
    forall t, s :: IsHeader(g, extra, sources, t) && s in sources ==> !Reaches(g, t, s)
  }

  /** Every own line of every header stands before every own line of every source. */
  ghost predicate HeadersBeforeSources(g: Graph, extra: seq<File>, sources: seq<File>, text: seq<Token>) {
    forall t, k: nat, q | IsHeader(g, extra, sources, t) && g.OwnLine(t, k) && 0 <= q < |text| ::
      text[q].Line? && text[q].file in sources ==> Line(t, k) in text[..q]
  }

  /** Non-repeatable includes among the first n lines of a file. */
  ghost function HeaderCount(g: Graph, f: File, n: nat): nat
    requires f in g.content && n <= |g.content[f]|
  {
    if n == 0 then 0
    else HeaderCount(g, f, n - 1) + if g.content[f][n - 1].Include? && g.content[f][n - 1].target !in g.repeatable then 1 else 0
  }

  /** The same among all lines of the first m sources. */
  ghost function HeadersOfFirst(g: Graph, sources: seq<File>, m: nat): nat
    requires AllInside(g, sources) && m <= |sources|
  {
    if m == 0 then 0 else HeadersOfFirst(g, sources, m - 1) + HeaderCount(g, sources[m - 1], |g.content[sources[m - 1]]|)
  }

  /**
   * The headings are the extra headers, one for each non-repeatable include of the sources in the order of sources and
   * lines, and the sources.
   */
  ghost predicate HasHeadings(g: Graph, extra: seq<File>, sources: seq<File>, headings: seq<File>)
    requires AllInside(g, sources)
  {
    var n := HeadersOfFirst(g, sources, |sources|);
    && |headings| == |extra| + n + |sources| && headings[..|extra|] == extra && headings[|extra| + n..] == sources
    && forall m, i :: 0 <= m < |sources| && 0 <= i < |g.content[sources[m]]| ==> HasHeading(g, extra, sources, headings, m, i)
  }

  ghost predicate HasHeading(g: Graph, extra: seq<File>, sources: seq<File>, headings: seq<File>, m: nat, i: nat)
    requires AllInside(g, sources) && m < |sources| && i < |g.content[sources[m]]|
  {
    var k := |extra| + HeadersOfFirst(g, sources, m) + HeaderCount(g, sources[m], i);
    match g.content[sources[m]][i]
    case Own => true
    case Include(t) => t in g.repeatable || (k < |headings| && headings[k] == t)
  }

  lemma {:induction false} HeaderPlace(g: Graph, f: File, n: nat, i: nat)
    requires f in g.content && i < n <= |g.content[f]|
    ensures |DirectIncludes(g, f, n)| == HeaderCount(g, f, n)
    ensures g.content[f][i].Include? && g.content[f][i].target !in g.repeatable ==>
      HeaderCount(g, f, i) < HeaderCount(g, f, n) && DirectIncludes(g, f, n)[HeaderCount(g, f, i)] == g.content[f][i].target
  {
    HeaderLength(g, f, n);
    HeaderLength(g, f, n - 1);
    if i < n - 1 {
      HeaderPlace(g, f, n - 1, i);
    }
  }

  lemma {:induction false} HeaderLength(g: Graph, f: File, n: nat)
    requires f in g.content && n <= |g.content[f]|
    ensures |DirectIncludes(g, f, n)| == HeaderCount(g, f, n)
  {
    if n > 0 {
      HeaderLength(g, f, n - 1);
    }
  }

  /** A header's place among all direct includes. */
  lemma {:induction false} IncludePlace(g: Graph, sources: seq<File>, m: nat, i: nat)
    requires AllInside(g, sources) && m < |sources| && i < |g.content[sources[m]]|
    requires g.content[sources[m]][i].Include? && g.content[sources[m]][i].target !in g.repeatable
    ensures
      var k := HeadersOfFirst(g, sources, m) + HeaderCount(g, sources[m], i);
      k < |AllIncludes(g, sources)| && AllIncludes(g, sources)[k] == g.content[sources[m]][i].target
    decreases |sources|
  {
    hide DirectIncludes, HeaderCount;
    var n := |sources| - 1;
    var rest := sources[..n];
    IncludesLength(g, rest);
    SameCount(g, sources, rest, n);
    if m < n {
      SameCount(g, sources, rest, m);
      IncludePlace(g, rest, m, i);
    } else {
      HeaderPlace(g, sources[n], |g.content[sources[n]]|, i);
    }
  }

  lemma {:induction false} IncludesLength(g: Graph, sources: seq<File>)
    requires AllInside(g, sources)
    ensures |AllIncludes(g, sources)| == HeadersOfFirst(g, sources, |sources|)
    decreases |sources|
  {
    hide DirectIncludes, HeaderCount;
    if sources != [] {
      var n := |sources| - 1;
      IncludesLength(g, sources[..n]);
      SameCount(g, sources, sources[..n], n);
      HeaderLength(g, sources[n], |g.content[sources[n]]|);
    }
  }

  lemma {:induction false} SameCount(g: Graph, sources: seq<File>, rest: seq<File>, m: nat)
    requires AllInside(g, sources) && rest <= sources && AllInside(g, rest) && m <= |rest|
    ensures HeadersOfFirst(g, sources, m) == HeadersOfFirst(g, rest, m)
  {
    hide HeaderCount;
    if m > 0 {
      SameCount(g, sources, rest, m - 1);
    }
  }

  lemma HeadingsOf(g: Graph, extra: seq<File>, sources: seq<File>)
    requires g.Sound() && AllInside(g, extra) && AllInside(g, sources)
    requires AllInside(g, extra + AllIncludes(g, sources) + sources)
    ensures HasHeadings(g, extra, sources, Sections(ExpandAll(g, Nothing(), extra + AllIncludes(g, sources) + sources).text))
  {
    hide AllIncludes, HeaderCount, ExpandAll, Sections;
    var headers := AllIncludes(g, sources);
    var all := extra + headers + sources;
    SectionsInOrder(g, all);
    IncludesLength(g, sources);
    forall m, i | 0 <= m < |sources| && 0 <= i < |g.content[sources[m]]|
      ensures HasHeading(g, extra, sources, all, m, i)
    {
      if g.content[sources[m]][i].Include? && g.content[sources[m]][i].target !in g.repeatable {
        IncludePlace(g, sources, m, i);
        var k := HeadersOfFirst(g, sources, m) + HeaderCount(g, sources[m], i);
        assert all[|extra| + k] == headers[k];
      }
    }
  }

  /** The direct includes are the headers that some source includes. */
  lemma {:induction false} IncludesAreHeaders(g: Graph, sources: seq<File>, t: File)
    requires AllInside(g, sources)
    ensures t in AllIncludes(g, sources) <==> t !in g.repeatable && exists s :: s in sources && g.Includes(s, t)
  {
    hide DirectIncludes;
    if sources != [] {
      var n := |sources| - 1;
      IncludesAreHeaders(g, sources[..n], t);
      DirectAreHeaders(g, sources[n], |g.content[sources[n]]|, t);
      var rest, last := sources[..n], sources[n];
      assert sources == rest + [last] && g.content[last] == g.content[last][..|g.content[last]|];
      assert t in DirectIncludes(g, last, |g.content[last]|) <==> t !in g.repeatable && g.Includes(last, t);
      if s :| s in sources && g.Includes(s, t) {
        assert s in rest || s == last;
      }
    }
  }

  lemma {:induction false} DirectAreHeaders(g: Graph, f: File, n: nat, t: File)
    requires f in g.content && n <= |g.content[f]|
    ensures t in DirectIncludes(g, f, n) <==> t !in g.repeatable && Include(t) in g.content[f][..n]
  {
    if n > 0 {
      DirectAreHeaders(g, f, n - 1, t);
      assert g.content[f][..n] == g.content[f][..n - 1] + [g.content[f][n - 1]];
    }
  }

  /** All lines of the headers are written before the first line of a source. */
  lemma PreambleFirst(g: Graph, extra: seq<File>, sources: seq<File>)
    requires g.Sound() && AllInside(g, extra) && AllInside(g, sources)
    requires AllInside(g, extra + AllIncludes(g, sources) + sources) && HeadersReachNoSource(g, extra, sources)
    ensures HeadersBeforeSources(g, extra, sources, ExpandAll(g, Nothing(), extra + AllIncludes(g, sources) + sources).text)
  {
    hide AllIncludes, ExpandAll, Reaches;
    var roots := extra + AllIncludes(g, sources);
    assert AllInside(g, roots) by {
      forall k | 0 <= k < |roots|
        ensures roots[k] in g.content
      {
        assert (roots + sources)[k] == roots[k];
      }
    }
    var first, text := ExpandAll(g, Nothing(), roots).text, ExpandAll(g, Nothing(), roots + sources).text;
    AllGrow(g, roots, sources);
    forall t, k: nat, q | IsHeader(g, extra, sources, t) && g.OwnLine(t, k) &&
                          0 <= q < |text| && text[q].Line? && text[q].file in sources
      ensures Line(t, k) in text[..q]
    {
      IncludesAreHeaders(g, sources, t);
      ReachesItself(g, t);
      WrittenExactly(g, roots, t, k);
      var s := text[q].file;
      forall r | r in roots
        ensures !Reaches(g, r, s)
      {
        IncludesAreHeaders(g, sources, r);
        assert IsHeader(g, extra, sources, r);
      }
      AllAvoid(g, roots, s);
      assert first <= text[..q];
    }
  }

  lemma {:induction false} AllGrow(g: Graph, before: seq<File>, paths: seq<File>)
    requires g.Sound() && AllInside(g, before) && AllInside(g, before + paths)
    ensures ExpandAll(g, Nothing(), before).text <= ExpandAll(g, Nothing(), before + paths).text
    decreases |paths|
  {
    hide Expand, Inv;
    if paths == [] {
      assert before + paths == before;
    } else {
      var n, all := |paths| - 1, before + paths;
      var rest, path := all[..|all| - 1], all[|all| - 1];
      assert rest == before + paths[..n];
      AllGrow(g, before, paths[..n]);
      AllKeep(g, rest);
      var st := ExpandAll(g, Nothing(), rest);
      var headed := st.(text := st.text + [Section(path)]);
      AddToken(g, st, Section(path), []);
      ExpandKeeps(g, headed, path, []);
      TextGrows(headed, Expand(g, headed, path, []), []);
      assert st.text <= headed.text;
    }
  }

  ghost predicate AllInside(g: Graph, paths: seq<File>) {
    forall k :: 0 <= k < |paths| ==> paths[k] in g.content
  }

  lemma {:induction false} HeadersInside(g: Graph, f: File, n: nat)
    requires g.Sound() && f in g.content && n <= |g.content[f]|
    ensures AllInside(g, DirectIncludes(g, f, n))
  {
    if n > 0 {
      HeadersInside(g, f, n - 1);
      assert g.TargetsInside(f);
    }
  }
}

// parse_filelist.py: a tree of file lists, flattened depth first; a list that was visited before
// contributes nothing, so cyclic includes end.

module FileList {

  /** What a line of a file list asks for. */
  datatype Line = Skip | Include(path: string) | IncDir(path: string) | Define(text: string) | Source(path: string)

  /** The files by absolute path, the directory each one's paths are relative to, and the path and variable
      handling of the operating system. */
  datatype Tree = Tree(files: map<string, seq<string>>, base: string -> string,
                       resolve: (string, string) -> string, substitute: string -> string)

  /** sources, includes, defines. */
  datatype Entries = Entries(sources: seq<string>, includes: seq<string>, defines: seq<string>)

  const NOTHING: Entries := Entries([], [], [])

  function Extend(a: Entries, b: Entries): Entries {
    Entries(a.sources + b.sources, a.includes + b.includes, a.defines + b.defines)
  }

  // ---------------------------------------------------------------------
  // Lines
  // ---------------------------------------------------------------------

  predicate IsSpace(c: char) {
    c == ' ' || '\t' <= c <= '\r' || '\U{001C}' <= c <= '\U{001F}'
  }

  function StripLeft(s: string): string {
    if s != "" && IsSpace(s[0]) then StripLeft(s[1..]) else s
  }

  function StripRight(s: string): string {
    if s != "" && IsSpace(s[|s| - 1]) then StripRight(s[..|s| - 1]) else s
  }

  predicate StartsWith(s: string, prefix: string) {
    prefix <= s
  }

  function Parse(t: Tree, base: string, raw: string): Line {
    var line := StripRight(StripLeft(raw));
    if line == "" || StartsWith(line, "//") then Skip
    else if StartsWith(line, "-F ") || StartsWith(line, "-f ") then Include(t.resolve(base, line[3..]))
    else if StartsWith(line, "+incdir+") then IncDir(t.resolve(base, line[8..]))
    else if StartsWith(line, "+define+") then Define(t.substitute(line[8..]))
    else if StartsWith(line, "+") || StartsWith(line, "-") then Skip
    else Source(t.resolve(base, line))
  }

  /** The entries a line adds itself. */
  function Own(line: Line): Entries {
    match line
    case IncDir(p) => Entries([], [p], [])
    case Define(d) => Entries([], [], [d])
    case Source(p) => Entries([p], [], [])
    case _ => NOTHING
  }

  // ---------------------------------------------------------------------
  // What each kind of line says
  // ---------------------------------------------------------------------

  predicate AllSpace(s: string) {
    forall c :: c in s ==> c in " \t\n\U{000B}\U{000C}\r\U{001C}\U{001D}\U{001E}\U{001F}"
  }

  /** Text with no white space at either end. */
  predicate IsTrimmed(s: string) {
    s != "" && !AllSpace([s[0]]) && !AllSpace([s[|s| - 1]])
  }

  lemma SpaceOf(c: char)
    ensures IsSpace(c) <==> AllSpace([c])
  {
    assert c in [c] && (IsSpace(c) <==> c in " \t\n\U{000B}\U{000C}\r\U{001C}\U{001D}\U{001E}\U{001F}");
  }

  lemma {:induction false} LeftStripped(lead: string, s: string)
    requires AllSpace(lead)
    ensures StripLeft(lead + s) == StripLeft(s)
    decreases |lead|
  {
    if lead == "" {
      assert lead + s == s;
    } else {
      assert (lead + s)[1..] == lead[1..] + s && forall c :: c in lead[1..] ==> c in lead;
      assert lead[0] in lead;
      LeftStripped(lead[1..], s);
    }
  }

  lemma {:induction false} RightStripped(s: string, trail: string)
    requires AllSpace(trail)
    ensures StripRight(s + trail) == StripRight(s)
    decreases |trail|
  {
    if trail == "" {
      assert s + trail == s;
    } else {
      var n := |trail| - 1;
      assert (s + trail)[..|s + trail| - 1] == s + trail[..n] && forall c :: c in trail[..n] ==> c in trail;
      assert trail[n] in trail;
      RightStripped(s, trail[..n]);
    }
  }

  lemma Stripped(lead: string, s: string, trail: string)
    requires AllSpace(lead) && AllSpace(trail) && IsTrimmed(s)
    ensures StripRight(StripLeft(lead + s + trail)) == s
  {
    assert lead + s + trail == lead + (s + trail);
    LeftStripped(lead, s + trail);
    SpaceOf(s[0]);
    SpaceOf(s[|s| - 1]);
    assert StripLeft(s + trail) == s + trail;
    RightStripped(s, trail);
  }

  lemma CommentSays(t: Tree, base: string, raw: string, p: string)
    requires StripRight(StripLeft(raw)) == "//" + p
    ensures Parse(t, base, raw) == Skip
  {
  }

  lemma IncludeSays(t: Tree, base: string, raw: string, p: string)
    requires var s := StripRight(StripLeft(raw)); s == "-F " + p || s == "-f " + p
    ensures Parse(t, base, raw) == Include(t.resolve(base, p))
  {
    var s := StripRight(StripLeft(raw));
    assert s[0] == '-' && s[3..] == p;
  }

  lemma IncDirSays(t: Tree, base: string, raw: string, p: string)
    requires StripRight(StripLeft(raw)) == "+incdir+" + p
    ensures Parse(t, base, raw) == IncDir(t.resolve(base, p))
  {
    var s := StripRight(StripLeft(raw));
    assert s[0] == '+' && s[8..] == p;
  }

  lemma DefineSays(t: Tree, base: string, raw: string, p: string)
    requires StripRight(StripLeft(raw)) == "+define+" + p
    ensures Parse(t, base, raw) == Define(t.substitute(p))
  {
    var s := StripRight(StripLeft(raw));
    assert s[0] == '+' && s[1] == 'd' && s[8..] == p;
  }

  /** The text of a line without the white space around it decides what the line is. */
  lemma LineSays(t: Tree, base: string, lead: string, s: string, trail: string)
    requires AllSpace(lead) && AllSpace(trail) && IsTrimmed(s)
    ensures var line := Parse(t, base, lead + s + trail);
            && (forall p :: s == "//" + p ==> line == Skip)
            && (forall p :: s == "-F " + p || s == "-f " + p ==> line == Include(t.resolve(base, p)))
            && (forall p :: s == "+incdir+" + p ==> line == IncDir(t.resolve(base, p)))
            && (forall p :: s == "+define+" + p ==> line == Define(t.substitute(p)))
            && (s[0] !in "+-" && !("//" <= s) ==> line == Source(t.resolve(base, s)))
            && (s[0] in "+-" && !("-F " <= s) && !("-f " <= s) && !("+incdir+" <= s) && !("+define+" <= s)
                ==> line == Skip)
  {
    Stripped(lead, s, trail);
    var raw := lead + s + trail;
    var line := Parse(t, base, raw);
    forall p | s == "//" + p ensures line == Skip { CommentSays(t, base, raw, p); }
    forall p | s == "-F " + p || s == "-f " + p ensures line == Include(t.resolve(base, p)) {
      IncludeSays(t, base, raw, p);
    }
    forall p | s == "+incdir+" + p ensures line == IncDir(t.resolve(base, p)) { IncDirSays(t, base, raw, p); }
    forall p | s == "+define+" + p ensures line == Define(t.substitute(p)) { DefineSays(t, base, raw, p); }
    OtherSays(t, base, raw);
  }

  lemma OtherSays(t: Tree, base: string, raw: string)
    requires StripRight(StripLeft(raw)) != ""
    ensures var s := StripRight(StripLeft(raw));
            && (s[0] !in "+-" && !("//" <= s) ==> Parse(t, base, raw) == Source(t.resolve(base, s)))
            && (s[0] in "+-" && !("-F " <= s) && !("-f " <= s) && !("+incdir+" <= s) && !("+define+" <= s)
                ==> Parse(t, base, raw) == Skip)
  {
  }

  /** What a line adds to the entries of its file. */
  lemma LineAdds(path: string)
    ensures Own(Source(path)) == Entries([path], [], []) && Own(IncDir(path)) == Entries([], [path], [])
    ensures Own(Define(path)) == Entries([], [], [path]) && Own(Skip) == Own(Include(path)) == Entries([], [], [])
  {
  }

  /** A line of white space says nothing. */
  lemma BlankSaysNothing(t: Tree, base: string, blank: string)
    requires AllSpace(blank)
    ensures Parse(t, base, blank) == Skip
  {
    LeftStripped(blank, "");
    assert blank + "" == blank;
  }

  // ---------------------------------------------------------------------
  // The flattening
  // ---------------------------------------------------------------------

  /** The entries found, the files visited so far, and those visited by this call in order; or a file that
      cannot be opened. */
  datatype Outcome =
    | Parsed(entries: Entries, visited: set<string>, order: seq<string>)
    | Missing(path: string)

  function Prepend(e: Entries, order: seq<string>, o: Outcome): Outcome {
    match o
    case Parsed(e', v, order') => Parsed(Extend(e, e'), v, order + order')
    case Missing(p) => o
  }

  function Unvisited(t: Tree, visited: set<string>): set<string> {
    t.files.Keys - visited
  }

  function Flatten(t: Tree, f: string, visited: set<string>): (o: Outcome)
    ensures o.Parsed? ==> visited <= o.visited
    decreases |Unvisited(t, visited)|, 0
  {
    if f in visited then Parsed(NOTHING, visited, [])
    else if f !in t.files then Missing(f)
    else
      Fewer(t, f, visited);
      Prepend(NOTHING, [f], FlattenLines(t, t.base(f), t.files[f], visited + {f}))
  }

  function FlattenLines(t: Tree, base: string, lines: seq<string>, visited: set<string>): (o: Outcome)
    ensures o.Parsed? ==> visited <= o.visited
    decreases |Unvisited(t, visited)|, |lines|
  {
    if lines == [] then Parsed(NOTHING, visited, [])
    else
      var line := Parse(t, base, lines[0]);
      if line.Include? then
        match Flatten(t, line.path, visited)
        case Missing(p) => Missing(p)
        case Parsed(e, v, order) =>
          NotMore(t, visited, v);
          Prepend(e, order, FlattenLines(t, base, lines[1..], v))
      else Prepend(Own(line), [], FlattenLines(t, base, lines[1..], visited))
  }

  lemma Fewer(t: Tree, f: string, visited: set<string>)
    requires f in t.files && f !in visited
    ensures |Unvisited(t, visited + {f})| < |Unvisited(t, visited)|
  {
    assert Unvisited(t, visited) == Unvisited(t, visited + {f}) + {f};
  }

  lemma NotMore(t: Tree, visited: set<string>, more: set<string>)
    requires visited <= more
    ensures |Unvisited(t, more)| <= |Unvisited(t, visited)|
  {
    Subset(Unvisited(t, more), Unvisited(t, visited));
  }

  lemma Subset(a: set<string>, b: set<string>)
    requires a <= b
    ensures |a| <= |b|
  {
    assert b == a + (b - a);
  }

  // ---------------------------------------------------------------------
  // Reachability
  // ---------------------------------------------------------------------

  /** g is named by a -f or -F line of file f. */
  ghost predicate Includes(t: Tree, f: string, g: string) {
    f in t.files && exists i :: 0 <= i < |t.files[f]| && Parse(t, t.base(f), t.files[f][i]) == Include(g)
  }

  ghost predicate IsPath(t: Tree, path: seq<string>) {
    path != [] && forall i :: 0 <= i < |path| - 1 ==> Includes(t, path[i], path[i + 1])
  }

  ghost predicate Reachable(t: Tree, f: string, g: string) {
    exists path :: IsPath(t, path) && path[0] == f && path[|path| - 1] == g
  }

  lemma ReachesItself(t: Tree, f: string)
    ensures Reachable(t, f, f)
  {
    assert IsPath(t, [f]);
  }

  lemma ReachesThrough(t: Tree, f: string, g: string, h: string)
    requires Includes(t, f, g) && Reachable(t, g, h)
    ensures Reachable(t, f, h)
  {
    var path :| IsPath(t, path) && path[0] == g && path[|path| - 1] == h;
    assert IsPath(t, [f] + path);
  }

  /** lines is a tail of the lines of file f. */
  ghost predicate TailOf(t: Tree, f: string, lines: seq<string>) {
    f in t.files && |lines| <= |t.files[f]| && lines == t.files[f][|t.files[f]| - |lines|..]
  }

  lemma WholeIsTail(t: Tree, f: string)
    requires f in t.files
    ensures TailOf(t, f, t.files[f])
  {
  }

  lemma TailIncludes(t: Tree, f: string, lines: seq<string>)
    requires TailOf(t, f, lines) && lines != []
    ensures TailOf(t, f, lines[1..])
    ensures Parse(t, t.base(f), lines[0]).Include? ==> Includes(t, f, Parse(t, t.base(f), lines[0]).path)
  {
    assert lines[0] == t.files[f][|t.files[f]| - |lines|];
  }

  /** New files are reachable, existing and listed once; and they lead only to visited files. */
  ghost predicate Explored(t: Tree, f: string, before: set<string>, o: Outcome) {
    match o
    case Missing(p) => p !in t.files && Reachable(t, f, p)
    case Parsed(_, v, order) =>
      && (forall g :: g in order <==> g in v && g !in before)
      && (forall i, j :: 0 <= i < j < |order| ==> order[i] != order[j])
      && (forall g :: g in order ==> g in t.files && Reachable(t, f, g))
  }

  ghost predicate Closed(t: Tree, before: set<string>, after: set<string>) {
    forall g, h :: g in after && g !in before && Includes(t, g, h) ==> h in after
  }

  lemma {:induction false} FlattenExplores(t: Tree, f: string, visited: set<string>)
    ensures Explored(t, f, visited, Flatten(t, f, visited))
    ensures Flatten(t, f, visited).Parsed? ==> f in Flatten(t, f, visited).visited
    decreases |Unvisited(t, visited)|, 0
  {
    hide Reachable, Includes, Parse, FlattenLines, TailOf;
    ReachesItself(t, f);
    if f !in visited && f in t.files {
      Fewer(t, f, visited);
      WholeIsTail(t, f);
      LinesExplore(t, f, t.files[f], visited + {f});
      var o := FlattenLines(t, t.base(f), t.files[f], visited + {f});
      if o.Parsed? {
        assert f !in o.order;
      }
    }
  }

  lemma {:induction false} LinesExplore(t: Tree, f: string, lines: seq<string>, visited: set<string>)
    requires TailOf(t, f, lines) && f in visited
    ensures Explored(t, f, visited, FlattenLines(t, t.base(f), lines, visited))
    decreases |Unvisited(t, visited)|, |lines|
  {
    hide Reachable, Includes, Parse;
    if lines != [] {
      TailIncludes(t, f, lines);
      var line := Parse(t, t.base(f), lines[0]);
      if line.Include? {
        FlattenExplores(t, line.path, visited);
        IncludedExplored(t, f, line.path, visited, Flatten(t, line.path, visited));
        var o := Flatten(t, line.path, visited);
        if o.Parsed? {
          NotMore(t, visited, o.visited);
          LinesExplore(t, f, lines[1..], o.visited);
          var rest := FlattenLines(t, t.base(f), lines[1..], o.visited);
          BothExplored(t, f, visited, o, rest);
        }
      } else {
        LinesExplore(t, f, lines[1..], visited);
        var rest := FlattenLines(t, t.base(f), lines[1..], visited);
        if rest.Parsed? {
          assert [] + rest.order == rest.order;
        }
      }
    }
  }

  lemma IncludedExplored(t: Tree, f: string, g: string, before: set<string>, o: Outcome)
    requires Includes(t, f, g) && Explored(t, g, before, o)
    ensures Explored(t, f, before, o)
  {
    hide Reachable, Includes;
    match o
    case Missing(p) => ReachesThrough(t, f, g, p);
    case Parsed(_, _, order) =>
      forall h | h in order
        ensures Reachable(t, f, h)
      {
        ReachesThrough(t, f, g, h);
      }
  }

  lemma BothExplored(t: Tree, f: string, before: set<string>, o: Outcome, rest: Outcome)
    requires o.Parsed? && before <= o.visited && Explored(t, f, before, o) && Explored(t, f, o.visited, rest)
    requires rest.Parsed? ==> o.visited <= rest.visited
    ensures Explored(t, f, before, Prepend(o.entries, o.order, rest))
  {
    hide Reachable;
    if rest.Parsed? {
      var order := o.order + rest.order;
      forall i, j | 0 <= i < j < |order|
        ensures order[i] != order[j]
      {
        if i < |o.order| <= j {
          assert o.order[i] in o.visited && rest.order[j - |o.order|] !in o.visited;
        }
      }
    }
  }

  /** Everything newly visited leads only to visited files. */
  lemma {:induction false} FlattenCloses(t: Tree, f: string, visited: set<string>)
    requires Flatten(t, f, visited).Parsed?
    ensures Closed(t, visited, Flatten(t, f, visited).visited)
    decreases |Unvisited(t, visited)|, 0
  {
    hide Parse;
    if f !in visited {
      Fewer(t, f, visited);
      LinesClose(t, t.base(f), t.files[f], visited + {f});
      var v := FlattenLines(t, t.base(f), t.files[f], visited + {f}).visited;
      forall g, h | g in v && g !in visited && Includes(t, g, h)
        ensures h in v
      {
        if g == f {
          var i :| 0 <= i < |t.files[f]| && Parse(t, t.base(f), t.files[f][i]) == Include(h);
        }
      }
    }
  }

  lemma {:induction false} LinesClose(t: Tree, base: string, lines: seq<string>, visited: set<string>)
    requires FlattenLines(t, base, lines, visited).Parsed?
    ensures Closed(t, visited, FlattenLines(t, base, lines, visited).visited)
    ensures forall i :: 0 <= i < |lines| && Parse(t, base, lines[i]).Include? ==>
              Parse(t, base, lines[i]).path in FlattenLines(t, base, lines, visited).visited
    decreases |Unvisited(t, visited)|, |lines|
  {
    hide Parse, Includes;
    if lines != [] {
      var line, tail := Parse(t, base, lines[0]), lines[1..];
      var next := visited;
      if line.Include? {
        FlattenExplores(t, line.path, visited);
        FlattenCloses(t, line.path, visited);
        next := Flatten(t, line.path, visited).visited;
        NotMore(t, visited, next);
      }
      LinesClose(t, base, tail, next);
      var v := FlattenLines(t, base, tail, next).visited;
      assert FlattenLines(t, base, lines, visited).visited == v;
      forall i | 0 <= i < |lines| && Parse(t, base, lines[i]).Include?
        ensures Parse(t, base, lines[i]).path in v
      {
        if i > 0 {
          assert lines[i] == tail[i - 1];
        }
      }
    }
  }

  lemma {:induction false} ClosedHoldsPath(t: Tree, after: set<string>, path: seq<string>)
    requires IsPath(t, path) && path[0] in after && Closed(t, {}, after)
    ensures path[|path| - 1] in after
    decreases |path|
  {
    hide Includes;
    if |path| > 1 {
      assert Includes(t, path[0], path[1]);
      assert IsPath(t, path[1..]) by {
        forall i | 0 <= i < |path[1..]| - 1
          ensures Includes(t, path[1..][i], path[1..][i + 1])
        {
          assert Includes(t, path[i + 1], path[i + 2]);
        }
      }
      ClosedHoldsPath(t, after, path[1..]);
    }
  }

  // ---------------------------------------------------------------------
  // Each file's entries, once
  // ---------------------------------------------------------------------

  datatype Kind = Sources | IncDirs | Defines

  function Of(e: Entries, kind: Kind): seq<string> {
    match kind
    case Sources => e.sources
    case IncDirs => e.includes
    case Defines => e.defines
  }

  /** The entries of one kind on some lines themselves, in order. */
  function OwnOf(t: Tree, base: string, lines: seq<string>, kind: Kind): seq<string> {
    if lines == [] then [] else Of(Own(Parse(t, base, lines[0])), kind) + OwnOf(t, base, lines[1..], kind)
  }

  /** The own entries of some files, counted. */
  function Total(t: Tree, order: seq<string>, kind: Kind): multiset<string> {
    if order == [] then multiset{}
    else (if order[0] in t.files then multiset(OwnOf(t, t.base(order[0]), t.files[order[0]], kind)) else multiset{})
         + Total(t, order[1..], kind)
  }

  lemma {:induction false} TotalOfBoth(t: Tree, a: seq<string>, b: seq<string>, kind: Kind)
    ensures Total(t, a + b, kind) == Total(t, a, kind) + Total(t, b, kind)
    decreases |a|
  {
    hide OwnOf;
    if a == [] {
      assert a + b == b;
    } else {
      assert (a + b)[1..] == a[1..] + b;
      TotalOfBoth(t, a[1..], b, kind);
    }
  }

  lemma {:induction false} FlattenCounts(t: Tree, f: string, visited: set<string>, kind: Kind)
    requires Flatten(t, f, visited).Parsed?
    ensures var o := Flatten(t, f, visited);
            multiset(Of(o.entries, kind)) == Total(t, o.order, kind)
    decreases |Unvisited(t, visited)|, 0
  {
    hide FlattenLines, OwnOf;
    if f !in visited {
      Fewer(t, f, visited);
      LinesCount(t, t.base(f), t.files[f], visited + {f}, kind);
      var o := FlattenLines(t, t.base(f), t.files[f], visited + {f});
      assert ([f] + o.order)[1..] == o.order;
      assert Of(Extend(NOTHING, o.entries), kind) == Of(o.entries, kind);
    }
  }

  lemma {:induction false} LinesCount(t: Tree, base: string, lines: seq<string>, visited: set<string>, kind: Kind)
    requires FlattenLines(t, base, lines, visited).Parsed?
    ensures var o := FlattenLines(t, base, lines, visited);
            multiset(Of(o.entries, kind)) == multiset(OwnOf(t, base, lines, kind)) + Total(t, o.order, kind)
    decreases |Unvisited(t, visited)|, |lines|
  {
    hide Parse, Total, Own, Flatten, FlattenLines, Extend, Of, OwnOf;
    TotalOfNone(t, kind);
    if lines == [] {
      LinesOfNone(t, base, visited);
      OwnOfNone(t, base, kind);
      OfNothing(kind);
    } else {
      var line, tail := Parse(t, base, lines[0]), lines[1..];
      LinesStep(t, base, lines, visited);
      OwnOfStep(t, base, lines, kind);
      if line.Include? {
        IncludeOwnsNothing(line, kind);
        var o := Flatten(t, line.path, visited);
        FlattenCounts(t, line.path, visited, kind);
        NotMore(t, visited, o.visited);
        LinesCount(t, base, tail, o.visited, kind);
        var rest := FlattenLines(t, base, tail, o.visited);
        TotalOfBoth(t, o.order, rest.order, kind);
        OfExtend(o.entries, rest.entries, kind);
      } else {
        LinesCount(t, base, tail, visited, kind);
        var rest := FlattenLines(t, base, tail, visited);
        OfExtend(Own(line), rest.entries, kind);
        assert [] + rest.order == rest.order;
      }
    }
  }

  lemma OwnOfNone(t: Tree, base: string, kind: Kind)
    ensures OwnOf(t, base, [], kind) == []
  {
  }

  lemma OwnOfStep(t: Tree, base: string, lines: seq<string>, kind: Kind)
    requires lines != []
    ensures OwnOf(t, base, lines, kind) == Of(Own(Parse(t, base, lines[0])), kind) + OwnOf(t, base, lines[1..], kind)
  {
  }

  lemma OfNothing(kind: Kind)
    ensures Of(NOTHING, kind) == []
  {
  }

  lemma TotalOfNone(t: Tree, kind: Kind)
    ensures Total(t, [], kind) == multiset{}
  {
  }

  lemma IncludeOwnsNothing(line: Line, kind: Kind)
    requires line.Include?
    ensures Of(Own(line), kind) == []
  {
  }

  lemma OfExtend(a: Entries, b: Entries, kind: Kind)
    ensures Of(Extend(a, b), kind) == Of(a, kind) + Of(b, kind)
  {
  }

  // ---------------------------------------------------------------------
  // The whole
  // ---------------------------------------------------------------------

  /** For every include graph: flattening succeeds exactly if every reachable file exists; then it has visited the
      reachable files, each of them once, and its entries are their own entries, each file's once. */
  lemma FlattenWhole(t: Tree, root: string)
    ensures var o := Flatten(t, root, {});
            && (o.Parsed? <==> forall g :: Reachable(t, root, g) ==> g in t.files)
            && (o.Missing? ==> o.path !in t.files && Reachable(t, root, o.path))
            && (o.Parsed? ==>
                  && (forall g :: g in o.visited <==> Reachable(t, root, g))
                  && (forall g :: g in o.order <==> Reachable(t, root, g))
                  && (forall i, j :: 0 <= i < j < |o.order| ==> o.order[i] != o.order[j])
                  && (forall kind :: multiset(Of(o.entries, kind)) == Total(t, o.order, kind)))
  {
    hide Includes, Flatten, Total;
    var o := Flatten(t, root, {});
    FlattenExplores(t, root, {});
    if o.Parsed? {
      FlattenCloses(t, root, {});
      forall g | Reachable(t, root, g)
        ensures g in o.visited
      {
        var path :| IsPath(t, path) && path[0] == root && path[|path| - 1] == g;
        ClosedHoldsPath(t, o.visited, path);
      }
      forall kind
        ensures multiset(Of(o.entries, kind)) == Total(t, o.order, kind)
      {
        FlattenCounts(t, root, {}, kind);
      }
    }
  }

  // ---------------------------------------------------------------------
  // parse_filelist
  // ---------------------------------------------------------------------

  /** The set that all recursive calls share. */
  class Visited {
    var paths: set<string>

    constructor ()
      ensures paths == {}
    {
      paths := {};
    }
  }

  datatype Answer = Found(entries: Entries) | NotFound(path: string)

  ghost predicate Agrees(o: Outcome, r: Answer, visited: set<string>) {
    match o
    case Parsed(e, v, _) => r == Found(e) && visited == v
    case Missing(p) => r == NotFound(p)
  }

  method ParseFilelist(t: Tree, filepath: string, visited: Visited) returns (r: Answer)
    modifies visited
    ensures Agrees(Flatten(t, filepath, old(visited.paths)), r, visited.paths)
    ensures old(visited.paths) <= visited.paths
    decreases |Unvisited(t, visited.paths)|
  {
    hide FlattenLines, Parse, Unvisited;
    if filepath in visited.paths {
      return Found(NOTHING);
    }
    ghost var before := visited.paths;
    visited.paths := visited.paths + {filepath};
    if filepath !in t.files {
      return NotFound(filepath);
    }
    Fewer(t, filepath, before);
    var base, lines := t.base(filepath), t.files[filepath];
    var entries := NOTHING;
    ghost var order: seq<string> := [];
    ghost var whole := FlattenLines(t, base, lines, visited.paths);
    assert lines[0..] == lines;
    PrependNothing(whole);
    for i := 0 to |lines|
      invariant before + {filepath} <= visited.paths
      invariant whole == Prepend(entries, order, FlattenLines(t, base, lines[i..], visited.paths))
    {
      var line := Parse(t, base, lines[i]);
      assert lines[i..] != [] && lines[i..][0] == lines[i] && lines[i..][1..] == lines[i + 1..];
      NotMore(t, before + {filepath}, visited.paths);
      ghost var v := visited.paths;
      LinesStep(t, base, lines[i..], v);
      match line {
        case Include(subPath) =>
          var sub := ParseFilelist(t, subPath, visited);
          if sub.NotFound? {
            return sub;
          }
          ghost var o := Flatten(t, subPath, v);
          PrependTwice(entries, order, o.entries, o.order, FlattenLines(t, base, lines[i + 1..], visited.paths));
          entries := Extend(entries, sub.entries);
          order := order + o.order;
        case _ =>
          PrependTwice(entries, order, Own(line), [], FlattenLines(t, base, lines[i + 1..], visited.paths));
          assert order + [] == order;
          entries := Extend(entries, Own(line));
      }
    }
    LinesOfNone(t, base, visited.paths);
    ExtendNothing(entries);
    r := Found(entries);
  }

  lemma PrependNothing(o: Outcome)
    ensures Prepend(NOTHING, [], o) == o
  {
    if o.Parsed? {
      assert Extend(NOTHING, o.entries) == o.entries;
      assert [] + o.order == o.order;
    }
  }

  lemma ExtendNothing(e: Entries)
    ensures Extend(e, NOTHING) == e && Extend(NOTHING, e) == e
  {
  }

  lemma PrependTwice(a: Entries, order: seq<string>, b: Entries, more: seq<string>, o: Outcome)
    ensures Prepend(a, order, Prepend(b, more, o)) == Prepend(Extend(a, b), order + more, o)
  {
    if o.Parsed? {
      ExtendAssociates(a, b, o.entries);
      assert order + (more + o.order) == (order + more) + o.order;
    }
  }

  lemma ExtendAssociates(a: Entries, b: Entries, c: Entries)
    ensures Extend(a, Extend(b, c)) == Extend(Extend(a, b), c)
  {
  }

  lemma LinesStep(t: Tree, base: string, lines: seq<string>, visited: set<string>)
    requires lines != []
    ensures var line := Parse(t, base, lines[0]);
            FlattenLines(t, base, lines, visited) ==
            if line.Include? then
              match Flatten(t, line.path, visited)
              case Missing(p) => Missing(p)
              case Parsed(e, v, order) => Prepend(e, order, FlattenLines(t, base, lines[1..], v))
            else Prepend(Own(line), [], FlattenLines(t, base, lines[1..], visited))
  {
  }

  lemma LinesOfNone(t: Tree, base: string, visited: set<string>)
    ensures FlattenLines(t, base, [], visited) == Parsed(NOTHING, visited, [])
  {
  }
}

// parse_filelist.py: the order in which the lines of the file lists are taken. What it means for a
// list of lines to be a depth-first traversal is said without regard to how it is found.

module FileTrace {
  import opened FileList

  /** A file list is opened, or one of its lines taken. */
  datatype Event = Open(file: string) | At(file: string, line: nat)

  function Files(trace: seq<Event>): (fs: seq<string>)
    ensures |fs| == |trace| && forall k :: 0 <= k < |trace| ==> fs[k] == trace[k].file
  {
    seq(|trace|, k requires 0 <= k < |trace| => trace[k].file)
  }

  /** The files in the order in which they are opened. */
  function Opened(trace: seq<Event>): seq<string> {
    if trace == [] then [] else (if trace[0].Open? then [trace[0].file] else []) + Opened(trace[1..])
  }

  /** The lines of a file in the order in which they are taken. */
  function LinesOf(trace: seq<Event>, f: string): seq<nat> {
    if trace == [] then []
    else (if trace[0].At? && trace[0].file == f then [trace[0].line] else []) + LinesOf(trace[1..], f)
  }

  /** The numbers lo .. hi - 1. */
  function Range(lo: nat, hi: nat): seq<nat>
    decreases hi - lo
  {
    if lo >= hi then [] else [lo] + Range(lo + 1, hi)
  }

  function LineAt(t: Tree, e: Event): Line {
    if e.At? && e.file in t.files && e.line < |t.files[e.file]| then Parse(t, t.base(e.file), t.files[e.file][e.line])
    else Skip
  }

  /** The lines' own entries of one kind, one after the other. */
  function Collected(t: Tree, trace: seq<Event>, kind: Kind): seq<string> {
    if trace == [] then [] else Of(Own(LineAt(t, trace[0])), kind) + Collected(t, trace[1..], kind)
  }

  /** No two files interleave: once a file's lines are interrupted by another's, that other has no line before and
      none after the interruption. */
  ghost predicate Nested(fs: seq<string>) {
    forall p, x, q, y ::
      0 <= p < x < q < |fs| && 0 <= y < |fs| && fs[p] == fs[q] && fs[x] != fs[p] && fs[y] == fs[x] ==>
      p < y < q
  }

  /** What may come after a line that includes g: g is opened, if it was not opened before. */
  ghost predicate FollowsAt(before: set<string>, trace: seq<Event>, p: nat, g: string)
    requires p < |trace|
  {
    if g in before || g in Opened(trace[..p]) then p + 1 < |trace| ==> !trace[p + 1].Open?
    else p + 1 < |trace| && trace[p + 1] == Open(g)
  }

  /** A line that includes a file not opened before opens it at once, and files are opened in no other way. */
  ghost predicate OpensWhenIncluded(t: Tree, before: set<string>, trace: seq<Event>) {
    && (forall p :: 0 <= p < |trace| && LineAt(t, trace[p]).Include? ==>
          FollowsAt(before, trace, p, LineAt(t, trace[p]).path))
    && (forall p :: 0 < p < |trace| && trace[p].Open? ==>
          LineAt(t, trace[p - 1]) == Include(trace[p].file))
  }

  /** Every line but those of one file comes after the opening of its file. */
  ghost predicate OpenedBefore(except: set<string>, trace: seq<Event>) {
    forall k :: 0 <= k < |trace| ==> trace[k].file in except || trace[k].file in Opened(trace[..k + 1])
  }

  /** A depth-first traversal from a root: it starts by opening it, opens each file at the first line that includes it,
      takes all lines of every opened file once and in order, and finishes a file before it goes on with the one that
      included it. */
  ghost predicate IsDepthFirst(t: Tree, root: string, trace: seq<Event>) {
    && trace != [] && trace[0] == Open(root)
    && (forall i, j :: 0 <= i < j < |Opened(trace)| ==> Opened(trace)[i] != Opened(trace)[j])
    && (forall f :: f in Opened(trace) ==> f in t.files && LinesOf(trace, f) == Range(0, |t.files[f]|))
    && OpenedBefore({}, trace)
    && OpensWhenIncluded(t, {}, trace)
    && Nested(Files(trace))
  }

  // ---------------------------------------------------------------------
  // The traversal that the flattening makes
  // ---------------------------------------------------------------------

  function Trace(t: Tree, f: string, visited: set<string>): seq<Event>
    requires Flatten(t, f, visited).Parsed?
    decreases |Unvisited(t, visited)|, 0
  {
    if f in visited then []
    else
      Fewer(t, f, visited);
      assert t.files[f][0..] == t.files[f];
      [Open(f)] + TraceFrom(t, f, 0, visited + {f})
  }

  /** From line i of file f on. */
  function TraceFrom(t: Tree, f: string, i: nat, visited: set<string>): seq<Event>
    requires f in t.files && i <= |t.files[f]|
    requires FlattenLines(t, t.base(f), t.files[f][i..], visited).Parsed?
    decreases |Unvisited(t, visited)|, |t.files[f]| - i
  {
    if i == |t.files[f]| then []
    else
      var lines := t.files[f];
      var line := Parse(t, t.base(f), lines[i]);
      LinesStep(t, t.base(f), lines[i..], visited);
      assert lines[i..][0] == lines[i] && lines[i..][1..] == lines[i + 1..];
      if line.Include? then
        var o := Flatten(t, line.path, visited);
        NotMore(t, visited, o.visited);
        [At(f, i)] + Trace(t, line.path, visited) + TraceFrom(t, f, i + 1, o.visited)
      else [At(f, i)] + TraceFrom(t, f, i + 1, visited)
  }

  lemma TraceStep(t: Tree, f: string, visited: set<string>)
    requires Flatten(t, f, visited).Parsed?
    ensures if f in visited then Trace(t, f, visited) == [] && Flatten(t, f, visited).order == []
            else
              && f in t.files && |Unvisited(t, visited + {f})| < |Unvisited(t, visited)|
              && t.files[f][0..] == t.files[f]
              && FlattenLines(t, t.base(f), t.files[f], visited + {f}).Parsed?
              && Trace(t, f, visited) == [Open(f)] + TraceFrom(t, f, 0, visited + {f})
              && Flatten(t, f, visited) == Prepend(NOTHING, [f], FlattenLines(t, t.base(f), t.files[f], visited + {f}))
  {
    if f !in visited {
      Fewer(t, f, visited);
      assert t.files[f][0..] == t.files[f];
    }
  }

  // ---------------------------------------------------------------------
  // Concatenation
  // ---------------------------------------------------------------------

  lemma {:induction false} OpenedBoth(a: seq<Event>, b: seq<Event>)
    ensures Opened(a + b) == Opened(a) + Opened(b)
    decreases |a|
  {
    if a == [] {
      assert a + b == b;
    } else {
      assert (a + b)[1..] == a[1..] + b;
      OpenedBoth(a[1..], b);
    }
  }

  lemma {:induction false} LinesOfBoth(a: seq<Event>, b: seq<Event>, f: string)
    ensures LinesOf(a + b, f) == LinesOf(a, f) + LinesOf(b, f)
    decreases |a|
  {
    if a == [] {
      assert a + b == b;
    } else {
      assert (a + b)[1..] == a[1..] + b;
      LinesOfBoth(a[1..], b, f);
    }
  }

  lemma {:induction false} CollectedBoth(t: Tree, a: seq<Event>, b: seq<Event>, kind: Kind)
    ensures Collected(t, a + b, kind) == Collected(t, a, kind) + Collected(t, b, kind)
    decreases |a|
  {
    hide LineAt, Own, Of;
    if a == [] {
      assert a + b == b;
    } else {
      assert (a + b)[1..] == a[1..] + b;
      CollectedBoth(t, a[1..], b, kind);
    }
  }

  // ---------------------------------------------------------------------
  // The entries are those of the lines, in that order
  // ---------------------------------------------------------------------

  lemma {:induction false} TraceCollects(t: Tree, f: string, visited: set<string>, kind: Kind)
    requires Flatten(t, f, visited).Parsed?
    ensures Collected(t, Trace(t, f, visited), kind) == Of(Flatten(t, f, visited).entries, kind)
    ensures Opened(Trace(t, f, visited)) == Flatten(t, f, visited).order
    decreases |Unvisited(t, visited)|, 0
  {
    hide FlattenLines, TraceFrom;
    OfNothing(kind);
    if f !in visited {
      Fewer(t, f, visited);
      assert t.files[f][0..] == t.files[f];
      LinesCollect(t, f, 0, visited + {f}, kind);
      var rest := TraceFrom(t, f, 0, visited + {f});
      var o := FlattenLines(t, t.base(f), t.files[f], visited + {f});
      assert ([Open(f)] + rest)[1..] == rest;
      OfExtend(NOTHING, o.entries, kind);
      assert Of(Own(Skip), kind) == [];
      assert [] + Of(o.entries, kind) == Of(o.entries, kind);
      assert [] + Collected(t, rest, kind) == Collected(t, rest, kind);
    }
  }

  lemma {:induction false} LinesCollect(t: Tree, f: string, i: nat, visited: set<string>, kind: Kind)
    requires f in t.files && i <= |t.files[f]|
    requires FlattenLines(t, t.base(f), t.files[f][i..], visited).Parsed?
    ensures var o := FlattenLines(t, t.base(f), t.files[f][i..], visited);
            Collected(t, TraceFrom(t, f, i, visited), kind) == Of(o.entries, kind) &&
            Opened(TraceFrom(t, f, i, visited)) == o.order
    decreases |Unvisited(t, visited)|, |t.files[f]| - i
  {
    hide FlattenLines, Flatten, Parse, Own, Of, Extend, Trace;
    var lines := t.files[f];
    if i == |lines| {
      assert lines[i..] == [];
      LinesOfNone(t, t.base(f), visited);
      OfNothing(kind);
    } else {
      var line := Parse(t, t.base(f), lines[i]);
      assert lines[i..][0] == lines[i] && lines[i..][1..] == lines[i + 1..];
      LinesStep(t, t.base(f), lines[i..], visited);
      assert LineAt(t, At(f, i)) == line;
      var first := [At(f, i)];
      FirstCollected(t, At(f, i), kind);
      if line.Include? {
        var o := Flatten(t, line.path, visited);
        NotMore(t, visited, o.visited);
        TraceCollects(t, line.path, visited, kind);
        LinesCollect(t, f, i + 1, o.visited, kind);
        var rest := FlattenLines(t, t.base(f), lines[i + 1..], o.visited);
        var sub, tail := Trace(t, line.path, visited), TraceFrom(t, f, i + 1, o.visited);
        CollectedBoth(t, first + sub, tail, kind);
        CollectedBoth(t, first, sub, kind);
        OpenedBoth(first + sub, tail);
        OpenedBoth(first, sub);
        IncludeOwnsNothing(line, kind);
        OfExtend(o.entries, rest.entries, kind);
        assert [] + Of(o.entries, kind) == Of(o.entries, kind) && [] + o.order == o.order;
      } else {
        LinesCollect(t, f, i + 1, visited, kind);
        var rest := FlattenLines(t, t.base(f), lines[i + 1..], visited);
        var tail := TraceFrom(t, f, i + 1, visited);
        CollectedBoth(t, first, tail, kind);
        OpenedBoth(first, tail);
        OfExtend(Own(line), rest.entries, kind);
        assert [] + rest.order == rest.order;
      }
    }
  }

  lemma FirstCollected(t: Tree, e: Event, kind: Kind)
    ensures Collected(t, [e], kind) == Of(Own(LineAt(t, e)), kind)
    ensures Opened([e]) == if e.Open? then [e.file] else []
  {
    assert [e][1..] == [];
  }

  // ---------------------------------------------------------------------
  // Whose lines are taken, and which
  // ---------------------------------------------------------------------

  ghost predicate OnlyOf(trace: seq<Event>, files: set<string>) {
    forall e :: e in trace ==> e.file in files
  }

  ghost function SetOf(order: seq<string>): set<string> {
    set f | f in order
  }

  /** The lines of every listed file, all and in order. */
  ghost predicate TakesAll(t: Tree, trace: seq<Event>, order: seq<string>) {
    forall h :: h in order ==> h in t.files && LinesOf(trace, h) == Range(0, |t.files[h]|)
  }

  lemma {:induction false} NoLines(trace: seq<Event>, h: string)
    requires forall e :: e in trace ==> e.file != h
    ensures LinesOf(trace, h) == []
    decreases |trace|
  {
    if trace != [] {
      assert trace[0] in trace;
      assert forall e :: e in trace[1..] ==> e in trace;
      NoLines(trace[1..], h);
    }
  }

  /** The files of two consecutive explorations are different. */
  lemma OrdersApart(t: Tree, f: string, g: string, lines: seq<string>, visited: set<string>)
    requires TailOf(t, f, lines) && f in visited && Flatten(t, g, visited).Parsed?
    requires FlattenLines(t, t.base(f), lines, Flatten(t, g, visited).visited).Parsed?
    ensures var o := Flatten(t, g, visited);
            var rest := FlattenLines(t, t.base(f), lines, o.visited);
            && f !in o.order && f !in rest.order && SetOf(o.order) !! SetOf(rest.order)
            && (forall h :: h in o.order ==> h !in visited && h in o.visited)
            && (forall h :: h in rest.order ==> h !in o.visited)
  {
    hide Flatten, FlattenLines, TailOf;
    FlattenExplores(t, g, visited);
    LinesExplore(t, f, lines, Flatten(t, g, visited).visited);
  }

  lemma {:induction false} TraceTakes(t: Tree, f: string, visited: set<string>)
    requires Flatten(t, f, visited).Parsed?
    ensures var o := Flatten(t, f, visited);
            && TakesAll(t, Trace(t, f, visited), o.order) && OnlyOf(Trace(t, f, visited), SetOf(o.order))
            && (f !in visited ==> Trace(t, f, visited) != [] && Trace(t, f, visited)[0] == Open(f))
    decreases |Unvisited(t, visited)|, 0
  {
    hide Flatten, FlattenLines, Trace, TraceFrom, LinesOf, Range;
    TraceStep(t, f, visited);
    if f !in visited {
      LinesTake(t, f, 0, visited + {f});
      var o := FlattenLines(t, t.base(f), t.files[f], visited + {f});
      var rest := TraceFrom(t, f, 0, visited + {f});
      forall h | h in [f] + o.order
        ensures h in t.files && LinesOf([Open(f)] + rest, h) == Range(0, |t.files[h]|)
      {
        LinesOfBoth([Open(f)], rest, h);
        LinesOfOne(Open(f), h);
        assert [] + LinesOf(rest, h) == LinesOf(rest, h);
      }
    }
  }

  lemma {:induction false} LinesTake(t: Tree, f: string, i: nat, visited: set<string>)
    requires f in t.files && i <= |t.files[f]| && f in visited
    requires FlattenLines(t, t.base(f), t.files[f][i..], visited).Parsed?
    ensures var o, trace := FlattenLines(t, t.base(f), t.files[f][i..], visited), TraceFrom(t, f, i, visited);
            && TakesAll(t, trace, o.order) && OnlyOf(trace, SetOf(o.order) + {f})
            && LinesOf(trace, f) == Range(i, |t.files[f]|)
    decreases |Unvisited(t, visited)|, |t.files[f]| - i
  {
    hide FlattenLines, Flatten, Parse, Trace, LinesOf, Extend, TakesAll, OnlyOf, SetOf, Explored, Unvisited;
    var lines := t.files[f];
    TakesNone(t, f);
    if i == |lines| {
      assert lines[i..] == [];
      LinesOfNone(t, t.base(f), visited);
    } else {
      var line := Parse(t, t.base(f), lines[i]);
      assert lines[i..][0] == lines[i] && lines[i..][1..] == lines[i + 1..];
      LinesStep(t, t.base(f), lines[i..], visited);
      assert TailOf(t, f, lines[i + 1..]);
      if line.Include? {
        var o := Flatten(t, line.path, visited);
        NotMore(t, visited, o.visited);
        TraceTakes(t, line.path, visited);
        LinesTake(t, f, i + 1, o.visited);
        OrdersApart(t, f, line.path, lines[i + 1..], visited);
        var sub, tail := Trace(t, line.path, visited), TraceFrom(t, f, i + 1, o.visited);
        var rest := FlattenLines(t, t.base(f), lines[i + 1..], o.visited);
        JoinTakes(t, f, i, sub, tail, o.order, rest.order);
      } else {
        LinesTake(t, f, i + 1, visited);
        NotInOrder(t, f, lines[i + 1..], visited);
        var rest := FlattenLines(t, t.base(f), lines[i + 1..], visited);
        var tail := TraceFrom(t, f, i + 1, visited);
        JoinTakes(t, f, i, [], tail, [], rest.order);
        assert [At(f, i)] + [] + tail == [At(f, i)] + tail && [] + rest.order == rest.order;
      }
    }
  }

  lemma TakesNone(t: Tree, f: string)
    ensures TakesAll(t, [], []) && OnlyOf([], SetOf([])) && OnlyOf([], SetOf([]) + {f}) && LinesOf([], f) == []
    ensures forall order :: SetOf([]) !! SetOf(order)
  {
  }

  lemma NotInOrder(t: Tree, f: string, lines: seq<string>, visited: set<string>)
    requires TailOf(t, f, lines) && f in visited && FlattenLines(t, t.base(f), lines, visited).Parsed?
    ensures f !in FlattenLines(t, t.base(f), lines, visited).order
  {
    hide FlattenLines, TailOf;
    LinesExplore(t, f, lines, visited);
  }

  lemma LinesOfJoin(e: Event, sub: seq<Event>, tail: seq<Event>, h: string)
    ensures LinesOf([e] + sub + tail, h) ==
            (if e.At? && e.file == h then [e.line] else []) + LinesOf(sub, h) + LinesOf(tail, h)
  {
    hide LinesOf;
    LinesOfBoth([e] + sub, tail, h);
    LinesOfBoth([e], sub, h);
    LinesOfOne(e, h);
  }

  lemma LinesOfOne(e: Event, h: string)
    ensures LinesOf([e], h) == if e.At? && e.file == h then [e.line] else []
  {
    assert [e][1..] == [];
  }

  lemma RangeStep(lo: nat, hi: nat)
    requires lo < hi
    ensures Range(lo, hi) == [lo] + Range(lo + 1, hi)
  {
  }

  /** Line i of file f, what it includes, and the rest of f. */
  lemma JoinTakes(t: Tree, f: string, i: nat, sub: seq<Event>, tail: seq<Event>, a: seq<string>, b: seq<string>)
    requires f in t.files && i < |t.files[f]| && f !in a && f !in b && SetOf(a) !! SetOf(b)
    requires TakesAll(t, sub, a) && OnlyOf(sub, SetOf(a))
    requires TakesAll(t, tail, b) && OnlyOf(tail, SetOf(b) + {f}) && LinesOf(tail, f) == Range(i + 1, |t.files[f]|)
    ensures var trace := [At(f, i)] + sub + tail;
            && TakesAll(t, trace, a + b) && OnlyOf(trace, SetOf(a + b) + {f})
            && LinesOf(trace, f) == Range(i, |t.files[f]|)
  {
    hide LinesOf, Range;
    var trace, none := [At(f, i)] + sub + tail, [];
    RangeStep(i, |t.files[f]|);
    LinesOfJoin(At(f, i), sub, tail, f);
    NoLines(sub, f);
    assert [i] + none + LinesOf(tail, f) == [i] + LinesOf(tail, f);
    forall h | h in a + b
      ensures h in t.files && LinesOf(trace, h) == Range(0, |t.files[h]|)
    {
      JoinTakesOne(t, f, i, sub, tail, a, b, h);
    }
  }

  lemma JoinTakesOne(t: Tree, f: string, i: nat, sub: seq<Event>, tail: seq<Event>, a: seq<string>, b: seq<string>,
                     h: string)
    requires f !in a && f !in b && SetOf(a) !! SetOf(b) && h in a + b
    requires TakesAll(t, sub, a) && OnlyOf(sub, SetOf(a)) && TakesAll(t, tail, b) && OnlyOf(tail, SetOf(b) + {f})
    ensures h in t.files && LinesOf([At(f, i)] + sub + tail, h) == Range(0, |t.files[h]|)
  {
    hide LinesOf, Range;
    LinesOfJoin(At(f, i), sub, tail, h);
    if h in a {
      assert h in SetOf(a) && h !in SetOf(b);
      NoLines(tail, h);
      assert [] + LinesOf(sub, h) + [] == LinesOf(sub, h);
    } else {
      assert h in SetOf(b) && h !in SetOf(a);
      NoLines(sub, h);
      assert [] + [] + LinesOf(tail, h) == LinesOf(tail, h);
    }
  }

  // ---------------------------------------------------------------------
  // Files do not interleave
  // ---------------------------------------------------------------------

  lemma Enclosed(fs: seq<string>, p: nat, x: nat, q: nat, y: nat)
    requires Nested(fs) && p < x < q < |fs| && y < |fs| && fs[p] == fs[q] && fs[x] != fs[p] && fs[y] == fs[x]
    ensures p < y < q
  {
  }

  /** Between two lines of f or of the files after it. */
  lemma EnclosedLater(f: string, a: seq<string>, b: seq<string>, p: nat, x: nat, q: nat, y: nat)
    requires Nested(b) && b != [] && b[0] == f && p <= x < q < |b| && y < |b|
    requires b[p] == b[q] && b[x] != b[p] && b[y] == b[x]
    ensures p < y < q && b[x] != f
  {
    hide Nested;
    Enclosed(b, p, x, q, y);
    if b[x] == f {
      Enclosed(b, p, x, q, 0);
    }
  }

  /** A line of f, other files that are finished, and the rest of f. */
  lemma NestedJoin(f: string, a: seq<string>, b: seq<string>)
    requires Nested(a) && Nested(b) && f !in a && (b != [] ==> b[0] == f) && forall g :: g in a ==> g !in b
    ensures Nested([f] + a + b)
  {
    var c := [f] + a + b;
    forall p, x, q, y | 0 <= p < x < q < |c| && 0 <= y < |c| && c[p] == c[q] && c[x] != c[p] && c[y] == c[x]
      ensures p < y < q
    {
      JoinEncloses(f, a, b, p, x, q, y);
    }
  }

  lemma JoinEncloses(f: string, a: seq<string>, b: seq<string>, p: nat, x: nat, q: nat, y: nat)
    requires Nested(a) && Nested(b) && f !in a && (b != [] ==> b[0] == f) && forall g :: g in a ==> g !in b
    requires p < x < q < |[f] + a + b| && y < |[f] + a + b|
    requires var c := [f] + a + b; c[p] == c[q] && c[x] != c[p] && c[y] == c[x]
    ensures p < y < q
  {
    hide Nested;
    var n := |a|;
    Place(f, a, b, p);
    Place(f, a, b, x);
    Place(f, a, b, q);
    Place(f, a, b, y);
    if 1 <= p <= n {
      Enclosed(a, p - 1, x - 1, q - 1, y - 1);
    } else if x > n {
      var p' := if p == 0 then 0 else p - 1 - n;
      var y' := if y == 0 then 0 else y - 1 - n;
      EnclosedLater(f, a, b, p', x - 1 - n, q - 1 - n, y');
    }
  }

  lemma Place(f: string, a: seq<string>, b: seq<string>, k: nat)
    requires k < 1 + |a| + |b|
    ensures ([f] + a + b)[k] == if k == 0 then f else if k <= |a| then a[k - 1] else b[k - 1 - |a|]
    ensures 1 <= k <= |a| ==> ([f] + a + b)[k] in a
    ensures k > |a| ==> ([f] + a + b)[k] in b
  {
  }

  lemma FilesJoin(e: Event, a: seq<Event>, b: seq<Event>)
    ensures Files([e] + a + b) == [e.file] + Files(a) + Files(b)
  {
  }

  lemma FilesOnly(trace: seq<Event>, files: set<string>, f: string)
    requires OnlyOf(trace, files)
    ensures f in Files(trace) ==> f in files
  {
    if f in Files(trace) {
      var k :| 0 <= k < |trace| && Files(trace)[k] == f;
      assert trace[k] in trace;
    }
  }

  /** The same for traces. */
  lemma TraceJoin(f: string, e: Event, a: seq<Event>, b: seq<Event>, s: set<string>, r: set<string>)
    requires e.file == f && f !in s && s !! r && OnlyOf(a, s) && OnlyOf(b, r + {f})
    requires Nested(Files(a)) && Nested(Files(b)) && (b != [] ==> b[0].file == f)
    ensures Nested(Files([e] + a + b))
  {
    hide Nested;
    FilesJoin(e, a, b);
    FilesOnly(a, s, f);
    forall g | g in Files(a)
      ensures g !in Files(b)
    {
      FilesOnly(a, s, g);
      FilesOnly(b, r + {f}, g);
    }
    NestedJoin(f, Files(a), Files(b));
  }

  lemma {:induction false} TraceNested(t: Tree, f: string, visited: set<string>)
    requires Flatten(t, f, visited).Parsed?
    ensures Nested(Files(Trace(t, f, visited)))
    decreases |Unvisited(t, visited)|, 0
  {
    hide Flatten, FlattenLines, Trace, TraceFrom, Nested, TailOf, Unvisited;
    TraceStep(t, f, visited);
    NestedNone();
    if f !in visited {
      LinesNested(t, f, 0, visited + {f});
      LinesTake(t, f, 0, visited + {f});
      WholeIsTail(t, f);
      LinesExplore(t, f, t.files[f], visited + {f});
      StartsAt(t, f, 0, visited + {f});
      var o, rest := FlattenLines(t, t.base(f), t.files[f], visited + {f}), TraceFrom(t, f, 0, visited + {f});
      TraceJoin(f, Open(f), [], rest, {}, SetOf(o.order));
      assert [Open(f)] + [] + rest == [Open(f)] + rest;
    }
  }

  lemma NestedNone()
    ensures Nested(Files([])) && OnlyOf([], {})
  {
  }

  lemma {:induction false} LinesNested(t: Tree, f: string, i: nat, visited: set<string>)
    requires f in t.files && i <= |t.files[f]| && f in visited
    requires FlattenLines(t, t.base(f), t.files[f][i..], visited).Parsed?
    ensures Nested(Files(TraceFrom(t, f, i, visited)))
    decreases |Unvisited(t, visited)|, |t.files[f]| - i
  {
    hide FlattenLines, Flatten, Parse, Trace, Nested, Extend, Explored, LinesOf, Range, TakesAll;
    var lines := t.files[f];
    NestedNone();
    if i < |lines| {
      var line := Parse(t, t.base(f), lines[i]);
      assert lines[i..][0] == lines[i] && lines[i..][1..] == lines[i + 1..];
      LinesStep(t, t.base(f), lines[i..], visited);
      assert TailOf(t, f, lines[i + 1..]);
      if line.Include? {
        var o := Flatten(t, line.path, visited);
        NotMore(t, visited, o.visited);
        TraceNested(t, line.path, visited);
        LinesNested(t, f, i + 1, o.visited);
        TraceTakes(t, line.path, visited);
        LinesTake(t, f, i + 1, o.visited);
        OrdersApart(t, f, line.path, lines[i + 1..], visited);
        var rest := FlattenLines(t, t.base(f), lines[i + 1..], o.visited);
        StartsAt(t, f, i + 1, o.visited);
        TraceJoin(f, At(f, i), Trace(t, line.path, visited), TraceFrom(t, f, i + 1, o.visited),
                  SetOf(o.order), SetOf(rest.order));
      } else {
        LinesNested(t, f, i + 1, visited);
        LinesTake(t, f, i + 1, visited);
        LinesExplore(t, f, lines[i + 1..], visited);
        var rest, tail := FlattenLines(t, t.base(f), lines[i + 1..], visited), TraceFrom(t, f, i + 1, visited);
        StartsAt(t, f, i + 1, visited);
        TraceJoin(f, At(f, i), [], tail, {}, SetOf(rest.order));
        assert [At(f, i)] + [] + tail == [At(f, i)] + tail;
      }
    }
  }

  lemma StartsAt(t: Tree, f: string, i: nat, visited: set<string>)
    requires f in t.files && i <= |t.files[f]|
    requires FlattenLines(t, t.base(f), t.files[f][i..], visited).Parsed?
    ensures var trace := TraceFrom(t, f, i, visited);
            if i == |t.files[f]| then trace == [] else trace != [] && trace[0] == At(f, i)
  {
  }

  // ---------------------------------------------------------------------
  // Files are opened where they are first included
  // ---------------------------------------------------------------------

  /** The line at f that includes sub's files, or nothing new, and what comes after. */
  ghost predicate OpensSub(t: Tree, f: string, i: nat, before: set<string>, sub: seq<Event>) {
    var line := LineAt(t, At(f, i));
    if line.Include? && line.path !in before then sub != [] && sub[0] == Open(line.path) else sub == []
  }

  lemma OpensJoin(t: Tree, f: string, i: nat, before: set<string>, sub: seq<Event>, tail: seq<Event>, mid: set<string>)
    requires OpensSub(t, f, i, before, sub) && mid == before + SetOf(Opened(sub))
    requires OpensWhenIncluded(t, before, sub) && OpensWhenIncluded(t, mid, tail)
    requires tail != [] ==> !tail[0].Open?
    ensures OpensWhenIncluded(t, before, [At(f, i)] + sub + tail)
  {
    hide LineAt, FollowsAt;
    var trace, n := [At(f, i)] + sub + tail, |sub|;
    forall p | 0 <= p < |trace| && LineAt(t, trace[p]).Include?
      ensures FollowsAt(before, trace, p, LineAt(t, trace[p]).path)
    {
      var g := LineAt(t, trace[p]).path;
      if p == 0 {
        FollowsFirst(t, f, i, before, sub, tail);
      } else if p <= n {
        assert trace[p] == sub[p - 1];
        FollowsInSub(At(f, i), before, sub, tail, p - 1, g);
      } else {
        assert trace[p] == tail[p - 1 - n];
        FollowsInTail(At(f, i), before, sub, tail, mid, p - 1 - n, g);
      }
    }
    forall p | 0 < p < |trace| && trace[p].Open?
      ensures LineAt(t, trace[p - 1]) == Include(trace[p].file)
    {
      if p <= n {
        assert trace[p] == sub[p - 1];
        if p > 1 {
          assert trace[p - 1] == sub[p - 2];
        }
      } else {
        assert trace[p] == tail[p - 1 - n] && trace[p - 1] == tail[p - 2 - n];
      }
    }
  }

  lemma FollowsFirst(t: Tree, f: string, i: nat, before: set<string>, sub: seq<Event>, tail: seq<Event>)
    requires OpensSub(t, f, i, before, sub) && LineAt(t, At(f, i)).Include? && (tail != [] ==> !tail[0].Open?)
    ensures FollowsAt(before, [At(f, i)] + sub + tail, 0, LineAt(t, At(f, i)).path)
  {
    hide LineAt;
    assert ([At(f, i)] + sub + tail)[..0] == [];
  }

  lemma FollowsInSub(e: Event, before: set<string>, sub: seq<Event>, tail: seq<Event>, p: nat, g: string)
    requires e.At? && p < |sub| && FollowsAt(before, sub, p, g) && (tail != [] ==> !tail[0].Open?)
    ensures FollowsAt(before, [e] + sub + tail, p + 1, g)
  {
    hide Opened;
    var trace := [e] + sub + tail;
    assert trace[..p + 1] == [e] + sub[..p];
    OpenedAfterLine(e, sub[..p]);
    if p + 1 == |sub| {
      assert p + 2 < |trace| ==> trace[p + 2] == tail[0];
    } else {
      assert trace[p + 2] == sub[p + 1];
    }
  }

  lemma FollowsInTail(e: Event, before: set<string>, sub: seq<Event>, tail: seq<Event>, mid: set<string>, k: nat,
                      g: string)
    requires e.At? && k < |tail| && FollowsAt(mid, tail, k, g) && mid == before + SetOf(Opened(sub))
    ensures FollowsAt(before, [e] + sub + tail, k + 1 + |sub|, g)
  {
    hide Opened;
    PrefixInTail(e, sub, tail, k);
    OpenedAfterLine(e, sub + tail[..k]);
    OpenedBoth(sub, tail[..k]);
    assert g in Opened([e] + (sub + tail[..k])) <==> g in Opened(sub) || g in Opened(tail[..k]);
  }

  lemma PrefixInTail(e: Event, sub: seq<Event>, tail: seq<Event>, k: nat)
    requires k < |tail|
    ensures var trace, p := [e] + sub + tail, k + 1 + |sub|;
            && p < |trace| && trace[..p] == [e] + (sub + tail[..k])
            && (p + 1 < |trace| <==> k + 1 < |tail|) && (p + 1 < |trace| ==> trace[p + 1] == tail[k + 1])
  {
  }

  lemma OpenedAfterLine(e: Event, rest: seq<Event>)
    requires e.At?
    ensures Opened([e] + rest) == Opened(rest)
  {
    assert ([e] + rest)[1..] == rest;
    assert [] + Opened(rest) == Opened(rest);
  }

  lemma OpensFirst(t: Tree, f: string, before: set<string>, rest: seq<Event>)
    requires OpensWhenIncluded(t, before + {f}, rest) && (rest != [] ==> !rest[0].Open?)
    ensures OpensWhenIncluded(t, before, [Open(f)] + rest)
  {
    var trace := [Open(f)] + rest;
    assert LineAt(t, Open(f)) == Skip;
    hide LineAt;
    forall p | 0 <= p < |trace| && LineAt(t, trace[p]).Include?
      ensures FollowsAt(before, trace, p, LineAt(t, trace[p]).path)
    {
      assert p > 0 && trace[p] == rest[p - 1] && trace[..p] == [Open(f)] + rest[..p - 1];
      OpenedBoth([Open(f)], rest[..p - 1]);
      FirstCollected(t, Open(f), Sources);
    }
    forall p | 0 < p < |trace| && trace[p].Open?
      ensures LineAt(t, trace[p - 1]) == Include(trace[p].file)
    {
      assert p > 1 && trace[p] == rest[p - 1] && trace[p - 1] == rest[p - 2];
    }
  }

  lemma {:induction false} TraceOpens(t: Tree, f: string, visited: set<string>)
    requires Flatten(t, f, visited).Parsed?
    ensures OpensWhenIncluded(t, visited, Trace(t, f, visited))
    decreases |Unvisited(t, visited)|, 0
  {
    hide Flatten, FlattenLines, Trace, TraceFrom, OpensWhenIncluded, Unvisited;
    TraceStep(t, f, visited);
    NothingOpens(t, visited);
    if f !in visited {
      LinesOpen(t, f, 0, visited + {f});
      StartsAt(t, f, 0, visited + {f});
      OpensFirst(t, f, visited, TraceFrom(t, f, 0, visited + {f}));
    }
  }

  lemma NothingOpens(t: Tree, before: set<string>)
    ensures OpensWhenIncluded(t, before, [])
  {
  }

  /** A call visits what was visited before and the files it opens. */
  lemma VisitedGrows(t: Tree, f: string, visited: set<string>)
    requires Flatten(t, f, visited).Parsed?
    ensures Flatten(t, f, visited).visited == visited + SetOf(Opened(Trace(t, f, visited)))
  {
    hide Flatten, Trace;
    FlattenExplores(t, f, visited);
    TraceCollects(t, f, visited, Sources);
  }

  lemma {:induction false} LinesOpen(t: Tree, f: string, i: nat, visited: set<string>)
    requires f in t.files && i <= |t.files[f]| && f in visited
    requires FlattenLines(t, t.base(f), t.files[f][i..], visited).Parsed?
    ensures OpensWhenIncluded(t, visited, TraceFrom(t, f, i, visited))
    decreases |Unvisited(t, visited)|, |t.files[f]| - i
  {
    hide FlattenLines, Flatten, Parse, Trace, OpensWhenIncluded, Extend;
    var lines := t.files[f];
    NothingOpens(t, visited);
    if i < |lines| {
      var line := Parse(t, t.base(f), lines[i]);
      assert lines[i..][0] == lines[i] && lines[i..][1..] == lines[i + 1..];
      LinesStep(t, t.base(f), lines[i..], visited);
      assert LineAt(t, At(f, i)) == line;
      if line.Include? {
        var o := Flatten(t, line.path, visited);
        NotMore(t, visited, o.visited);
        TraceOpens(t, line.path, visited);
        LinesOpen(t, f, i + 1, o.visited);
        VisitedGrows(t, line.path, visited);
        TraceTakes(t, line.path, visited);
        TraceStep(t, line.path, visited);
        StartsAt(t, f, i + 1, o.visited);
        OpensJoin(t, f, i, visited, Trace(t, line.path, visited), TraceFrom(t, f, i + 1, o.visited), o.visited);
      } else {
        LinesOpen(t, f, i + 1, visited);
        StartsAt(t, f, i + 1, visited);
        var tail := TraceFrom(t, f, i + 1, visited);
        OpensJoin(t, f, i, visited, [], tail, visited);
        assert [At(f, i)] + [] + tail == [At(f, i)] + tail;
      }
    }
  }

  // ---------------------------------------------------------------------
  // Files are opened before their lines are taken
  // ---------------------------------------------------------------------

  lemma OpenedBeforeJoin(f: string, i: nat, sub: seq<Event>, tail: seq<Event>)
    requires OpenedBefore({}, sub) && OpenedBefore({f}, tail)
    ensures OpenedBefore({f}, [At(f, i)] + sub + tail)
  {
    hide Opened;
    var e, n := At(f, i), |sub|;
    var trace := [e] + sub + tail;
    forall k | 0 < k < |trace| && trace[k].file != f
      ensures trace[k].file in Opened(trace[..k + 1])
    {
      if k <= n {
        assert trace[k] == sub[k - 1] && trace[..k + 1] == [e] + sub[..k];
        OpenedAfterLine(e, sub[..k]);
      } else {
        var m := k - 1 - n;
        assert trace[k] == tail[m] && trace[..k + 1] == [e] + (sub + tail[..m + 1]);
        OpenedAfterLine(e, sub + tail[..m + 1]);
        OpenedBoth(sub, tail[..m + 1]);
      }
    }
  }

  lemma OpenedBeforeFirst(f: string, rest: seq<Event>)
    requires OpenedBefore({f}, rest)
    ensures OpenedBefore({}, [Open(f)] + rest)
  {
    var trace := [Open(f)] + rest;
    forall k | 0 <= k < |trace|
      ensures trace[k].file in Opened(trace[..k + 1])
    {
      assert trace[..k + 1] == [Open(f)] + rest[..k];
      OpenedBoth([Open(f)], rest[..k]);
      assert [Open(f)][1..] == [];
      if k > 0 {
        assert trace[k] == rest[k - 1];
      }
    }
  }

  lemma {:induction false} TraceOpensBefore(t: Tree, f: string, visited: set<string>)
    requires Flatten(t, f, visited).Parsed?
    ensures OpenedBefore({}, Trace(t, f, visited))
    decreases |Unvisited(t, visited)|, 0
  {
    hide Flatten, FlattenLines, Trace, TraceFrom, OpenedBefore, Unvisited;
    TraceStep(t, f, visited);
    if f in visited {
      NothingBefore({});
    } else {
      LinesOpenBefore(t, f, 0, visited + {f});
      OpenedBeforeFirst(f, TraceFrom(t, f, 0, visited + {f}));
    }
  }

  lemma NothingBefore(except: set<string>)
    ensures OpenedBefore(except, [])
  {
  }

  lemma {:induction false} LinesOpenBefore(t: Tree, f: string, i: nat, visited: set<string>)
    requires f in t.files && i <= |t.files[f]|
    requires FlattenLines(t, t.base(f), t.files[f][i..], visited).Parsed?
    ensures OpenedBefore({f}, TraceFrom(t, f, i, visited))
    decreases |Unvisited(t, visited)|, |t.files[f]| - i
  {
    hide FlattenLines, Flatten, Parse, Trace, OpenedBefore, Extend, Unvisited;
    var lines := t.files[f];
    NothingBefore({f});
    NothingBefore({});
    if i < |lines| {
      var line := Parse(t, t.base(f), lines[i]);
      assert lines[i..][0] == lines[i] && lines[i..][1..] == lines[i + 1..];
      LinesStep(t, t.base(f), lines[i..], visited);
      if line.Include? {
        var o := Flatten(t, line.path, visited);
        NotMore(t, visited, o.visited);
        TraceOpensBefore(t, line.path, visited);
        LinesOpenBefore(t, f, i + 1, o.visited);
        OpenedBeforeJoin(f, i, Trace(t, line.path, visited), TraceFrom(t, f, i + 1, o.visited));
      } else {
        LinesOpenBefore(t, f, i + 1, visited);
        var tail := TraceFrom(t, f, i + 1, visited);
        OpenedBeforeJoin(f, i, [], tail);
        assert [At(f, i)] + [] + tail == [At(f, i)] + tail;
      }
    }
  }

  // ---------------------------------------------------------------------
  // There is only one depth-first traversal
  // ---------------------------------------------------------------------

  lemma {:induction false} RangeAt(lo: nat, hi: nat)
    ensures |Range(lo, hi)| == (if lo < hi then hi - lo else 0)
    ensures forall k :: 0 <= k < |Range(lo, hi)| ==> Range(lo, hi)[k] == lo + k
    decreases hi - lo
  {
    if lo < hi {
      RangeAt(lo + 1, hi);
    }
  }

  lemma LinesAround(trace: seq<Event>, k: nat, h: string)
    requires k < |trace| && trace[k].At? && trace[k].file == h
    ensures LinesOf(trace, h) == LinesOf(trace[..k], h) + [trace[k].line] + LinesOf(trace[k + 1..], h)
  {
    hide LinesOf;
    assert trace == trace[..k] + ([trace[k]] + trace[k + 1..]);
    LinesOfBoth(trace[..k], [trace[k]] + trace[k + 1..], h);
    LinesOfBoth([trace[k]], trace[k + 1..], h);
    LinesOfOne(trace[k], h);
  }

  /** A number in a range has the smaller ones before it. */
  lemma RangeBefore(n: nat, front: seq<nat>, x: nat, back: seq<nat>)
    requires Range(0, n) == front + [x] + back
    ensures x < n && front == Range(0, x)
  {
    hide Range;
    RangeAt(0, n);
    var k, all := |front|, front + [x] + back;
    assert all[k] == x;
    RangeAt(0, x);
    assert forall i :: 0 <= i < k ==> front[i] == all[i];
  }

  /** When event k takes a line of h, all lines of h before it have been taken. */
  lemma LinesBefore(t: Tree, root: string, trace: seq<Event>, k: nat)
    requires IsDepthFirst(t, root, trace) && k < |trace| && trace[k].At?
    ensures var h := trace[k].file;
            h in t.files && LinesOf(trace[..k], h) == Range(0, trace[k].line) && trace[k].line < |t.files[h]|
  {
    hide IsDepthFirst, LinesOf, Range, Opened;
    var h := trace[k].file;
    FileIsOpened(t, root, trace, k);
    LinesAround(trace, k, h);
    RangeBefore(|t.files[h]|, LinesOf(trace[..k], h), trace[k].line, LinesOf(trace[k + 1..], h));
  }

  lemma FileIsOpened(t: Tree, root: string, trace: seq<Event>, k: nat)
    requires IsDepthFirst(t, root, trace) && k < |trace|
    ensures trace[k].file in Opened(trace) && trace[k].file in t.files
    ensures LinesOf(trace, trace[k].file) == Range(0, |t.files[trace[k].file]|)
  {
    hide Nested, OpensWhenIncluded, LinesOf, Range;
    assert trace == trace[..k + 1] + trace[k + 1..];
    OpenedBoth(trace[..k + 1], trace[k + 1..]);
  }

  lemma MoreLines(trace: seq<Event>, k: nat, h: string) returns (y: nat)
    requires k <= |trace| && |LinesOf(trace[..k], h)| < |LinesOf(trace, h)|
    ensures k <= y < |trace| && trace[y].file == h
  {
    hide LinesOf;
    assert trace == trace[..k] + trace[k..];
    LinesOfBoth(trace[..k], trace[k..], h);
    if forall e :: e in trace[k..] ==> e.file != h {
      NoLines(trace[k..], h);
      assert false;
    }
    var e :| e in trace[k..] && e.file == h;
    var i :| 0 <= i < |trace[k..]| && trace[k..][i] == e;
    y := k + i;
  }

  /** A file whose lines are not all taken has more to come. */
  lemma MoreToCome(t: Tree, root: string, trace: seq<Event>, k: nat, h: string) returns (y: nat)
    requires IsDepthFirst(t, root, trace) && k <= |trace| && h in Opened(trace) && h in t.files
    requires |LinesOf(trace[..k], h)| < |t.files[h]|
    ensures k <= y < |trace| && trace[y].file == h
  {
    hide IsDepthFirst, LinesOf, Range, Opened;
    AllLines(t, root, trace, h);
    RangeAt(0, |t.files[h]|);
    y := MoreLines(trace, k, h);
  }

  lemma AllLines(t: Tree, root: string, trace: seq<Event>, h: string)
    requires IsDepthFirst(t, root, trace) && h in Opened(trace) && h in t.files
    ensures LinesOf(trace, h) == Range(0, |t.files[h]|)
  {
    hide Nested, OpensWhenIncluded, OpenedBefore, LinesOf, Range;
  }

  lemma {:induction false} OpenedAt(trace: seq<Event>, f: string) returns (p: nat)
    requires f in Opened(trace)
    ensures p < |trace| && trace[p] == Open(f)
    decreases |trace|
  {
    if trace[0].Open? && trace[0].file == f {
      p := 0;
    } else {
      var q := OpenedAt(trace[1..], f);
      p := q + 1;
    }
  }

  /** Of two files that are both unfinished after k events, the one opened first does not go on. */
  lemma FirstOpenedWaits(t: Tree, root: string, a: seq<Event>, k: nat, p: nat, x: nat)
    requires IsDepthFirst(t, root, a) && p < x < k < |a| && a[k].At? && a[p].file == a[k].file
    requires a[x].Open? && a[x].file != a[k].file && a[x].file in t.files
    ensures |LinesOf(a[..k], a[x].file)| >= |t.files[a[x].file]|
  {
    hide OpensWhenIncluded, LinesOf, OpenedBefore, Nested;
    var h := a[x].file;
    FileIsOpened(t, root, a, x);
    if |LinesOf(a[..k], h)| < |t.files[h]| {
      var y := MoreToCome(t, root, a, k, h);
      Enclosed(Files(a), p, x, k, y);
    }
  }

  /** What comes after a common beginning, when it is a line. */
  lemma SameLineNext(t: Tree, root: string, a: seq<Event>, b: seq<Event>, k: nat)
    requires IsDepthFirst(t, root, a) && IsDepthFirst(t, root, b)
    requires k < |a| && k < |b| && a[..k] == b[..k] && a[k].At? && b[k].At?
    ensures a[k] == b[k]
  {
    hide IsDepthFirst, LinesOf, Range;
    SameFileNext(t, root, a, b, k);
    LinesBefore(t, root, a, k);
    LinesBefore(t, root, b, k);
    RangeAt(0, a[k].line);
    RangeAt(0, b[k].line);
  }

  /** Both could go on, so neither waits for the other. */
  lemma SameFileNext(t: Tree, root: string, a: seq<Event>, b: seq<Event>, k: nat)
    requires IsDepthFirst(t, root, a) && IsDepthFirst(t, root, b)
    requires k < |a| && k < |b| && a[..k] == b[..k] && a[k].At? && b[k].At?
    ensures a[k].file == b[k].file
  {
    hide IsDepthFirst, LinesOf, Range;
    var g, h := a[k].file, b[k].file;
    if g != h {
      var p := OpenedInTrace(t, root, a, k);
      var x := OpenedInTrace(t, root, b, k);
      assert a[p] == a[..k][p] == b[..k][p] == b[p];
      assert a[x] == a[..k][x] == b[..k][x] == b[x];
      Unfinished(t, root, a, k);
      Unfinished(t, root, b, k);
      if p < x {
        FirstOpenedWaits(t, root, a, k, p, x);
      } else {
        FirstOpenedWaits(t, root, b, k, x, p);
      }
      assert false;
    }
  }

  lemma Unfinished(t: Tree, root: string, a: seq<Event>, k: nat)
    requires IsDepthFirst(t, root, a) && k < |a| && a[k].At?
    ensures a[k].file in t.files && |LinesOf(a[..k], a[k].file)| < |t.files[a[k].file]|
  {
    hide IsDepthFirst, LinesOf, Range;
    LinesBefore(t, root, a, k);
    RangeAt(0, a[k].line);
  }

  lemma OpenedInTrace(t: Tree, root: string, a: seq<Event>, k: nat) returns (p: nat)
    requires IsDepthFirst(t, root, a) && k < |a| && a[k].At?
    ensures p < k && a[p] == Open(a[k].file)
  {
    hide Nested, OpensWhenIncluded, LinesOf, Range, Opened;
    OpenedInPrefix(a, k);
    p := OpenedAt(a[..k], a[k].file);
  }

  lemma OpenedInPrefix(trace: seq<Event>, k: nat)
    requires OpenedBefore({}, trace) && k < |trace| && trace[k].At?
    ensures trace[k].file in Opened(trace[..k])
  {
    assert trace[..k + 1] == trace[..k] + [trace[k]];
    OpenedBoth(trace[..k], [trace[k]]);
    assert [trace[k]][1..] == [];
  }

  /** An event that opens a file is forced by the line before it. */
  lemma OpeningForced(t: Tree, root: string, a: seq<Event>, b: seq<Event>, k: nat)
    requires IsDepthFirst(t, root, a) && IsDepthFirst(t, root, b)
    requires 0 < k < |a| && k <= |b| && a[..k] == b[..k] && a[k].Open?
    ensures k < |b| && b[k] == a[k]
  {
    hide Nested, LinesOf, Range, OpenedBefore, LineAt;
    var g := a[k].file;
    assert a[k - 1] == b[k - 1] && a[..k - 1] == b[..k - 1];
    assert LineAt(t, a[k - 1]) == Include(g);
    assert FollowsAt({}, a, k - 1, g) && FollowsAt({}, b, k - 1, g);
  }

  lemma {:induction false} PrefixForced(t: Tree, root: string, a: seq<Event>, b: seq<Event>, k: nat)
    requires IsDepthFirst(t, root, a) && IsDepthFirst(t, root, b) && k <= |a|
    ensures k <= |b| && a[..k] == b[..k]
    decreases k
  {
    hide Nested, OpensWhenIncluded, LinesOf, Range, OpenedBefore;
    if k > 0 {
      var n := k - 1;
      PrefixForced(t, root, a, b, n);
      if n > 0 {
        if a[n].Open? {
          OpeningForced(t, root, a, b, n);
        } else {
          LinesBefore(t, root, a, n);
          RangeAt(0, a[n].line);
          OpenedInBoth(a, b, n);
          var y := MoreToCome(t, root, b, n, a[n].file);
          if b[n].Open? {
            OpeningForced(t, root, b, a, n);
          } else {
            SameLineNext(t, root, a, b, n);
          }
        }
      }
      assert a[..k] == a[..n] + [a[n]] && b[..k] == b[..n] + [b[n]];
    }
  }

  lemma OpenedInBoth(a: seq<Event>, b: seq<Event>, k: nat)
    requires OpenedBefore({}, a) && k < |a| && k <= |b| && a[k].At? && a[..k] == b[..k]
    ensures a[k].file in Opened(b)
  {
    OpenedInPrefix(a, k);
    assert b == b[..k] + b[k..];
    OpenedBoth(b[..k], b[k..]);
  }

  /** The include graph has at most one depth-first traversal, so the order of the entries is determined. */
  lemma TraversalUnique(t: Tree, root: string, a: seq<Event>, b: seq<Event>)
    requires IsDepthFirst(t, root, a) && IsDepthFirst(t, root, b)
    ensures a == b
  {
    hide IsDepthFirst;
    PrefixForced(t, root, a, b, |a|);
    PrefixForced(t, root, b, a, |b|);
    assert a[..|a|] == a && b[..|b|] == b;
  }

  // ---------------------------------------------------------------------
  // The whole
  // ---------------------------------------------------------------------

  /** Whenever flattening succeeds there is a depth-first traversal of the include graph whose lines' own entries, one
      after the other, are the entries found, and which opens the files in the order visited. */
  lemma FlattenInDepthFirstOrder(t: Tree, root: string) returns (trace: seq<Event>)
    requires Flatten(t, root, {}).Parsed?
    ensures IsDepthFirst(t, root, trace)
    ensures Opened(trace) == Flatten(t, root, {}).order
    ensures forall kind :: Collected(t, trace, kind) == Of(Flatten(t, root, {}).entries, kind)
  {
    hide Flatten, Trace, Nested, OpensWhenIncluded, Collected, LinesOf, Range, OpenedBefore;
    trace := Trace(t, root, {});
    forall kind
      ensures Collected(t, trace, kind) == Of(Flatten(t, root, {}).entries, kind)
    {
      TraceCollects(t, root, {}, kind);
    }
    TraceCollects(t, root, {}, Sources);
    TraceTakes(t, root, {});
    TraceNested(t, root, {});
    TraceOpens(t, root, {});
    TraceOpensBefore(t, root, {});
    FlattenExplores(t, root, {});
  }
}

/** Lineage: the dependency maps of a descriptor set, the roots a type name matches, and the merged
    upstream and downstream walks. */
module Lineage {
  import opened Sequences
  import opened Descriptors
  import opened Graphs

  // ---------- edges, as sequences in building order ----------

  /** `source` has a field of type `target`. */
  datatype Edge = Edge(source: string, target: string)

  function Dotted(prefix: string, name: string): string {
    prefix + "." + name
  }

  function FieldEdges(fqn: string): Field -> seq<Edge> {
    (f: Field) => if IsTypeReference(f.typeName) then [Edge(fqn, f.typeName[1..])] else []
  }

  function EdgesIn(prefix: string, msgs: seq<Message>): seq<Edge>
    decreases msgs
  {
    if msgs == [] then []
    else
      var last := msgs[|msgs| - 1];
      var fqn := Dotted(prefix, last.name);
      EdgesIn(prefix, msgs[..|msgs| - 1]) + (FlatMap(FieldEdges(fqn), last.fields) + EdgesIn(fqn, last.messages))
  }

  function FileEdges(file: File): seq<Edge> {
    EdgesIn(file.package, file.messages)
  }

  function Edges(files: seq<File>): seq<Edge> {
    FlatMap(FileEdges, files)
  }

  function Flip(e: Edge): Edge {
    Edge(e.target, e.source)
  }

  function AddEdge(g: Graph, e: Edge): Graph {
    g[e.source := Successors(g, e.source) + [e.target]]
  }

  /** The map after one append for each edge. */
  function AddEdges(g: Graph, edges: seq<Edge>): Graph {
    if edges == [] then g else AddEdge(AddEdges(g, edges[..|edges| - 1]), edges[|edges| - 1])
  }

  function AddFlipped(g: Graph, edges: seq<Edge>): Graph {
    if edges == [] then g else AddEdge(AddFlipped(g, edges[..|edges| - 1]), Flip(edges[|edges| - 1]))
  }

  lemma {:induction false} AddEdgesAppend(g: Graph, a: seq<Edge>, b: seq<Edge>)
    ensures AddEdges(g, a + b) == AddEdges(AddEdges(g, a), b)
    ensures AddFlipped(g, a + b) == AddFlipped(AddFlipped(g, a), b)
  {
    if b == [] {
      assert a + b == a;
    } else {
      assert (a + b)[..|a + b| - 1] == a + b[..|b| - 1];
      AddEdgesAppend(g, a, b[..|b| - 1]);
    }
  }

  // ---------- building the maps ----------

  class DependencyMaps {
    var forward: Graph
    var reverse: Graph

    constructor ()
      ensures forward == map[] && reverse == map[]
    {
      forward, reverse := map[], map[];
    }

    /** Both maps have received `edges`, in order, since they were `f` and `r`. */
    ghost predicate Holds(f: Graph, r: Graph, edges: seq<Edge>)
      reads this
    {
      forward == AddEdges(f, edges) && reverse == AddFlipped(r, edges)
    }

    method BuildDepsFromFields(fqn: string, fields: seq<Field>)
      modifies this
      ensures Holds(old(forward), old(reverse), FlatMap(FieldEdges(fqn), fields))
    {
      ghost var edgesOf := FieldEdges(fqn);
      for i := 0 to |fields|
        invariant Holds(old(forward), old(reverse), FlatMap(edgesOf, fields[..i]))
      {
        FlatMapSnoc(edgesOf, fields, i);
        AddEdgesAppend(old(forward), FlatMap(edgesOf, fields[..i]), edgesOf(fields[i]));
        AddEdgesAppend(old(reverse), FlatMap(edgesOf, fields[..i]), edgesOf(fields[i]));
        var typeName := fields[i].typeName;
        if typeName != "" && typeName[0] == '.' {
          var dep := typeName[1..];
          OneEdge(forward, reverse, Edge(fqn, dep));
          forward := forward[fqn := Successors(forward, fqn) + [dep]];
          reverse := reverse[dep := Successors(reverse, dep) + [fqn]];
        }
      }
      assert fields[..|fields|] == fields;
    }

    method BuildDepsFromMsg(prefix: string, msg: Message)
      modifies this
      ensures Holds(old(forward), old(reverse), EdgesIn(prefix, [msg]))
      decreases msg
    {
      var fqn := Dotted(prefix, msg.name);
      ghost var own := FlatMap(FieldEdges(fqn), msg.fields);
      BuildDepsFromFields(fqn, msg.fields);
      assert own + EdgesIn(fqn, msg.messages[..0]) == own;
      for i := 0 to |msg.messages|
        invariant Holds(old(forward), old(reverse), own + EdgesIn(fqn, msg.messages[..i]))
      {
        ghost var before := own + EdgesIn(fqn, msg.messages[..i]);
        BuildDepsFromMsg(fqn, msg.messages[i]);
        AddEdgesAppend(old(forward), before, EdgesIn(fqn, [msg.messages[i]]));
        AddEdgesAppend(old(reverse), before, EdgesIn(fqn, [msg.messages[i]]));
        EdgesInStep(fqn, msg.messages, i, own);
      }
      assert msg.messages[..|msg.messages|] == msg.messages;
      EdgesInOne(prefix, msg);
    }
  }

  lemma OneEdge(f: Graph, r: Graph, e: Edge)
    ensures AddEdges(f, [e]) == AddEdge(f, e) && AddFlipped(r, [e]) == AddEdge(r, Flip(e))
  {
    assert [e][..0] == [];
  }

  lemma EdgesInOne(prefix: string, msg: Message)
    ensures var fqn := Dotted(prefix, msg.name);
            EdgesIn(prefix, [msg]) == FlatMap(FieldEdges(fqn), msg.fields) + EdgesIn(fqn, msg.messages)
  {
    assert [msg][..0] == [];
  }

  lemma EdgesInStep(prefix: string, msgs: seq<Message>, i: nat, start: seq<Edge>)
    requires i < |msgs|
    ensures start + EdgesIn(prefix, msgs[..i]) + EdgesIn(prefix, [msgs[i]]) == start + EdgesIn(prefix, msgs[..i + 1])
  {
    assert msgs[..i + 1][..i] == msgs[..i];
    EdgesInOne(prefix, msgs[i]);
    Assoc(start, EdgesIn(prefix, msgs[..i]), EdgesIn(prefix, [msgs[i]]));
  }

  method BuildDependencyMaps(files: seq<File>) returns (forward: Graph, reverse: Graph)
    ensures forward == AddEdges(map[], Edges(files)) && reverse == AddFlipped(map[], Edges(files))
  {
    var maps := new DependencyMaps();
    for i := 0 to |files|
      invariant maps.Holds(map[], map[], Edges(files[..i]))
    {
      ghost var before := Edges(files[..i]);
      var fd := files[i];
      assert before + EdgesIn(fd.package, fd.messages[..0]) == before;
      for j := 0 to |fd.messages|
        invariant maps.Holds(map[], map[], before + EdgesIn(fd.package, fd.messages[..j]))
      {
        ghost var start := before + EdgesIn(fd.package, fd.messages[..j]);
        maps.BuildDepsFromMsg(fd.package, fd.messages[j]);
        AddEdgesAppend(map[], start, EdgesIn(fd.package, [fd.messages[j]]));
        EdgesInStep(fd.package, fd.messages, j, before);
      }
      assert fd.messages[..|fd.messages|] == fd.messages;
      FlatMapSnoc(FileEdges, files, i);
    }
    assert files[..|files|] == files;
    return maps.forward, maps.reverse;
  }

  // ---------- what the maps say ----------

  function TargetOf(u: string): Edge -> seq<string> {
    (e: Edge) => if e.source == u then [e.target] else []
  }

  function SourceOf(v: string): Edge -> seq<string> {
    (e: Edge) => if e.target == v then [e.source] else []
  }

  lemma {:induction false} MapsHoldEdges(edges: seq<Edge>, u: string, v: string)
    ensures Successors(AddEdges(map[], edges), u) == FlatMap(TargetOf(u), edges)
    ensures Successors(AddFlipped(map[], edges), v) == FlatMap(SourceOf(v), edges)
  {
    if edges != [] {
      MapsHoldEdges(edges[..|edges| - 1], u, v);
    }
  }

  lemma CountOneEdge(e: Edge, u: string, v: string)
    ensures multiset([e])[Edge(u, v)] == multiset(TargetOf(u)(e))[v] == multiset(SourceOf(v)(e))[u]
  {
    CountOne(e, Edge(u, v));
    CountOne(e.target, v);
    CountOne(e.source, u);
  }

  lemma CountLast<A, B>(f: A -> seq<B>, s: seq<A>, x: B)
    requires s != []
    ensures multiset(FlatMap(f, s))[x] == multiset(FlatMap(f, s[..|s| - 1]))[x] + multiset(f(s[|s| - 1]))[x]
  {
    CountAppend(FlatMap(f, s[..|s| - 1]), f(s[|s| - 1]), x);
  }

  lemma CountInit<T>(s: seq<T>, x: T)
    requires s != []
    ensures multiset(s)[x] == multiset(s[..|s| - 1])[x] + multiset([s[|s| - 1]])[x]
  {
    assert s == s[..|s| - 1] + [s[|s| - 1]];
    CountAppend(s[..|s| - 1], [s[|s| - 1]], x);
  }

  /** Each occurrence of an edge puts its target into the list of its source once, and vice versa. */
  lemma {:induction false} EdgeCount(edges: seq<Edge>, u: string, v: string)
    ensures multiset(FlatMap(TargetOf(u), edges))[v] == multiset(edges)[Edge(u, v)]
            == multiset(FlatMap(SourceOf(v), edges))[u]
  {
    if edges == [] {
      assert FlatMap(TargetOf(u), edges) == [] && FlatMap(SourceOf(v), edges) == [];
    } else {
      EdgeCount(edges[..|edges| - 1], u, v);
      CountInit(edges, Edge(u, v));
      CountOneEdge(edges[|edges| - 1], u, v);
      CountLast(TargetOf(u), edges, v);
      CountLast(SourceOf(v), edges, u);
    }
  }

  /** The two maps are transposes, counted with multiplicity: each lists the other end of an edge as
      often as the descriptor set has that edge. */
  lemma MapsAreTransposed(files: seq<File>, u: string, v: string)
    ensures var f, r := AddEdges(map[], Edges(files)), AddFlipped(map[], Edges(files));
            multiset(Successors(f, u))[v] == multiset(Edges(files))[Edge(u, v)] == multiset(Successors(r, v))[u]
  {
    MapsHoldEdges(Edges(files), u, v);
    EdgeCount(Edges(files), u, v);
  }

  lemma MapsTranspose(files: seq<File>)
    ensures Transposed(AddEdges(map[], Edges(files)), AddFlipped(map[], Edges(files)))
  {
    var f, r := AddEdges(map[], Edges(files)), AddFlipped(map[], Edges(files));
    forall u, v ensures v in Successors(f, u) <==> u in Successors(r, v) {
      MapsAreTransposed(files, u, v);
      assert v in Successors(f, u) <==> v in multiset(Successors(f, u));
      assert u in Successors(r, v) <==> u in multiset(Successors(r, v));
    }
  }

  /** `v` is downstream of `u` at level `k` exactly when `u` is upstream of `v` at level `k`. */
  lemma UpstreamDownstreamDual(files: seq<File>, u: string, v: string, k: nat, maxLevel: int)
    ensures (exists n :: n in WalkFrom(AddFlipped(map[], Edges(files)), u, maxLevel) && n.fqn == v && n.level == k)
            <==> exists n :: n in WalkFrom(AddEdges(map[], Edges(files)), v, maxLevel) && n.fqn == u && n.level == k
  {
    MapsTranspose(files);
    WalksMirror(AddEdges(map[], Edges(files)), AddFlipped(map[], Edges(files)), v, u, k, maxLevel);
  }

  function DeclEdges(d: MessageDecl): seq<Edge> {
    FlatMap(FieldEdges(d.fullName), d.message.fields)
  }

  lemma {:induction false} EdgesOfDeclarations(prefix: string, syntax: Syntax, msgs: seq<Message>)
    requires prefix != ""
    ensures EdgesIn(prefix, msgs) == FlatMap(DeclEdges, MessagesIn(prefix, syntax, msgs))
    decreases msgs
  {
    if msgs != [] {
      var init, last := msgs[..|msgs| - 1], msgs[|msgs| - 1];
      var decl := MessageDecl(Join(prefix, last.name), syntax, last);
      EdgesOfDeclarations(prefix, syntax, init);
      EdgesOfDeclarations(decl.fullName, syntax, last.messages);
      var nested := MessagesIn(decl.fullName, syntax, last.messages);
      FlatMapAppend(DeclEdges, MessagesIn(prefix, syntax, init), [decl] + nested);
      FlatMapAppend(DeclEdges, [decl], nested);
      FlatMapOne(DeclEdges, decl);
    }
  }

  /** With a package in every file, the graph has one edge for each typed field of each declared
      message, at any depth, under the names type references use. */
  lemma {:induction false} GraphOfDeclarations(files: seq<File>)
    requires forall file | file in files :: file.package != ""
    ensures Edges(files) == FlatMap(DeclEdges, AllMessages(files))
  {
    forall file | file in files
      ensures FileEdges(file) == FlatMap(DeclEdges, FileMessages(file))
    {
      EdgesOfDeclarations(file.package, file.syntax, file.messages);
    }
    FlatMapNested(DeclEdges, FileMessages, FileEdges, files);
  }

  /** Edge by edge, the sources on the left are longer. */
  ghost predicate Longer(edges: seq<Edge>, expected: seq<Edge>) {
    |edges| == |expected| && forall i | 0 <= i < |edges| :: |edges[i].source| > |expected[i].source|
  }

  lemma LongerAppend(a: seq<Edge>, b: seq<Edge>, c: seq<Edge>, d: seq<Edge>)
    requires Longer(a, c) && Longer(b, d)
    ensures Longer(a + b, c + d)
  {}

  lemma {:induction false} LongerOwn(fqn: string, name: string, fields: seq<Field>)
    requires |fqn| > |name|
    ensures Longer(FlatMap(FieldEdges(fqn), fields), FlatMap(FieldEdges(name), fields))
  {
    if fields != [] {
      var init, last := fields[..|fields| - 1], fields[|fields| - 1];
      LongerOwn(fqn, name, init);
      LongerAppend(FlatMap(FieldEdges(fqn), init), FieldEdges(fqn)(last), FlatMap(FieldEdges(name), init),
                   FieldEdges(name)(last));
    }
  }

  /** Without a package the walk puts a dot before every name that references do not have. */
  lemma {:induction false} LongerSources(prefix: string, parent: string, syntax: Syntax, msgs: seq<Message>)
    requires prefix == parent == "" || |prefix| > |parent|
    ensures Longer(EdgesIn(prefix, msgs), FlatMap(DeclEdges, MessagesIn(parent, syntax, msgs)))
    decreases msgs
  {
    if msgs != [] {
      var init, last := msgs[..|msgs| - 1], msgs[|msgs| - 1];
      var fqn, decl := Dotted(prefix, last.name), MessageDecl(Join(parent, last.name), syntax, last);
      var before, nested := MessagesIn(parent, syntax, init), MessagesIn(decl.fullName, syntax, last.messages);
      LongerSources(prefix, parent, syntax, init);
      LongerSources(fqn, decl.fullName, syntax, last.messages);
      LongerOwn(fqn, decl.fullName, last.fields);
      FlatMapAppend(DeclEdges, before, [decl] + nested);
      FlatMapAppend(DeclEdges, [decl], nested);
      FlatMapOne(DeclEdges, decl);
      LongerAppend(FlatMap(FieldEdges(fqn), last.fields), EdgesIn(fqn, last.messages), DeclEdges(decl),
                   FlatMap(DeclEdges, nested));
      LongerAppend(EdgesIn(prefix, init), FlatMap(FieldEdges(fqn), last.fields) + EdgesIn(fqn, last.messages),
                   FlatMap(DeclEdges, before), DeclEdges(decl) + FlatMap(DeclEdges, nested));
    }
  }

  /** The file has a package, or no typed field at any depth. */
  predicate NamesFit(file: File) {
    file.package != "" || FileEdges(file) == []
  }

  /** What a file contributes, and what it should. */
  lemma FileGraph(file: File)
    ensures |FileEdges(file)| == |FlatMap(DeclEdges, FileMessages(file))|
    ensures FileEdges(file) == FlatMap(DeclEdges, FileMessages(file)) <==> NamesFit(file)
  {
    if file.package != "" {
      EdgesOfDeclarations(file.package, file.syntax, file.messages);
    } else {
      LongerSources("", "", file.syntax, file.messages);
      if FileEdges(file) != [] {
        assert FileEdges(file)[0] != FlatMap(DeclEdges, FileMessages(file))[0];
      }
    }
  }

  lemma EqualParts<T>(a: seq<T>, b: seq<T>, c: seq<T>, d: seq<T>)
    requires |b| == |d|
    ensures a + b == c + d <==> a == c && b == d
  {
    if a + b == c + d {
      assert a == (a + b)[..|a|] && b == (a + b)[|a|..];
      assert c == (c + d)[..|c|] && d == (c + d)[|c|..];
    }
  }

  lemma NamesFitSnoc(files: seq<File>)
    requires files != []
    ensures (forall file | file in files :: NamesFit(file)) <==>
            (forall file | file in files[..|files| - 1] :: NamesFit(file)) && NamesFit(files[|files| - 1])
  {
    assert files == files[..|files| - 1] + [files[|files| - 1]];
  }

  /** The graph uses the names that references use exactly when every file with a typed field, at any
      depth, has a package. */
  lemma {:induction false} GraphOfDeclarationsExactly(files: seq<File>)
    ensures Edges(files) == FlatMap(DeclEdges, AllMessages(files)) <==> forall file | file in files :: NamesFit(file)
  {
    if files != [] {
      var init, last := files[..|files| - 1], files[|files| - 1];
      GraphOfDeclarationsExactly(init);
      NamesFitSnoc(files);
      FileGraph(last);
      FlatMapAppend(DeclEdges, AllMessages(init), FileMessages(last));
      EqualParts(Edges(init), FileEdges(last), FlatMap(DeclEdges, AllMessages(init)),
                 FlatMap(DeclEdges, FileMessages(last)));
    }
  }

  // ---------- roots ----------

  function HasSuffix(s: string, suffix: string): bool {
    |s| >= |suffix| && s[|s| - |suffix|..] == suffix
  }

  predicate Matches(fqn: string, schemaName: string) {
    fqn == schemaName || HasSuffix(fqn, "." + schemaName)
  }

  function EnumFqns(prefix: string, enums: seq<Enum>): seq<string> {
    Map((e: Enum) => Dotted(prefix, e.name), enums)
  }

  function FqnsIn(prefix: string, msgs: seq<Message>): seq<string>
    decreases msgs
  {
    if msgs == [] then []
    else
      var last := msgs[|msgs| - 1];
      var fqn := Dotted(prefix, last.name);
      FqnsIn(prefix, msgs[..|msgs| - 1]) + ([fqn] + EnumFqns(fqn, last.enums) + FqnsIn(fqn, last.messages))
  }

  function FileFqns(file: File): seq<string> {
    FqnsIn(file.package, file.messages) + EnumFqns(file.package, file.enums)
  }

  function AllFqns(files: seq<File>): seq<string> {
    FlatMap(FileFqns, files)
  }

  class FqnSet {
    var names: set<string>

    constructor ()
      ensures names == {}
    {
      names := {};
    }

    method AddEnums(prefix: string, enums: seq<Enum>)
      modifies this
      ensures forall x :: x in names <==> x in old(names) || x in EnumFqns(prefix, enums)
    {
      for i := 0 to |enums|
        invariant forall x :: x in names <==> x in old(names) || x in EnumFqns(prefix, enums[..i])
      {
        assert EnumFqns(prefix, enums[..i + 1]) == EnumFqns(prefix, enums[..i]) + [Dotted(prefix, enums[i].name)];
        names := names + {Dotted(prefix, enums[i].name)};
      }
      assert enums[..|enums|] == enums;
    }

    method CollectFqns(prefix: string, msg: Message)
      modifies this
      ensures forall x :: x in names <==> x in old(names) || x in FqnsIn(prefix, [msg])
      decreases msg
    {
      var fqn := Dotted(prefix, msg.name);
      names := names + {fqn};
      AddEnums(fqn, msg.enums);
      ghost var own := [fqn] + EnumFqns(fqn, msg.enums);
      for i := 0 to |msg.messages|
        invariant forall x :: x in names <==> x in old(names) || x in own || x in FqnsIn(fqn, msg.messages[..i])
      {
        CollectFqns(fqn, msg.messages[i]);
        FqnsStep(fqn, msg.messages, i);
      }
      assert msg.messages[..|msg.messages|] == msg.messages;
      FqnsOne(prefix, msg);
    }
  }

  lemma FqnsOne(prefix: string, msg: Message)
    ensures var fqn := Dotted(prefix, msg.name);
            FqnsIn(prefix, [msg]) == [fqn] + EnumFqns(fqn, msg.enums) + FqnsIn(fqn, msg.messages)
  {
    assert [msg][..0] == [];
  }

  lemma FqnsStep(prefix: string, msgs: seq<Message>, i: nat)
    requires i < |msgs|
    ensures FqnsIn(prefix, msgs[..i + 1]) == FqnsIn(prefix, msgs[..i]) + FqnsIn(prefix, [msgs[i]])
  {
    assert msgs[..i + 1][..i] == msgs[..i];
    FqnsOne(prefix, msgs[i]);
  }

  /** Every declared name that is the schema name or ends in a dot and the schema name, once each, in
      an arbitrary order. */
  method FindRootFqns(files: seq<File>, schemaName: string) returns (roots: seq<string>)
    ensures Distinct(roots)
    ensures forall r :: r in roots <==> r in AllFqns(files) && Matches(r, schemaName)
  {
    var allFqns := new FqnSet();
    for i := 0 to |files|
      invariant fresh(allFqns)
      invariant forall x :: x in allFqns.names <==> x in AllFqns(files[..i])
    {
      var fd := files[i];
      for j := 0 to |fd.messages|
        invariant forall x :: x in allFqns.names <==>
                              x in AllFqns(files[..i]) || x in FqnsIn(fd.package, fd.messages[..j])
      {
        allFqns.CollectFqns(fd.package, fd.messages[j]);
        FqnsStep(fd.package, fd.messages, j);
      }
      assert fd.messages[..|fd.messages|] == fd.messages;
      allFqns.AddEnums(fd.package, fd.enums);
      FlatMapSnoc(FileFqns, files, i);
    }
    assert files[..|files|] == files;
    roots := [];
    var remaining := allFqns.names;
    while remaining != {}
      invariant Distinct(roots) && remaining <= allFqns.names
      invariant forall r :: r in roots <==> r in allFqns.names - remaining && Matches(r, schemaName)
    {
      var fqn :| fqn in remaining;
      remaining := remaining - {fqn};
      if Matches(fqn, schemaName) {
        roots := roots + [fqn];
      }
    }
  }

  // ---------- the walk ----------

  function NameSet(items: seq<Item>): set<string> {
    set x | x in ItemNames(items)
  }

  /** What a walk standing at `level` still has to report. */
  function Rest(graph: Graph, queue: seq<Item>, visited: set<string>, level: nat, maxLevel: int): seq<BfsNode> {
    if level < maxLevel then Walk(graph, queue, visited, level, maxLevel - level) else []
  }

  lemma RestStep(graph: Graph, queue: seq<Item>, visited: set<string>, level: nat, maxLevel: int, start: seq<BfsNode>)
    requires queue != [] && level < maxLevel
    ensures var next := NextLevel(graph, queue, visited);
            start + Rest(graph, queue, visited, level, maxLevel)
            == start + AtLevel(next, level + 1) + Rest(graph, next, visited + NameSet(next), level + 1, maxLevel)
  {
    var next := NextLevel(graph, queue, visited);
    Assoc(start, AtLevel(next, level + 1), Rest(graph, next, visited + NameSet(next), level + 1, maxLevel));
  }

  /** The breadth-first search with a frontier list per level. */
  method WalkLineage(graph: Graph, rootFqn: string, maxLevel: int) returns (results: seq<BfsNode>)
    ensures results == WalkFrom(graph, rootFqn, maxLevel)
  {
    var visited := {rootFqn};
    var queue := [Item(rootFqn, [rootFqn])];
    results := [];
    var level := 0;
    while |queue| > 0 && level < maxLevel
      invariant 0 <= level
      invariant results + Rest(graph, queue, visited, level, maxLevel) == WalkFrom(graph, rootFqn, maxLevel)
      decreases maxLevel - level
    {
      RestStep(graph, queue, visited, level, maxLevel, results);
      level := level + 1;
      queue, visited, results := VisitFrontier(graph, queue, visited, results, level);
    }
  }

  lemma VisitedStep(before: seq<Item>, found: seq<Item>, visited: set<string>, results: seq<BfsNode>, level: nat)
    ensures visited + NameSet(before) + NameSet(found) == visited + NameSet(before + found)
    ensures results + AtLevel(before, level) + AtLevel(found, level) == results + AtLevel(before + found, level)
  {
    NamesAppend(before, found);
    assert AtLevel(before + found, level) == AtLevel(before, level) + AtLevel(found, level);
  }

  method VisitFrontier(graph: Graph, queue: seq<Item>, visited0: set<string>, results0: seq<BfsNode>, level: nat)
    returns (nextQueue: seq<Item>, visited: set<string>, results: seq<BfsNode>)
    ensures nextQueue == NextLevel(graph, queue, visited0)
    ensures visited == visited0 + NameSet(nextQueue)
    ensures results == results0 + AtLevel(nextQueue, level)
  {
    nextQueue, visited, results := [], visited0, results0;
    for i := 0 to |queue|
      invariant nextQueue == NextLevel(graph, queue[..i], visited0)
      invariant visited == visited0 + NameSet(nextQueue)
      invariant results == results0 + AtLevel(nextQueue, level)
    {
      ghost var before, found := nextQueue, Discover(queue[i].path, Successors(graph, queue[i].name), visited);
      nextQueue, visited, results := VisitRelations(queue[i], Successors(graph, queue[i].name), visited, nextQueue,
                                                    results, level);
      NextLevelStep(graph, queue, i, visited0);
      VisitedStep(before, found, visited0, results0, level);
    }
    assert queue[..|queue|] == queue;
  }

  method VisitRelations(cur: Item, relations: seq<string>, visited0: set<string>, nextQueue0: seq<Item>,
                        results0: seq<BfsNode>, level: nat)
    returns (nextQueue: seq<Item>, visited: set<string>, results: seq<BfsNode>)
    ensures var found := Discover(cur.path, relations, visited0);
            && nextQueue == nextQueue0 + found
            && visited == visited0 + NameSet(found)
            && results == results0 + AtLevel(found, level)
  {
    nextQueue, visited, results := nextQueue0, visited0, results0;
    ghost var found: seq<Item> := [];
    for i := 0 to |relations|
      invariant found == Discover(cur.path, relations[..i], visited0)
      invariant nextQueue == nextQueue0 + found
      invariant visited == visited0 + NameSet(found)
      invariant results == results0 + AtLevel(found, level)
    {
      var relation := relations[i];
      assert relations[..i + 1][..i] == relations[..i];
      if relation !in visited {
        var it := Item(relation, cur.path + [relation]);
        visited := visited + {relation};
        results := results + [BfsNode(relation, level, it.path)];
        nextQueue := nextQueue + [it];
        assert ItemNames(found + [it]) == ItemNames(found) + [relation];
        assert AtLevel(found + [it], level) == AtLevel(found, level) + [BfsNode(relation, level, it.path)];
        found := found + [it];
      }
    }
    assert relations[..|relations|] == relations;
  }

  // ---------- lineage of a type name ----------

  datatype Direction = Both | Downstream | Upstream

  function NormalizeDirection(direction: string): Option<Direction> {
    if direction == "" || direction == "both" then Some(Both)
    else if direction == "downstream" then Some(Downstream)
    else if direction == "upstream" then Some(Upstream)
    else None
  }

  datatype LineageResponse = LineageResponse(
    direction: Direction, downstream: seq<BfsNode>, upstream: seq<BfsNode>,
    downstreamCount: nat, upstreamCount: nat, totalCount: nat)

  ghost predicate ReachedFromAny(g: Graph, roots: seq<string>, maxLevel: int, x: string) {
    exists r :: r in roots && x != r && maxLevel > 0 && Within(g, r, x, maxLevel)
  }

  /** `nodes` names each node that some root reaches within `maxLevel` edges once, and nothing else;
      each entry is what the walk from one of the roots reports. */
  ghost predicate MergesWalks(g: Graph, roots: seq<string>, maxLevel: int, nodes: seq<BfsNode>) {
    && Distinct(NodeNames(nodes))
    && (forall x :: x in NodeNames(nodes) <==> ReachedFromAny(g, roots, maxLevel, x))
    && (forall n | n in nodes :: exists r :: r in roots && IsWitness(g, r, n))
  }

  /** The nodes whose names are not in `seen`, in order. */
  function Unseen(nodes: seq<BfsNode>, seen: set<string>): seq<BfsNode> {
    if nodes == [] then []
    else
      var init, last := nodes[..|nodes| - 1], nodes[|nodes| - 1];
      Unseen(init, seen) + if last.fqn in seen || last.fqn in NodeNames(init) then [] else [last]
  }

  function NamesIn(nodes: seq<BfsNode>): set<string> {
    set x | x in NodeNames(nodes)
  }

  /** The walks from the roots one after the other, each without what an earlier one has found. */
  function MergedWalks(g: Graph, roots: seq<string>, maxLevel: int): seq<BfsNode> {
    if roots == [] then []
    else
      var merged := MergedWalks(g, roots[..|roots| - 1], maxLevel);
      merged + Unseen(WalkFrom(g, roots[|roots| - 1], maxLevel), NamesIn(merged))
  }

  lemma {:induction false} UnseenExactly(nodes: seq<BfsNode>, seen: set<string>)
    ensures Distinct(NodeNames(Unseen(nodes, seen)))
    ensures forall x :: x in NodeNames(Unseen(nodes, seen)) <==> x in NodeNames(nodes) && x !in seen
    ensures forall n | n in Unseen(nodes, seen) :: n in nodes
  {
    if nodes != [] {
      var init, last := nodes[..|nodes| - 1], nodes[|nodes| - 1];
      UnseenExactly(init, seen);
      assert nodes == init + [last];
      assert NodeNames(nodes) == NodeNames(init) + [last.fqn];
      var rest := Unseen(init, seen);
      if last.fqn in seen || last.fqn in NodeNames(init) {
        assert Unseen(nodes, seen) == rest;
      } else {
        assert NodeNames(rest + [last]) == NodeNames(rest) + [last.fqn];
        DistinctAppend(NodeNames(rest), [last.fqn]);
      }
    }
  }

  /** Appends the nodes whose names were not seen before. */
  method MergeUnseen(merged0: seq<BfsNode>, seen0: set<string>, nodes: seq<BfsNode>)
    returns (merged: seq<BfsNode>, seen: set<string>)
    requires seen0 == NamesIn(merged0)
    ensures merged == merged0 + Unseen(nodes, seen0) && seen == NamesIn(merged)
  {
    merged, seen := merged0, seen0;
    for i := 0 to |nodes|
      invariant merged == merged0 + Unseen(nodes[..i], seen0)
      invariant seen == NamesIn(merged) == seen0 + NamesIn(nodes[..i])
    {
      assert nodes[..i + 1][..i] == nodes[..i];
      assert NodeNames(nodes[..i + 1]) == NodeNames(nodes[..i]) + [nodes[i].fqn];
      if nodes[i].fqn !in seen {
        assert NodeNames(merged + [nodes[i]]) == NodeNames(merged) + [nodes[i].fqn];
        Assoc(merged0, Unseen(nodes[..i], seen0), [nodes[i]]);
        seen := seen + {nodes[i].fqn};
        merged := merged + [nodes[i]];
      }
    }
    assert nodes[..|nodes|] == nodes;
  }

  /** The merged walks name each node that some root reaches once. */
  lemma {:induction false} MergedWalksMerge(g: Graph, roots: seq<string>, maxLevel: int)
    ensures MergesWalks(g, roots, maxLevel, MergedWalks(g, roots, maxLevel))
  {
    if roots == [] {
      assert NodeNames([]) == [];
    } else {
      var init, root := roots[..|roots| - 1], roots[|roots| - 1];
      var merged, nodes := MergedWalks(g, init, maxLevel), WalkFrom(g, root, maxLevel);
      MergedWalksMerge(g, init, maxLevel);
      UnseenExactly(nodes, NamesIn(merged));
      var rest := Unseen(nodes, NamesIn(merged));
      assert NodeNames(merged + rest) == NodeNames(merged) + NodeNames(rest);
      DistinctAppend(NodeNames(merged), NodeNames(rest));
      MergeKeeps(g, init, root, maxLevel, merged, nodes, merged + rest);
      assert roots == init + [root];
    }
  }

  /** The walks come in the order of the roots ... */
  lemma {:induction false} MergedInOrder(g: Graph, roots: seq<string>, maxLevel: int, i: nat)
    requires i <= |roots|
    ensures MergedWalks(g, roots[..i], maxLevel) <= MergedWalks(g, roots, maxLevel)
  {
    if i == |roots| {
      assert roots[..i] == roots;
    } else {
      MergedInOrder(g, roots[..|roots| - 1], maxLevel, i);
      assert roots[..|roots| - 1][..i] == roots[..i];
    }
  }

  /** ... and that of a single root is reported as it is. */
  lemma OneRootIsWalked(g: Graph, root: string, maxLevel: int)
    ensures MergedWalks(g, [root], maxLevel) == WalkFrom(g, root, maxLevel)
  {
    assert [root][..0] == [] && NodeNames([]) == [];
    assert NamesIn([]) == {};
    WalkFromIsCorrect(g, root, maxLevel);
    NothingSeen(WalkFrom(g, root, maxLevel));
  }

  lemma {:induction false} NothingSeen(nodes: seq<BfsNode>)
    requires Distinct(NodeNames(nodes))
    ensures Unseen(nodes, {}) == nodes
  {
    if nodes != [] {
      var init, last := nodes[..|nodes| - 1], nodes[|nodes| - 1];
      assert NodeNames(nodes) == NodeNames(init) + [last.fqn];
      DistinctSnoc(NodeNames(init), last.fqn);
      NothingSeen(init);
      assert nodes == init + [last];
    }
  }

  function WalkOf(g: Graph, maxLevel: int): string -> seq<BfsNode> {
    (root: string) => WalkFrom(g, root, maxLevel)
  }

  /** The root at `i` finds the node, and no earlier one finds its name. */
  ghost predicate FirstFound(walk: string -> seq<BfsNode>, roots: seq<string>, n: BfsNode, i: int) {
    && 0 <= i < |roots| && n in walk(roots[i])
    && forall r | r in roots[..i] :: n.fqn !in NodeNames(walk(r))
  }

  lemma EarlierRoots(walk: string -> seq<BfsNode>, roots: seq<string>, n: BfsNode, i: int)
    requires 0 <= i < |roots| - 1
    ensures FirstFound(walk, roots[..|roots| - 1], n, i) <==> FirstFound(walk, roots, n, i)
  {
    assert roots[..|roots| - 1][..i] == roots[..i];
  }

  lemma SomeRoot(walk: string -> seq<BfsNode>, roots: seq<string>, n: BfsNode)
    requires roots != []
    ensures var k := |roots| - 1;
            (exists i :: FirstFound(walk, roots, n, i)) <==>
            (exists i :: FirstFound(walk, roots[..k], n, i)) || FirstFound(walk, roots, n, k)
  {
    var k := |roots| - 1;
    if i :| FirstFound(walk, roots[..k], n, i) {
      EarlierRoots(walk, roots, n, i);
    }
    if i :| FirstFound(walk, roots, n, i) {
      if i < k { EarlierRoots(walk, roots, n, i); }
    }
  }

  lemma LastRoot(g: Graph, roots: seq<string>, maxLevel: int, n: BfsNode)
    requires roots != []
    ensures var k := |roots| - 1;
            FirstFound(WalkOf(g, maxLevel), roots, n, k) <==>
            n in Unseen(WalkFrom(g, roots[k], maxLevel), NamesIn(MergedWalks(g, roots[..k], maxLevel)))
  {
    var k := |roots| - 1;
    MergedNames(g, roots[..k], maxLevel, n.fqn);
    WalkFromIsCorrect(g, roots[k], maxLevel);
    UnseenMember(WalkFrom(g, roots[k], maxLevel), NamesIn(MergedWalks(g, roots[..k], maxLevel)), n);
  }

  lemma MergedSnoc(g: Graph, roots: seq<string>, maxLevel: int, n: BfsNode)
    requires roots != []
    ensures var k := |roots| - 1;
            var merged := MergedWalks(g, roots[..k], maxLevel);
            n in MergedWalks(g, roots, maxLevel) <==>
            n in merged || n in Unseen(WalkFrom(g, roots[k], maxLevel), NamesIn(merged))
  {}

  /** Each node is reported as the first root that reaches it sees it. */
  lemma {:induction false} MergedByFirstRoot(g: Graph, roots: seq<string>, maxLevel: int, n: BfsNode)
    ensures n in MergedWalks(g, roots, maxLevel) <==> exists i :: FirstFound(WalkOf(g, maxLevel), roots, n, i)
  {
    if roots != [] {
      MergedByFirstRoot(g, roots[..|roots| - 1], maxLevel, n);
      MergedSnoc(g, roots, maxLevel, n);
      LastRoot(g, roots, maxLevel, n);
      SomeRoot(WalkOf(g, maxLevel), roots, n);
    }
  }

  lemma DistinctSnoc(s: seq<string>, x: string)
    requires Distinct(s + [x])
    ensures Distinct(s) && x !in s
  {
    var all := s + [x];
    forall i | 0 <= i < |s| ensures s[i] != x {
      assert all[i] == s[i] && all[|s|] == x;
    }
    forall i, j | 0 <= i < j < |s| ensures s[i] != s[j] {
      assert all[i] == s[i] && all[j] == s[j];
    }
  }

  lemma {:induction false} UnseenMember(nodes: seq<BfsNode>, seen: set<string>, n: BfsNode)
    requires Distinct(NodeNames(nodes))
    ensures n in Unseen(nodes, seen) <==> n in nodes && n.fqn !in seen
  {
    if nodes != [] {
      var init, last := nodes[..|nodes| - 1], nodes[|nodes| - 1];
      assert NodeNames(nodes) == NodeNames(init) + [last.fqn];
      assert nodes == init + [last];
      DistinctSnoc(NodeNames(init), last.fqn);
      UnseenMember(init, seen, n);
    }
  }

  lemma MergedNames(g: Graph, roots: seq<string>, maxLevel: int, x: string)
    ensures x in NodeNames(MergedWalks(g, roots, maxLevel)) <==>
            exists r :: r in roots && x in NodeNames(WalkFrom(g, r, maxLevel))
  {
    MergedWalksMerge(g, roots, maxLevel);
    assert x in NodeNames(MergedWalks(g, roots, maxLevel)) <==> ReachedFromAny(g, roots, maxLevel, x);
    forall r | r in roots
      ensures x in NodeNames(WalkFrom(g, r, maxLevel)) <==> x != r && maxLevel > 0 && Within(g, r, x, maxLevel)
    {
      WalkFromIsCorrect(g, r, maxLevel);
    }
  }

  lemma MergeKeeps(g: Graph, roots: seq<string>, root: string, maxLevel: int,
                   merged0: seq<BfsNode>, nodes: seq<BfsNode>, merged: seq<BfsNode>)
    requires MergesWalks(g, roots, maxLevel, merged0) && nodes == WalkFrom(g, root, maxLevel)
    requires Distinct(NodeNames(merged))
    requires forall x :: x in NodeNames(merged) <==> x in NodeNames(merged0) || x in NodeNames(nodes)
    requires forall n | n in merged :: n in merged0 || n in nodes
    ensures MergesWalks(g, roots + [root], maxLevel, merged)
  {
    WalkFromIsCorrect(g, root, maxLevel);
    forall x ensures ReachedFromAny(g, roots + [root], maxLevel, x) <==> x in NodeNames(merged) {
      assert x in NodeNames(merged0) <==> ReachedFromAny(g, roots, maxLevel, x);
      assert root in roots + [root];
      assert forall r :: r in roots + [root] <==> r in roots || r == root;
    }
    forall n | n in merged ensures exists r :: r in roots + [root] && IsWitness(g, r, n) {
      if n in merged0 {
        var r :| r in roots && IsWitness(g, r, n);
        assert r in roots + [root];
      } else {
        assert IsWitness(g, root, n) && root in roots + [root];
      }
    }
  }

  /** For any order of the matching roots, each requested direction lists their walks one after the other,
      which is the union of what the roots reach without duplicates, and the summary counts are the sizes
      of those unions. */
  method ComputeLineage(parsed: Option<seq<File>>, rootType: string, level: int, direction: string)
    returns (resp: Option<LineageResponse>, ghost roots: seq<string>)
    ensures resp.Some? <==> parsed.Some? && direction in {"", "both", "downstream", "upstream"}
    ensures resp.Some? ==>
      var files, r := parsed.value, resp.value;
      && r.direction == (if direction == "downstream" then Downstream else if direction == "upstream" then Upstream
                         else Both)
      && Distinct(roots) && (forall x :: x in roots <==> x in AllFqns(files) && Matches(x, rootType))
      && r.downstream == (if direction == "upstream" then []
                          else MergedWalks(AddFlipped(map[], Edges(files)), roots, level))
      && r.upstream == (if direction == "downstream" then []
                        else MergedWalks(AddEdges(map[], Edges(files)), roots, level))
      && (direction != "upstream" ==> MergesWalks(AddFlipped(map[], Edges(files)), roots, level, r.downstream))
      && (direction != "downstream" ==> MergesWalks(AddEdges(map[], Edges(files)), roots, level, r.upstream))
      && r.downstreamCount == |set x | x in NodeNames(r.downstream)|
      && r.upstreamCount == |set x | x in NodeNames(r.upstream)|
      && r.totalCount == r.downstreamCount + r.upstreamCount
  {
    roots := [];
    if parsed.None? {
      return None, roots;
    }
    var files := parsed.value;
    var normalized := NormalizeDirection(direction);
    if normalized.None? {
      return None, roots;
    }
    var dir := normalized.value;
    var forwardDeps, reverseDeps := BuildDependencyMaps(files);
    var found := FindRootFqns(files, rootType);
    var downstream, upstream: seq<BfsNode> := [], [];
    var downstreamSeen, upstreamSeen: set<string> := {}, {};
    assert NodeNames([]) == [];
    for i := 0 to |found|
      invariant downstreamSeen == NamesIn(downstream) && upstreamSeen == NamesIn(upstream)
      invariant downstream == if dir == Upstream then [] else MergedWalks(reverseDeps, found[..i], level)
      invariant upstream == if dir == Downstream then [] else MergedWalks(forwardDeps, found[..i], level)
    {
      assert found[..i + 1][..i] == found[..i];
      if dir == Both || dir == Downstream {
        var nodes := WalkLineage(reverseDeps, found[i], level);
        downstream, downstreamSeen := MergeUnseen(downstream, downstreamSeen, nodes);
      }
      if dir == Both || dir == Upstream {
        var nodes := WalkLineage(forwardDeps, found[i], level);
        upstream, upstreamSeen := MergeUnseen(upstream, upstreamSeen, nodes);
      }
    }
    assert found[..|found|] == found;
    MergedWalksMerge(reverseDeps, found, level);
    MergedWalksMerge(forwardDeps, found, level);
    roots := found;
    DistinctSize(NodeNames(downstream));
    DistinctSize(NodeNames(upstream));
    resp := Some(LineageResponse(dir, downstream, upstream, |downstream|, |upstream|, |downstream| + |upstream|));
  }

  lemma {:induction false} DistinctSize(s: seq<string>)
    requires Distinct(s)
    ensures |set x | x in s| == |s|
  {
    if s != [] {
      var init, x := s[..|s| - 1], s[|s| - 1];
      DistinctSize(init);
      assert (set y | y in s) == (set y | y in init) + {x};
      assert x !in init;
    }
  }
}

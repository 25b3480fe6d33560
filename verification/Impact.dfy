/** The change detector's dependency search: which schemas a changed schema impacts. */
module Impact {
  import opened Sequences
  import opened Descriptors
  import opened Graphs
  import opened Lineage
  import opened TypeReferences

  /** Only the fields of top-level messages are looked at. */
  function OwnEdges(package: string): Message -> seq<Edge> {
    (m: Message) => FlatMap(FieldEdges(Dotted(package, m.name)), m.fields)
  }

  function FileTopEdges(file: File): seq<Edge> {
    FlatMap(OwnEdges(file.package), file.messages)
  }

  function TopEdges(files: seq<File>): seq<Edge> {
    FlatMap(FileTopEdges, files)
  }

  function ReverseDependencies(files: seq<File>): Graph {
    AddFlipped(map[], TopEdges(files))
  }

  // ---------- what the reverse map says ----------

  /** The positions of the file's top-level messages of dotted name `source`, each with the positions of its
      fields of type `target`. */
  function FileTopReferences(file: File, source: string, target: string): set<(nat, nat)> {
    set j: nat, k: nat | j < |file.messages| && file.package + "." + file.messages[j].name == source
        && k in Uses(file.messages[j].fields, target) :: (j, k)
  }

  function TopReferences(files: seq<File>, source: string, target: string): set<(nat, (nat, nat))> {
    set i: nat, p | i < |files| && p in FileTopReferences(files[i], source, target) :: (i, p)
  }

  function OwnUses(package: string, source: string, target: string): Message -> set<nat> {
    (m: Message) => UsesAt(Dotted(package, m.name), m.fields, source, target)
  }

  lemma OwnEdgesCount(package: string, msgs: seq<Message>, source: string, target: string)
    ensures multiset(FlatMap(OwnEdges(package), msgs))[Edge(source, target)]
         == |Indexed(OwnUses(package, source, target), msgs)|
  {
    forall m | m in msgs
      ensures multiset(OwnEdges(package)(m))[Edge(source, target)] == |OwnUses(package, source, target)(m)|
    {
      UsesAtCount(Dotted(package, m.name), m.fields, source, target);
    }
    IndexedCount(OwnEdges(package), OwnUses(package, source, target), msgs, Edge(source, target));
  }

  lemma FileTopEdgesCount(file: File, source: string, target: string)
    ensures multiset(FileTopEdges(file))[Edge(source, target)] == |FileTopReferences(file, source, target)|
  {
    OwnEdgesCount(file.package, file.messages, source, target);
    var at := OwnUses(file.package, source, target);
    forall j: nat, k: nat | j < |file.messages|
      ensures k in at(file.messages[j]) <==> (j, k) in FileTopReferences(file, source, target)
    {}
    assert Indexed(at, file.messages) == FileTopReferences(file, source, target);
  }

  lemma TopEdgesCount(files: seq<File>, source: string, target: string)
    ensures multiset(TopEdges(files))[Edge(source, target)] == |TopReferences(files, source, target)|
  {
    var at := (file: File) => FileTopReferences(file, source, target);
    forall file | file in files
      ensures multiset(FileTopEdges(file))[Edge(source, target)] == |at(file)|
    {
      FileTopEdgesCount(file, source, target);
    }
    IndexedCount(FileTopEdges, at, files, Edge(source, target));
    assert Indexed(at, files) == TopReferences(files, source, target);
  }

  /** A field of a top-level message `source` is of type `target`. */
  ghost predicate DependsAtTop(files: seq<File>, source: string, target: string) {
    exists file, m, f :: file in files && m in file.messages && f in m.fields
        && source == file.package + "." + m.name && f.typeName == "." + target
  }

  /** Under `target` the map lists `source` as often as the top-level messages of that name have fields of
      type `target`; in particular, exactly when there is such a field. */
  lemma ReverseDependenciesExactly(files: seq<File>, source: string, target: string)
    ensures multiset(Successors(ReverseDependencies(files), target))[source] == |TopReferences(files, source, target)|
    ensures source in Successors(ReverseDependencies(files), target) <==> DependsAtTop(files, source, target)
  {
    var sources := Successors(ReverseDependencies(files), target);
    MapsHoldEdges(TopEdges(files), source, target);
    EdgeCount(TopEdges(files), source, target);
    TopEdgesCount(files, source, target);
    assert source in sources <==> source in multiset(sources);
    if source in sources {
      assert TopReferences(files, source, target) != {};
      var p :| p in TopReferences(files, source, target);
      var m := files[p.0].messages[p.1.0];
      assert m in files[p.0].messages && m.fields[p.1.1] in m.fields;
    }
    if DependsAtTop(files, source, target) {
      var file, m, f :| file in files && m in file.messages && f in m.fields
          && source == file.package + "." + m.name && f.typeName == "." + target;
      TopReferenceExists(files, file, m, f, target);
    }
  }

  lemma TopReferenceExists(files: seq<File>, file: File, m: Message, f: Field, target: string)
    requires file in files && m in file.messages && f in m.fields && f.typeName == "." + target
    ensures TopReferences(files, file.package + "." + m.name, target) != {}
  {
    var i :| 0 <= i < |files| && files[i] == file;
    var j :| 0 <= j < |file.messages| && file.messages[j] == m;
    var k :| 0 <= k < |m.fields| && m.fields[k] == f;
    var source := file.package + "." + m.name;
    assert k in Uses(m.fields, target);
    assert (j, k) in FileTopReferences(file, source, target);
    assert (i, (j, k)) in TopReferences(files, source, target);
  }

  method GetReverseDependencies(files: seq<File>) returns (reverse: Graph)
    ensures reverse == ReverseDependencies(files)
    ensures forall s, t :: multiset(Successors(reverse, t))[s] == |TopReferences(files, s, t)|
  {
    reverse := map[];
    for i := 0 to |files|
      invariant reverse == AddFlipped(map[], TopEdges(files[..i]))
    {
      var fd := files[i];
      ghost var before, own := TopEdges(files[..i]), OwnEdges(fd.package);
      assert before + FlatMap(own, fd.messages[..0]) == before;
      for j := 0 to |fd.messages|
        invariant reverse == AddFlipped(map[], before + FlatMap(own, fd.messages[..j]))
      {
        reverse := AddMessageFields(reverse, Dotted(fd.package, fd.messages[j].name), fd.messages[j].fields);
        AddEdgesAppend(map[], before + FlatMap(own, fd.messages[..j]), own(fd.messages[j]));
        FlatMapStep(own, fd.messages, j, before);
      }
      assert fd.messages[..|fd.messages|] == fd.messages;
      FlatMapSnoc(FileTopEdges, files, i);
    }
    assert files[..|files|] == files;
    forall s, t ensures multiset(Successors(reverse, t))[s] == |TopReferences(files, s, t)| {
      ReverseDependenciesExactly(files, s, t);
    }
  }

  method AddMessageFields(reverse0: Graph, messageName: string, fields: seq<Field>) returns (reverse: Graph)
    ensures reverse == AddFlipped(reverse0, FlatMap(FieldEdges(messageName), fields))
  {
    reverse := reverse0;
    ghost var edgesOf := FieldEdges(messageName);
    for i := 0 to |fields|
      invariant reverse == AddFlipped(reverse0, FlatMap(edgesOf, fields[..i]))
    {
      FlatMapSnoc(edgesOf, fields, i);
      AddEdgesAppend(reverse0, FlatMap(edgesOf, fields[..i]), edgesOf(fields[i]));
      var fieldType := fields[i].typeName;
      if fieldType != "" && fieldType[0] == '.' {
        var dependentMessage := fieldType[1..];
        OneEdge(map[], reverse, Edge(messageName, dependentMessage));
        reverse := reverse[dependentMessage := Successors(reverse, dependentMessage) + [messageName]];
      }
    }
    assert fields[..|fields|] == fields;
  }

  // ---------- the queue-based search ----------

  /** The root, then what the level-by-level walk finds; nothing for a negative depth. */
  function Dependents(g: Graph, root: string, depth: int): seq<string> {
    if depth < 0 then [] else [root] + NodeNames(WalkFrom(g, root, depth))
  }

  lemma WalkNames(g: Graph, frontier: seq<Item>, visited: set<string>, level: nat, depth: nat)
    requires frontier != [] && depth > 0
    ensures var next := NextLevel(g, frontier, visited);
            NodeNames(Walk(g, frontier, visited, level, depth))
            == ItemNames(next) + NodeNames(Walk(g, next, visited + NameSet(next), level + 1, depth - 1))
  {
    var next := NextLevel(g, frontier, visited);
    NodesOfLevel(next, level + 1);
  }

  /** What the search still has to output: the queue, then the levels below it. */
  ghost function Pending(g: Graph, frontier: seq<Item>, visited: set<string>, level: nat, depth: int): seq<string> {
    if depth < 0 then [] else ItemNames(frontier) + NodeNames(Walk(g, frontier, visited, level, depth))
  }

  lemma PendingStep(g: Graph, frontier: seq<Item>, visited: set<string>, level: nat, depth: int, out: seq<string>)
    requires frontier != [] && depth >= 0
    ensures var next := NextLevel(g, frontier, visited);
            out + Pending(g, frontier, visited, level, depth)
            == out + ItemNames(frontier) + Pending(g, next, visited + NameSet(next), level + 1, depth - 1)
  {
    var next := NextLevel(g, frontier, visited);
    if depth > 0 {
      WalkNames(g, frontier, visited, level, depth);
    }
    Assoc(out, ItemNames(frontier), Pending(g, next, visited + NameSet(next), level + 1, depth - 1));
  }

  /** The breadth-first search with one queue, whose length is taken at the start of each level. */
  method GetDependentImpactedSchemas(reverse: Graph, impactedSchema: string, depth0: int) returns (out: seq<string>)
    ensures out == Dependents(reverse, impactedSchema, depth0)
  {
    var visited := {impactedSchema};
    var queue := [impactedSchema];
    out := [];
    var depth := depth0;
    ghost var frontier, level := [Item(impactedSchema, [impactedSchema])], 0;
    while |queue| > 0 && depth >= 0
      invariant queue == ItemNames(frontier) && level >= 0
      invariant out + Pending(reverse, frontier, visited, level, depth) == Dependents(reverse, impactedSchema, depth0)
      decreases depth
    {
      PendingStep(reverse, frontier, visited, level, depth, out);
      ghost var next := NextLevel(reverse, frontier, visited);
      queue, visited, out := DrainLevel(reverse, queue, visited, out, frontier);
      frontier, level := next, level + 1;
      depth := depth - 1;
    }
  }

  lemma NameSetAppend(a: seq<Item>, b: seq<Item>)
    ensures NameSet(a + b) == NameSet(a) + NameSet(b)
  {
    NamesAppend(a, b);
  }

  lemma PopFront(s: seq<string>, i: nat, tail: seq<string>, out: seq<string>)
    requires i < |s|
    ensures (s[i..] + tail)[0] == s[i] && (s[i..] + tail)[1..] == s[i + 1..] + tail
    ensures out + s[..i] + [s[i]] == out + s[..i + 1]
  {}

  method DrainLevel(reverse: Graph, queue0: seq<string>, visited0: set<string>, out0: seq<string>,
                    ghost frontier: seq<Item>)
    returns (queue: seq<string>, visited: set<string>, out: seq<string>)
    requires queue0 == ItemNames(frontier)
    ensures queue == ItemNames(NextLevel(reverse, frontier, visited0))
    ensures visited == visited0 + NameSet(NextLevel(reverse, frontier, visited0))
    ensures out == out0 + queue0
  {
    queue, visited, out := queue0, visited0, out0;
    var size := |queue|;
    ghost var next: seq<Item> := [];
    for i := 0 to size
      invariant next == NextLevel(reverse, frontier[..i], visited0)
      invariant queue == queue0[i..] + ItemNames(next)
      invariant visited == visited0 + NameSet(next)
      invariant out == out0 + queue0[..i]
    {
      PopFront(queue0, i, ItemNames(next), out0);
      var currentMessage := queue[0];
      queue := queue[1..];
      out := out + [currentMessage];
      ghost var found := Discover(frontier[i].path, Successors(reverse, currentMessage), visited);
      queue, visited := PushUnseen(queue, visited, Successors(reverse, currentMessage), frontier[i].path);
      NextLevelStep(reverse, frontier, i, visited0);
      NamesAppend(next, found);
      NameSetAppend(next, found);
      Assoc(queue0[i + 1..], ItemNames(next), ItemNames(found));
      next := next + found;
    }
    assert frontier[..size] == frontier;
  }

  method PushUnseen(queue0: seq<string>, visited0: set<string>, neighbors: seq<string>, ghost path: seq<string>)
    returns (queue: seq<string>, visited: set<string>)
    ensures queue == queue0 + ItemNames(Discover(path, neighbors, visited0))
    ensures visited == visited0 + NameSet(Discover(path, neighbors, visited0))
  {
    queue, visited := queue0, visited0;
    ghost var found: seq<Item> := [];
    for i := 0 to |neighbors|
      invariant found == Discover(path, neighbors[..i], visited0)
      invariant queue == queue0 + ItemNames(found)
      invariant visited == visited0 + NameSet(found)
    {
      var neighbor := neighbors[i];
      assert neighbors[..i + 1][..i] == neighbors[..i];
      if neighbor !in visited {
        ghost var it := Item(neighbor, path + [neighbor]);
        NamesAppend(found, [it]);
        NameSetAppend(found, [it]);
        assert ItemNames([it]) == [neighbor];
        queue := queue + [neighbor];
        visited := visited + {neighbor};
        found := found + [it];
      }
    }
    assert neighbors[..|neighbors|] == neighbors;
  }

  // ---------- what the search returns ----------

  const MAX_INT32: int := 0x7fff_ffff

  /** For a non-negative depth the result holds the root and everything within `depth`, each once. */
  lemma DependentsAreExact(g: Graph, root: string, depth: int)
    requires depth >= 0
    ensures Distinct(Dependents(g, root, depth))
    ensures forall x :: x in Dependents(g, root, depth) <==> Within(g, root, x, depth)
  {
    WalkFromIsCorrect(g, root, depth);
    var names := NodeNames(WalkFrom(g, root, depth));
    DistinctAppend([root], names);
    assert Within(g, root, root, depth) by { ReachesItself(g, root, root); }
    forall x | Within(g, root, x, depth) && depth == 0 ensures x == root {
      ReachesItself(g, root, x);
    }
  }

  /** A negative request depth is replaced by the largest 32-bit number, and with at most 2^31 graph
      nodes the result is then everything that depends on the root, directly or not. */
  lemma NegativeDepthIsClosure(g: Graph, root: string)
    requires |Nodes(g)| <= 2147483648
    ensures forall x :: x in Dependents(g, root, 2147483647) <==> exists k: nat :: Reaches(g, root, x, k)
  {
    DependentsAreExact(g, root, 2147483647);
    forall x ensures Within(g, root, x, 2147483647) <==> exists k: nat :: Reaches(g, root, x, k) {
      DeepEnough(g, root, x, 2147483647);
    }
  }

  // ---------- impacted schemas and lineage side by side ----------

  lemma {:induction false} TopEdgesAreEdges(files: seq<File>, e: Edge)
    requires e in TopEdges(files)
    ensures e in Edges(files)
  {
    FlatMapMember(FileTopEdges, files, e);
    var file :| file in files && e in FileTopEdges(file);
    OwnEdgesIn(file.package, file.messages, e);
    FlatMapMember(FileEdges, files, e);
  }

  lemma {:induction false} OwnEdgesIn(package: string, msgs: seq<Message>, e: Edge)
    requires e in FlatMap(OwnEdges(package), msgs)
    ensures e in EdgesIn(package, msgs)
  {
    var init, last := msgs[..|msgs| - 1], msgs[|msgs| - 1];
    if e in FlatMap(OwnEdges(package), init) {
      OwnEdgesIn(package, init, e);
    } else {
      assert e in OwnEdges(package)(last);
    }
  }

  lemma SuccessorIsEdge(edges: seq<Edge>, u: string, v: string)
    ensures u in Successors(AddFlipped(map[], edges), v) <==> Edge(u, v) in edges
  {
    MapsHoldEdges(edges, u, v);
    EdgeCount(edges, u, v);
    var sources := Successors(AddFlipped(map[], edges), v);
    assert u in sources <==> u in multiset(sources);
    assert Edge(u, v) in edges <==> Edge(u, v) in multiset(edges);
  }

  /** Every reference in the lineage graph is one of a top-level message or a self-reference. */
  ghost predicate EdgesStartAtTop(files: seq<File>) {
    forall e | e in Edges(files) :: e.source == e.target || DependsAtTop(files, e.source, e.target)
  }

  /** A message that refers to another one is, as far as names go, at top level. */
  ghost predicate NestedReferToThemselves(files: seq<File>) {
    forall u, v | HasReference(files, u, v) :: u == v || DependsAtTop(files, u, v)
  }

  lemma NestedReferAsEdges(files: seq<File>)
    requires Named(files)
    ensures NestedReferToThemselves(files) <==> EdgesStartAtTop(files)
  {
    forall u, v ensures Edge(u, v) in Edges(files) <==> HasReference(files, u, v) {
      EdgeIsReference(files, u, v);
      MapsAreTransposed(files, u, v);
      var targets := Successors(AddEdges(map[], Edges(files)), u);
      assert v in targets <==> v in multiset(targets);
      assert Edge(u, v) in Edges(files) <==> Edge(u, v) in multiset(Edges(files));
    }
    assert forall e: Edge :: e == Edge(e.source, e.target);
  }

  lemma PathWithoutSelfReferences(files: seq<File>, a: string, b: string, k: nat)
    requires EdgesStartAtTop(files) && IsDistance(AddFlipped(map[], Edges(files)), a, b, k)
    ensures Reaches(ReverseDependencies(files), a, b, k)
  {
    var all, top := AddFlipped(map[], Edges(files)), ReverseDependencies(files);
    var p :| PathFromTo(all, p, a, b, k);
    ShortestIsSimple(all, p, a, b, k);
    forall i | 0 <= i < |p| - 1 ensures p[i + 1] in Successors(top, p[i]) {
      assert p[i + 1] in Successors(all, p[i]) && p[i] != p[i + 1];
      SuccessorIsEdge(Edges(files), p[i + 1], p[i]);
      ReverseDependenciesExactly(files, p[i + 1], p[i]);
    }
    assert PathFromTo(top, p, a, b, k);
  }

  lemma TopPathsArePaths(files: seq<File>, a: string, b: string, k: nat)
    requires Reaches(ReverseDependencies(files), a, b, k)
    ensures Reaches(AddFlipped(map[], Edges(files)), a, b, k)
  {
    var all, top := AddFlipped(map[], Edges(files)), ReverseDependencies(files);
    var p :| PathFromTo(top, p, a, b, k);
    forall i | 0 <= i < |p| - 1 ensures p[i + 1] in Successors(all, p[i]) {
      assert p[i + 1] in Successors(top, p[i]);
      SuccessorIsEdge(TopEdges(files), p[i + 1], p[i]);
      TopEdgesAreEdges(files, Edge(p[i + 1], p[i]));
      SuccessorIsEdge(Edges(files), p[i + 1], p[i]);
    }
    assert PathFromTo(all, p, a, b, k);
  }

  /** Impacted schemas are always among the lineage's downstream; they are all of it, for every root
      and depth, exactly when nested messages refer to nothing but themselves. */
  lemma ImpactVersusLineage(files: seq<File>)
    requires Named(files)
    ensures forall u, v, k: nat ::
              Within(ReverseDependencies(files), u, v, k) ==> Within(AddFlipped(map[], Edges(files)), u, v, k)
    ensures NestedReferToThemselves(files) <==>
            forall u, v, k: nat ::
              Within(AddFlipped(map[], Edges(files)), u, v, k) ==> Within(ReverseDependencies(files), u, v, k)
  {
    NestedReferAsEdges(files);
    ImpactVersusEdges(files);
  }

  /** The same without the assumption that messages have names, by the edges of the lineage graph. */
  lemma ImpactVersusEdges(files: seq<File>)
    ensures forall u, v, k: nat ::
              Within(ReverseDependencies(files), u, v, k) ==> Within(AddFlipped(map[], Edges(files)), u, v, k)
    ensures EdgesStartAtTop(files) <==>
            forall u, v, k: nat ::
              Within(AddFlipped(map[], Edges(files)), u, v, k) ==> Within(ReverseDependencies(files), u, v, k)
  {
    var all, top := AddFlipped(map[], Edges(files)), ReverseDependencies(files);
    forall u, v, k: nat | Within(top, u, v, k) ensures Within(all, u, v, k) {
      var j: nat :| j <= k && Reaches(top, u, v, j);
      TopPathsArePaths(files, u, v, j);
    }
    if EdgesStartAtTop(files) {
      forall u, v, k: nat | Within(all, u, v, k) ensures Within(top, u, v, k) {
        var j: nat :| j <= k && Reaches(all, u, v, j);
        var d := HasDistance(all, u, v, j);
        PathWithoutSelfReferences(files, u, v, d);
      }
    }
    if forall u, v, k: nat :: Within(all, u, v, k) ==> Within(top, u, v, k) {
      forall e | e in Edges(files) && e.source != e.target ensures DependsAtTop(files, e.source, e.target) {
        DirectDependentIsTop(files, e);
      }
    }
  }

  lemma DirectDependentIsTop(files: seq<File>, e: Edge)
    requires e in Edges(files) && e.source != e.target
    requires Within(AddFlipped(map[], Edges(files)), e.target, e.source, 1)
             ==> Within(ReverseDependencies(files), e.target, e.source, 1)
    ensures DependsAtTop(files, e.source, e.target)
  {
    var all, top := AddFlipped(map[], Edges(files)), ReverseDependencies(files);
    SuccessorIsEdge(Edges(files), e.source, e.target);
    ReachesItself(all, e.target, e.target);
    ReachesStep(all, e.target, e.target, e.source, 0);
    assert Within(all, e.target, e.source, 1);
    var j: nat :| j <= 1 && Reaches(top, e.target, e.source, j);
    ReachesItself(top, e.target, e.source);
    var b := ReachesLast(top, e.target, e.source, 0);
    ReachesItself(top, e.target, b);
    ReverseDependenciesExactly(files, e.source, e.target);
  }
}

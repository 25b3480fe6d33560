/** Small schemas and graphs with their lineage and their impacted schemas worked out. */
module SmallGraphs {
  import opened Sequences
  import opened Descriptors
  import opened Graphs
  import opened Lineage
  import opened Impact
  import opened SmallSchemas

  // ---------- the order of a walk ----------

  lemma OneFrontier(g: Graph, it: Item, visited: set<string>)
    ensures NextLevel(g, [it], visited) == Discover(it.path, Successors(g, it.name), visited)
  {
    assert [it][..0] == [];
    assert NextLevel(g, [], visited) == [] && ItemNames([]) == [];
    assert visited + (set x | x in ItemNames([])) == visited;
  }

  lemma TwoFrontier(g: Graph, a: Item, b: Item, visited: set<string>)
    ensures var first := Discover(a.path, Successors(g, a.name), visited);
            NextLevel(g, [a, b], visited)
            == first + Discover(b.path, Successors(g, b.name), visited + set x | x in ItemNames(first))
  {
    assert [a, b][..1] == [a];
    OneFrontier(g, a, visited);
  }

  lemma DiscoverOne(path: seq<string>, x: string, visited: set<string>)
    ensures Discover(path, [x], visited) == if x in visited then [] else [Item(x, path + [x])]
  {
    assert [x][..0] == [] && Discover(path, [], visited) == [] && ItemNames([]) == [];
  }

  lemma DiscoverTwo(path: seq<string>, x: string, y: string, visited: set<string>)
    requires x != y && x !in visited
    ensures Discover(path, [x, y], visited)
         == [Item(x, path + [x])] + if y in visited then [] else [Item(y, path + [y])]
  {
    assert [x, y][..1] == [x];
    DiscoverOne(path, x, visited);
    assert ItemNames([Item(x, path + [x])]) == [x];
  }

  lemma DiscoverSeenThenNew(path: seq<string>, x: string, y: string, visited: set<string>)
    requires x in visited && y !in visited
    ensures Discover(path, [x, y], visited) == [Item(y, path + [y])]
  {
    assert [x, y][..1] == [x];
    DiscoverOne(path, x, visited);
    assert ItemNames([]) == [];
  }

  /** Two paths lead from `r` to `d`: through `b`, which comes first, and through `a`. */
  ghost predicate IsDiamond(g: Graph, r: string, b: string, a: string, d: string, c: string) {
    && Distinct([r, b, a, d, c])
    && Successors(g, r) == [b, a] && Successors(g, b) == [d] && Successors(g, a) == [d, c]
    && Successors(g, d) == [] && Successors(g, c) == []
  }

  lemma DiamondNames(g: Graph, r: string, b: string, a: string, d: string, c: string)
    requires IsDiamond(g, r, b, a, d, c)
    ensures r != b && r != a && r != d && r != c && b != a && b != d && b != c && a != d && a != c && d != c
  {
    var names := [r, b, a, d, c];
    assert names[0] == r && names[1] == b && names[2] == a && names[3] == d && names[4] == c;
  }

  lemma FirstLevel(g: Graph, r: string, b: string, a: string, d: string, c: string)
    requires IsDiamond(g, r, b, a, d, c)
    ensures NextLevel(g, [Item(r, [r])], {r}) == [Item(b, [r, b]), Item(a, [r, a])]
  {
    DiamondNames(g, r, b, a, d, c);
    OneFrontier(g, Item(r, [r]), {r});
    DiscoverTwo([r], b, a, {r});
    assert [r] + [b] == [r, b] && [r] + [a] == [r, a];
  }

  lemma SecondLevel(g: Graph, b: Item, a: Item, d: string, c: string, visited: set<string>)
    requires Successors(g, b.name) == [d] && Successors(g, a.name) == [d, c]
    requires d != c && d !in visited && c !in visited
    ensures NextLevel(g, [b, a], visited) == [Item(d, b.path + [d]), Item(c, a.path + [c])]
  {
    TwoFrontier(g, b, a, visited);
    DiscoverOne(b.path, d, visited);
    assert ItemNames([Item(d, b.path + [d])]) == [d];
    DiscoverSeenThenNew(a.path, d, c, visited + set x | x in [d]);
  }

  lemma ThirdLevel(g: Graph, d: Item, c: Item, visited: set<string>)
    requires Successors(g, d.name) == [] && Successors(g, c.name) == []
    ensures NextLevel(g, [d, c], visited) == []
  {
    TwoFrontier(g, d, c, visited);
    assert ItemNames([]) == [];
  }

  lemma NamesOfTwo(a: Item, b: Item, visited: set<string>)
    ensures visited + NameSet([a, b]) == visited + {a.name, b.name}
  {
    assert ItemNames([a, b]) == [a.name, b.name];
  }

  /** A walk of three rounds whose last round finds nothing. */
  lemma WalkOfThree(g: Graph, root: string, one: seq<Item>, two: seq<Item>)
    requires one != [] && two != []
    requires NextLevel(g, [Item(root, [root])], {root}) == one
    requires NextLevel(g, one, {root} + NameSet(one)) == two
    requires NextLevel(g, two, {root} + NameSet(one) + NameSet(two)) == []
    ensures WalkFrom(g, root, 3) == AtLevel(one, 1) + AtLevel(two, 2)
  {
    var visited := {root} + NameSet(one) + NameSet(two);
    assert Walk(g, two, visited, 2, 1) == AtLevel([], 3) == [];
    assert Walk(g, one, {root} + NameSet(one), 1, 2) == AtLevel(two, 2) + Walk(g, two, visited, 2, 1);
  }

  /** Level by level, in the order of the parents and then of their lists, each node with the path through
      the first parent that lists it. */
  lemma DiamondIsWalkedInOrder(g: Graph, r: string, b: string, a: string, d: string, c: string)
    requires IsDiamond(g, r, b, a, d, c)
    ensures WalkFrom(g, r, 3) == [BfsNode(b, 1, [r, b]), BfsNode(a, 1, [r, a]),
                                  BfsNode(d, 2, [r, b, d]), BfsNode(c, 2, [r, a, c])]
  {
    var one, two := [Item(b, [r, b]), Item(a, [r, a])], [Item(d, [r, b, d]), Item(c, [r, a, c])];
    DiamondNames(g, r, b, a, d, c);
    FirstLevel(g, r, b, a, d, c);
    NamesOfTwo(one[0], one[1], {r});
    SecondLevel(g, one[0], one[1], d, c, {r} + NameSet(one));
    assert [r, b] + [d] == [r, b, d] && [r, a] + [c] == [r, a, c];
    ThirdLevel(g, two[0], two[1], {r} + NameSet(one) + NameSet(two));
    WalkOfThree(g, r, one, two);
  }

  // ---------- one reference ----------

  lemma OneEdgeWalk(source: string, target: string, maxLevel: int)
    requires source != target && maxLevel >= 1
    ensures WalkFrom(AddFlipped(map[], [Edge(source, target)]), target, maxLevel)
         == [BfsNode(source, 1, [target, source])]
  {
    var none: Graph := map[];
    var g := AddFlipped(map[], [Edge(source, target)]);
    OneEdge(none, none, Edge(source, target));
    assert Successors(g, target) == [source] && Successors(g, source) == [];
    var root, next := Item(target, [target]), Item(source, [target, source]);
    OneFrontier(g, root, {target});
    DiscoverOne([target], source, {target});
    assert [target] + [source] == [target, source];
    OneFrontier(g, next, {target} + NameSet([next]));
    assert Walk(g, [next], {target} + NameSet([next]), 1, maxLevel - 1) == [];
  }

  const E := Enum("E", [EnumValue("ZERO", 0, false)], [], [], false)
  const M := Message("M", [Field("e", "e", 1, Optional, EnumKind, ".p.E", false)], [], [], [], [], false)

  /** `p.M` has a field of the enum type `p.E`. */
  const ENUM_USED: seq<File> := [File("e.proto", "p", Proto3, [M], [E])]

  lemma EnumUsedNames()
    ensures Join("p", "M") == Dotted("p", "M") == "p.M" && Join("p", "E") == Dotted("p", "E") == "p.E"
    ensures ".p.E"[1..] == "p.E" && "p.M" != "p.E"
  {
    assert "p.M"[2] != "p.E"[2];
  }

  lemma EnumUsedDeclares()
    ensures AllMessages(ENUM_USED) == [MessageDecl("p.M", Proto3, M)] && AllEnums(ENUM_USED) == [EnumDecl("p.E", E)]
  {
    EnumUsedNames();
    var file := ENUM_USED[0];
    assert [M][..0] == [] && MessagesIn("p", Proto3, [M]) == [MessageDecl("p.M", Proto3, M)];
    FlatMapOne(FileMessages, file);
    FlatMapOne(NestedEnums, MessageDecl("p.M", Proto3, M));
    assert EnumsIn("p", [E]) == [EnumDecl("p.E", E)] && NestedEnums(MessageDecl("p.M", Proto3, M)) == [];
    FlatMapOne(FileEnums, file);
  }

  lemma EnumFieldFits()
    ensures DeclFits(ENUM_USED, MessageDecl("p.M", Proto3, M))
  {
    EnumUsedNames();
    EnumUsedDeclares();
    assert AllEnums(ENUM_USED)[0] == EnumDecl("p.E", E);
    assert M.fields[0].TypeFullName() == "p.E";
  }

  lemma EnumUsedWellFormed()
    ensures WellFormed(ENUM_USED)
  {
    EnumUsedNames();
    EnumUsedDeclares();
    EnumFieldFits();
    OneOfEach(ENUM_USED, MessageDecl("p.M", Proto3, M), EnumDecl("p.E", E));
  }

  lemma EnumUsedEdges()
    ensures Edges(ENUM_USED) == [Edge("p.M", "p.E")] && AllFqns(ENUM_USED) == ["p.M", "p.E"]
  {
    EnumUsedNames();
    var file := ENUM_USED[0];
    assert [M][..0] == [] && [M.fields[0]] == M.fields;
    FlatMapOne(FieldEdges("p.M"), M.fields[0]);
    assert EdgesIn("p", [M]) == [Edge("p.M", "p.E")];
    FlatMapOne(FileEdges, file);
    FqnsOne("p", M);
    assert EnumFqns("p.M", M.enums) == [] && FqnsIn("p.M", M.messages) == [];
    assert EnumFqns("p", [E]) == ["p.E"];
    FlatMapOne(FileFqns, file);
  }

  /** Lineage of the enum `E`: it is the only root, and `p.M` is its one downstream. */
  lemma EnumHasDownstream()
    ensures WellFormed(ENUM_USED)
    ensures forall r :: r in AllFqns(ENUM_USED) && Matches(r, "E") <==> r == "p.E"
    ensures WalkFrom(AddFlipped(map[], Edges(ENUM_USED)), "p.E", 10) == [BfsNode("p.M", 1, ["p.E", "p.M"])]
  {
    EnumUsedWellFormed();
    EnumUsedEdges();
    EnumUsedNames();
    OnlyRootMatches();
    OneEdgeWalk("p.M", "p.E", 10);
  }

  lemma OnlyRootMatches()
    ensures Matches("p.E", "E") && !Matches("p.M", "E")
    ensures forall r :: r in ["p.M", "p.E"] && Matches(r, "E") <==> r == "p.E"
  {
    assert "p.E"[1..] == "." + "E";
    assert "p.M"[1..] == ".M" && ".M"[1] == 'M' && ("." + "E")[1] == 'E';
    assert ["p.M", "p.E"][1] == "p.E";
  }

  const A := Message("A", [], [], [], [], [], false)
  const B := Message("B", [Field("a", "a", 1, Optional, MessageKind, ".p.A", false)], [], [], [], [], false)

  /** `p.B` has a field of type `p.A`. */
  const PACKAGED: seq<File> := [File("d.proto", "p", Proto3, [A, B], [])]

  lemma PackagedNames()
    ensures Join("p", "A") == Dotted("p", "A") == "p.A" && Join("p", "B") == Dotted("p", "B") == "p.B"
    ensures ".p.A"[1..] == "p.A" && "p.A" != "p.B"
  {
    assert "p.A"[2] != "p.B"[2];
  }

  lemma PackagedTopEdges()
    ensures TopEdges(PACKAGED) == [Edge("p.B", "p.A")]
  {
    PackagedNames();
    assert [A, B][..1] == [A] && [A][..0] == [] && [B.fields[0]] == B.fields;
    FlatMapOne(FieldEdges("p.B"), B.fields[0]);
    assert OwnEdges("p")(A) == [] && OwnEdges("p")(B) == [Edge("p.B", "p.A")];
    FlatMapOne(OwnEdges("p"), A);
    assert FlatMap(OwnEdges("p"), [A, B]) == FlatMap(OwnEdges("p"), [A]) + OwnEdges("p")(B);
    FlatMapOne(FileTopEdges, PACKAGED[0]);
  }

  /** A change of `p.A` impacts `p.A` itself and `p.B`. */
  lemma DirectDependentIsImpacted()
    ensures Dependents(ReverseDependencies(PACKAGED), "p.A", 1) == ["p.A", "p.B"]
  {
    PackagedNames();
    PackagedTopEdges();
    OneEdgeWalk("p.B", "p.A", 1);
  }
}

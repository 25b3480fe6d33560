/** Dependents the change detector does not report: a nested message, and any message without a package. */
module ImpactLimits {
  import opened Sequences
  import opened Descriptors
  import opened Graphs
  import opened Lineage
  import opened TypeReferences
  import opened Impact
  import opened SmallSchemas

  const A := Message("A", [], [], [], [], [], false)
  const N := Message("N", [Field("a", "a", 1, Optional, MessageKind, ".p.A", false)], [], [], [], [], false)
  const B := Message("B", [], [], [], [N], [], false)

  /** `p.B.N`, nested in `p.B`, has a field of type `p.A`. */
  const NESTED: seq<File> := [File("n.proto", "p", Proto3, [A, B], [])]

  lemma NestedNames()
    ensures Join("p", "A") == Dotted("p", "A") == "p.A" && Join("p", "B") == Dotted("p", "B") == "p.B"
    ensures Join("p.B", "N") == Dotted("p.B", "N") == "p.B.N" && ".p.A"[1..] == "p.A"
    ensures "p.A" != "p.B" && "p.A" != "p.B.N" && "p.B" != "p.B.N"
  {
    assert "p.A"[2] != "p.B"[2];
    assert |"p.B.N"| == 5 && |"p.A"| == 3 && |"p.B"| == 3;
  }

  lemma NestedDeclares()
    ensures AllMessages(NESTED) == [MessageDecl("p.A", Proto3, A), MessageDecl("p.B", Proto3, B),
                                    MessageDecl("p.B.N", Proto3, N)]
    ensures AllEnums(NESTED) == []
    ensures FindMessage(NESTED, "p.A") == Some(MessageDecl("p.A", Proto3, A))
  {
    NestedNames();
    var file := NESTED[0];
    assert [A, B][..1] == [A] && [A][..0] == [] && [N][..0] == [];
    assert MessagesIn("p", Proto3, [A]) == [MessageDecl("p.A", Proto3, A)];
    assert MessagesIn("p.B", Proto3, [N]) == [MessageDecl("p.B.N", Proto3, N)];
    assert MessagesIn("p", Proto3, [A, B]) == [MessageDecl("p.A", Proto3, A)]
           + ([MessageDecl("p.B", Proto3, B)] + MessagesIn("p.B", Proto3, [N]));
    FlatMapOne(FileMessages, file);
    FlatMapOne(FileEnums, file);
    FlatMapEmpty(NestedEnums, FileMessages(file));
  }

  lemma PartsWellFormed()
    ensures DeclFits(NESTED, MessageDecl("p.A", Proto3, A)) && DeclFits(NESTED, MessageDecl("p.B", Proto3, B))
    ensures DeclFits(NESTED, MessageDecl("p.B.N", Proto3, N))
  {
    NestedNames();
    NestedDeclares();
    assert N.fields[0].TypeFullName() == "p.A";
    EmptyFits(NESTED, MessageDecl("p.A", Proto3, A));
    EmptyFits(NESTED, MessageDecl("p.B", Proto3, B));
    ReferenceFits(NESTED, MessageDecl("p.B.N", Proto3, N), N.fields[0]);
  }

  lemma NestedWellFormed()
    ensures WellFormed(NESTED)
  {
    NestedNames();
    NestedDeclares();
    PartsWellFormed();
    ThreeWellFormed(NESTED, MessageDecl("p.A", Proto3, A), MessageDecl("p.B", Proto3, B),
                    MessageDecl("p.B.N", Proto3, N));
  }

  lemma NestedEdges()
    ensures Edges(NESTED) == [Edge("p.B.N", "p.A")] && TopEdges(NESTED) == []
  {
    NestedNames();
    var file := NESTED[0];
    assert [A, B][..1] == [A] && [A][..0] == [] && [N][..0] == [];
    FlatMapOne(FieldEdges("p.B.N"), N.fields[0]);
    assert EdgesIn("p.B", [N]) == [Edge("p.B.N", "p.A")];
    assert EdgesIn("p", [A]) == [];
    assert EdgesIn("p", [A, B]) == EdgesIn("p.B", [N]);
    FlatMapOne(FileEdges, file);
    FlatMapEmpty(OwnEdges("p"), file.messages);
    FlatMapOne(FileTopEdges, file);
  }

  lemma ReachesFirst(g: Graph, a: string, c: string, k: nat) returns (b: string)
    requires Reaches(g, a, c, k + 1)
    ensures b in Successors(g, a)
  {
    var p :| PathFromTo(g, p, a, c, k + 1);
    b := p[1];
    assert p[0 + 1] in Successors(g, p[0]);
  }

  lemma NothingDepends(g: Graph, root: string, x: string, depth: nat)
    requires Successors(g, root) == [] && Within(g, root, x, depth)
    ensures x == root
  {
    var k: nat :| k <= depth && Reaches(g, root, x, k);
    if k == 0 {
      ReachesItself(g, root, x);
    } else {
      var b := ReachesFirst(g, root, x, k - 1);
    }
  }

  lemma NestedRefers()
    ensures !NestedReferToThemselves(NESTED)
  {
    NestedNames();
    NestedDeclares();
    NestedEdges();
    var file, d, f := NESTED[0], MessageDecl("p.B.N", Proto3, N), N.fields[0];
    FlatMapOne(FileMessages, file);
    assert AllMessages(NESTED)[2] == d && file in NESTED && d in FileMessages(file);
    RefersByField(NESTED, file, d, f, "p.A");
    ReverseDependenciesExactly(NESTED, "p.B.N", "p.A");
  }

  lemma RefersByField(files: seq<File>, file: File, d: MessageDecl, f: Field, target: string)
    requires file in files && d in FileMessages(file) && f in d.message.fields && f.typeName == "." + target
    ensures HasReference(files, GraphName(file.package, d.fullName), target)
  {}

  /** `p.B.N` depends on `p.A` directly, and lineage finds it, but at no depth is it reported among the
      schemas that a change of `p.A` impacts. */
  lemma NestedDependentIsMissed()
    ensures WellFormed(NESTED) && !NestedReferToThemselves(NESTED)
    ensures Within(AddFlipped(map[], Edges(NESTED)), "p.A", "p.B.N", 1)
    ensures forall depth: nat :: "p.B.N" !in Dependents(ReverseDependencies(NESTED), "p.A", depth)
  {
    NestedWellFormed();
    NestedRefers();
    NestedReached();
    NestedEdges();
    NestedNames();
    forall depth: nat ensures "p.B.N" !in Dependents(ReverseDependencies(NESTED), "p.A", depth) {
      NotImpacted(map[], "p.A", "p.B.N", depth);
    }
  }

  lemma NestedReached()
    ensures Within(AddFlipped(map[], Edges(NESTED)), "p.A", "p.B.N", 1)
  {
    NestedEdges();
    var all := AddFlipped(map[], Edges(NESTED));
    assert Edges(NESTED)[0] == Edge("p.B.N", "p.A");
    SuccessorIsEdge(Edges(NESTED), "p.B.N", "p.A");
    ReachesItself(all, "p.A", "p.A");
    ReachesStep(all, "p.A", "p.A", "p.B.N", 0);
  }

  // ---------- no package ----------

  const DEPENDS_ON_A := Message("B", [Field("a", "a", 1, Optional, MessageKind, ".A", false)], [], [], [], [], false)

  /** `B` has a field of type `A`; the file has no package. */
  const UNPACKAGED: seq<File> := [File("u.proto", "", Proto3, [A, DEPENDS_ON_A], [])]

  lemma UnpackagedDeclares()
    ensures AllMessages(UNPACKAGED) == [MessageDecl("A", Proto3, A), MessageDecl("B", Proto3, DEPENDS_ON_A)]
    ensures AllEnums(UNPACKAGED) == []
    ensures FindMessage(UNPACKAGED, "A") == Some(MessageDecl("A", Proto3, A))
  {
    var file := UNPACKAGED[0];
    assert [A, DEPENDS_ON_A][..1] == [A] && [A][..0] == [];
    assert MessagesIn("", Proto3, [A]) == [MessageDecl("A", Proto3, A)];
    assert MessagesIn("", Proto3, [A, DEPENDS_ON_A])
           == [MessageDecl("A", Proto3, A)] + [MessageDecl("B", Proto3, DEPENDS_ON_A)];
    FlatMapOne(FileMessages, file);
    FlatMapOne(FileEnums, file);
    FlatMapEmpty(NestedEnums, FileMessages(file));
  }

  lemma UnpackagedParts()
    ensures DeclFits(UNPACKAGED, MessageDecl("A", Proto3, A))
            && DeclFits(UNPACKAGED, MessageDecl("B", Proto3, DEPENDS_ON_A))
  {
    UnpackagedDeclares();
    assert DEPENDS_ON_A.fields[0].TypeFullName() == "A";
    EmptyFits(UNPACKAGED, MessageDecl("A", Proto3, A));
    ReferenceFits(UNPACKAGED, MessageDecl("B", Proto3, DEPENDS_ON_A), DEPENDS_ON_A.fields[0]);
  }

  lemma UnpackagedWellFormed()
    ensures WellFormed(UNPACKAGED)
  {
    UnpackagedDeclares();
    UnpackagedParts();
    assert "A"[0] != "B"[0];
    TwoWellFormed(UNPACKAGED, MessageDecl("A", Proto3, A), MessageDecl("B", Proto3, DEPENDS_ON_A));
  }

  lemma UnpackagedEdges()
    ensures Edges(UNPACKAGED) == TopEdges(UNPACKAGED) == [Edge(".B", "A")]
  {
    var file := UNPACKAGED[0];
    assert [A, DEPENDS_ON_A][..1] == [A] && [A][..0] == [] && Dotted("", "B") == ".B" && ".A"[1..] == "A";
    FlatMapOne(FieldEdges(".B"), DEPENDS_ON_A.fields[0]);
    assert EdgesIn("", [A]) == [];
    assert EdgesIn("", [A, DEPENDS_ON_A]) == [Edge(".B", "A")];
    FlatMapOne(FileEdges, file);
    assert FlatMap(OwnEdges(""), [A]) == [] && FlatMap(OwnEdges(""), [A, DEPENDS_ON_A]) == [Edge(".B", "A")];
    FlatMapOne(FileTopEdges, file);
  }

  lemma OneDependent(source: string, target: string)
    ensures AddFlipped(map[], [Edge(source, target)]) == map[target := [source]]
  {
    var none: Graph := map[];
    OneEdge(none, none, Edge(source, target));
    assert Successors(none, target) + [source] == [source];
  }

  lemma UnpackagedGraph()
    ensures ReverseDependencies(UNPACKAGED) == AddFlipped(map[], Edges(UNPACKAGED)) == map["A" := [".B"]]
    ensures Successors(map["A" := [".B"]], ".A") == []
  {
    UnpackagedEdges();
    OneDependent(".B", "A");
    assert |"A"| != |".A"|;
  }

  lemma UnpackagedNamesDoNotFit()
    ensures Edges(UNPACKAGED) != FlatMap(DeclEdges, AllMessages(UNPACKAGED))
  {
    UnpackagedEdges();
    FlatMapOne(FileEdges, UNPACKAGED[0]);
    GraphOfDeclarationsExactly(UNPACKAGED);
    assert UNPACKAGED[0] in UNPACKAGED && !NamesFit(UNPACKAGED[0]);
  }

  /** The change detector lists `A` as `.A`, but references to it say `A`: the dependent `.B` is not among
      the impacted schemas of `.A` at any depth, and lineage does not find it there either. */
  lemma UnpackagedDependentIsMissed()
    ensures WellFormed(UNPACKAGED) && Edges(UNPACKAGED) == [Edge(".B", "A")]
    ensures Edges(UNPACKAGED) != FlatMap(DeclEdges, AllMessages(UNPACKAGED))
    ensures forall depth: nat :: ".B" !in Dependents(ReverseDependencies(UNPACKAGED), ".A", depth)
    ensures forall depth: nat :: !Within(AddFlipped(map[], Edges(UNPACKAGED)), ".A", ".B", depth)
  {
    UnpackagedWellFormed();
    UnpackagedEdges();
    UnpackagedNamesDoNotFit();
    UnpackagedGraph();
    assert ".A"[1] != ".B"[1];
    var g := ReverseDependencies(UNPACKAGED);
    forall depth: nat ensures ".B" !in Dependents(g, ".A", depth) && !Within(g, ".A", ".B", depth) {
      NotImpacted(g, ".A", ".B", depth);
    }
  }

  lemma NotImpacted(g: Graph, root: string, x: string, depth: nat)
    requires Successors(g, root) == [] && x != root
    ensures x !in Dependents(g, root, depth) && !Within(g, root, x, depth)
  {
    DependentsAreExact(g, root, depth);
    if Within(g, root, x, depth) { NothingDepends(g, root, x, depth); }
  }
}

/** What the dependency graph and the roots of a lineage are, stated over the fields and names that the
    descriptors hold. */
module TypeReferences {
  import opened Sequences
  import opened Descriptors
  import opened Graphs
  import opened Lineage

  /** The positions of the fields of type `target`. */
  function Uses(fields: seq<Field>, target: string): set<nat> {
    set k: nat | k < |fields| && fields[k].typeName == "." + target
  }

  /** The positions of the messages named `source`, each with the positions of its fields of type
      `target`. */
  function References(decls: seq<MessageDecl>, source: string, target: string): set<(nat, nat)> {
    set j: nat, k: nat | j < |decls| && decls[j].fullName == source && k in Uses(decls[j].message.fields, target) ::
      (j, k)
  }

  // ---------- counting positions ----------

  function Tagged<T(!new)>(n: nat, s: set<T>): set<(nat, T)> {
    set x | x in s :: (n, x)
  }

  lemma {:induction false} TaggedSize<T(!new)>(n: nat, s: set<T>)
    ensures |Tagged(n, s)| == |s|
  {
    if s != {} {
      var x :| x in s;
      TaggedSize(n, s - {x});
      assert Tagged(n, s) == Tagged(n, s - {x}) + {(n, x)};
    }
  }

  /** The positions of `s`, each with what `at` yields there. */
  function Indexed<A, B(!new)>(at: A -> set<B>, s: seq<A>): set<(nat, B)> {
    set j: nat, b | j < |s| && b in at(s[j]) :: (j, b)
  }

  lemma IndexedSnoc<A, B(!new)>(at: A -> set<B>, s: seq<A>)
    requires s != []
    ensures var n := |s| - 1;
            && Indexed(at, s) == Indexed(at, s[..n]) + Tagged(n, at(s[n]))
            && Indexed(at, s[..n]) !! Tagged(n, at(s[n]))
  {}

  lemma UnionSize<T>(a: set<T>, b: set<T>)
    requires a !! b
    ensures |a + b| == |a| + |b|
  {}

  /** If each element yields `x` as often as it has positions, so do all together. */
  lemma {:induction false} IndexedCount<A, B(!new), C>(f: A -> seq<C>, at: A -> set<B>, s: seq<A>, x: C)
    requires forall a | a in s :: multiset(f(a))[x] == |at(a)|
    ensures multiset(FlatMap(f, s))[x] == |Indexed(at, s)|
  {
    if s == [] {
      assert Indexed(at, s) == {};
    } else {
      var n := |s| - 1;
      IndexedCount(f, at, s[..n], x);
      CountLast(f, s, x);
      IndexedSnoc(at, s);
      TaggedSize(n, at(s[n]));
      UnionSize(Indexed(at, s[..n]), Tagged(n, at(s[n])));
    }
  }

  lemma OneUse(fqn: string, f: Field, target: string)
    ensures multiset(FieldEdges(fqn)(f))[Edge(fqn, target)] == if f.typeName == "." + target then 1 else 0
  {
    if f.typeName == "." + target {
      assert f.typeName[1..] == target;
    } else if IsTypeReference(f.typeName) {
      assert f.typeName == "." + f.typeName[1..];
    }
  }

  lemma UsesSnoc(fields: seq<Field>, target: string)
    requires fields != []
    ensures var n := |fields| - 1;
            |Uses(fields, target)| == |Uses(fields[..n], target)| + if fields[n].typeName == "." + target then 1 else 0
  {
    var n := |fields| - 1;
    var here: set<nat> := if fields[n].typeName == "." + target then {n} else {};
    assert Uses(fields, target) == Uses(fields[..n], target) + here;
    UnionSize(Uses(fields[..n], target), here);
  }

  lemma {:induction false} UsesCount(fqn: string, fields: seq<Field>, target: string)
    ensures multiset(FlatMap(FieldEdges(fqn), fields))[Edge(fqn, target)] == |Uses(fields, target)|
  {
    if fields == [] {
      assert Uses(fields, target) == {};
    } else {
      var n := |fields| - 1;
      UsesCount(fqn, fields[..n], target);
      CountLast(FieldEdges(fqn), fields, Edge(fqn, target));
      OneUse(fqn, fields[n], target);
      UsesSnoc(fields, target);
    }
  }

  lemma {:induction false} OtherSource(fqn: string, fields: seq<Field>, e: Edge)
    requires e.source != fqn
    ensures multiset(FlatMap(FieldEdges(fqn), fields))[e] == 0
  {
    if fields != [] {
      OtherSource(fqn, fields[..|fields| - 1], e);
      CountLast(FieldEdges(fqn), fields, e);
    }
  }

  /** The fields of type `target`, if the name is the one asked for. */
  function UsesAt(name: string, fields: seq<Field>, source: string, target: string): set<nat> {
    if name == source then Uses(fields, target) else {}
  }

  lemma UsesAtCount(fqn: string, fields: seq<Field>, source: string, target: string)
    ensures multiset(FlatMap(FieldEdges(fqn), fields))[Edge(source, target)] == |UsesAt(fqn, fields, source, target)|
  {
    if fqn == source {
      UsesCount(fqn, fields, target);
    } else {
      OtherSource(fqn, fields, Edge(source, target));
    }
  }

  // ---------- names in the graph ----------

  /** The name the graph gives a declaration: its full name, after a dot if the file has no package. */
  function GraphName(package: string, fullName: string): string {
    if package == "" then "." + fullName else fullName
  }

  /** Every declared message has a name, as in any parsed file. */
  ghost predicate Named(files: seq<File>) {
    forall file, d | file in files && d in FileMessages(file) :: d.fullName != ""
  }

  /** `prefix` is what the graph puts before the dot where full names have `parent`. */
  predicate PrefixFor(package: string, prefix: string, parent: string) {
    if package != "" then prefix == parent != ""
    else (prefix == parent == "") || (parent != "" && prefix == "." + parent)
  }

  lemma DottedIsGraphName(package: string, prefix: string, parent: string, name: string)
    requires PrefixFor(package, prefix, parent)
    ensures Dotted(prefix, name) == GraphName(package, Join(parent, name))
    ensures Join(parent, name) != "" ==> PrefixFor(package, Dotted(prefix, name), Join(parent, name))
  {
    if parent != "" {
      assert "." + parent + "." + name == "." + (parent + "." + name);
    }
  }

  function NamedEdges(package: string): MessageDecl -> seq<Edge> {
    (d: MessageDecl) => FlatMap(FieldEdges(GraphName(package, d.fullName)), d.message.fields)
  }

  lemma {:induction false} EdgesUnderGraphNames(package: string, prefix: string, parent: string, syntax: Syntax,
                                                msgs: seq<Message>)
    requires PrefixFor(package, prefix, parent)
    requires forall d | d in MessagesIn(parent, syntax, msgs) :: d.fullName != ""
    ensures EdgesIn(prefix, msgs) == FlatMap(NamedEdges(package), MessagesIn(parent, syntax, msgs))
    decreases msgs
  {
    if msgs != [] {
      var init, last := msgs[..|msgs| - 1], msgs[|msgs| - 1];
      var decl := MessageDecl(Join(parent, last.name), syntax, last);
      var before, nested := MessagesIn(parent, syntax, init), MessagesIn(decl.fullName, syntax, last.messages);
      assert MessagesIn(parent, syntax, msgs) == before + ([decl] + nested);
      assert decl in MessagesIn(parent, syntax, msgs);
      DottedIsGraphName(package, prefix, parent, last.name);
      EdgesUnderGraphNames(package, prefix, parent, syntax, init);
      EdgesUnderGraphNames(package, Dotted(prefix, last.name), decl.fullName, syntax, last.messages);
      FlatMapAppend(NamedEdges(package), before, [decl] + nested);
      FlatMapAppend(NamedEdges(package), [decl], nested);
      FlatMapOne(NamedEdges(package), decl);
    }
  }

  // ---------- the edges of the lineage graph ----------

  /** `References` in one file, under the names of the graph. */
  function FileReferences(file: File, source: string, target: string): set<(nat, nat)> {
    set j: nat, k: nat | j < |FileMessages(file)| && GraphName(file.package, FileMessages(file)[j].fullName) == source
        && k in Uses(FileMessages(file)[j].message.fields, target) :: (j, k)
  }

  /** The positions of files, of messages named `source` that they declare at any depth, and of the
      fields of those messages that are of type `target`. */
  function AllReferences(files: seq<File>, source: string, target: string): set<(nat, (nat, nat))> {
    set i: nat, p | i < |files| && p in FileReferences(files[i], source, target) :: (i, p)
  }

  function NamedUses(package: string, source: string, target: string): MessageDecl -> set<nat> {
    (d: MessageDecl) => UsesAt(GraphName(package, d.fullName), d.message.fields, source, target)
  }

  lemma NamedUsesAreReferences(file: File, source: string, target: string)
    ensures Indexed(NamedUses(file.package, source, target), FileMessages(file)) == FileReferences(file, source, target)
  {
    var at, decls := NamedUses(file.package, source, target), FileMessages(file);
    forall j: nat, k: nat | j < |decls|
      ensures k in at(decls[j]) <==> (j, k) in FileReferences(file, source, target)
    {}
  }

  lemma FileEdgesCount(file: File, source: string, target: string)
    requires forall d | d in FileMessages(file) :: d.fullName != ""
    ensures multiset(FileEdges(file))[Edge(source, target)] == |FileReferences(file, source, target)|
  {
    var package := file.package;
    EdgesUnderGraphNames(package, package, package, file.syntax, file.messages);
    NamedEdgesCount(package, FileMessages(file), source, target);
    NamedUsesAreReferences(file, source, target);
  }

  lemma NamedEdgesCount(package: string, decls: seq<MessageDecl>, source: string, target: string)
    ensures multiset(FlatMap(NamedEdges(package), decls))[Edge(source, target)]
         == |Indexed(NamedUses(package, source, target), decls)|
  {
    forall d | d in decls
      ensures multiset(NamedEdges(package)(d))[Edge(source, target)] == |NamedUses(package, source, target)(d)|
    {
      UsesAtCount(GraphName(package, d.fullName), d.message.fields, source, target);
    }
    IndexedCount(NamedEdges(package), NamedUses(package, source, target), decls, Edge(source, target));
  }

  /** The graph has an edge as often as a declared message, at any depth, has a field of that type. */
  lemma EdgesAreReferences(files: seq<File>, source: string, target: string)
    requires Named(files)
    ensures multiset(Edges(files))[Edge(source, target)] == |AllReferences(files, source, target)|
  {
    var at := (file: File) => FileReferences(file, source, target);
    forall file | file in files
      ensures multiset(FileEdges(file))[Edge(source, target)] == |at(file)|
    {
      FileEdgesCount(file, source, target);
    }
    IndexedCount(FileEdges, at, files, Edge(source, target));
    assert Indexed(at, files) == AllReferences(files, source, target);
  }

  /** With packages, in terms of the declared messages: the edge from `source` to `target` occurs as often
      as there are fields of type `target` in messages of full name `source`, and so do the entries in the
      two maps. */
  lemma PackagedEdgesAreReferences(files: seq<File>, source: string, target: string)
    requires forall file | file in files :: file.package != ""
    ensures multiset(Edges(files))[Edge(source, target)] == |References(AllMessages(files), source, target)|
    ensures multiset(Successors(AddEdges(map[], Edges(files)), source))[target]
         == |References(AllMessages(files), source, target)|
         == multiset(Successors(AddFlipped(map[], Edges(files)), target))[source]
  {
    var at := (d: MessageDecl) => UsesAt(d.fullName, d.message.fields, source, target);
    GraphOfDeclarations(files);
    forall d | d in AllMessages(files)
      ensures multiset(DeclEdges(d))[Edge(source, target)] == |at(d)|
    {
      UsesAtCount(d.fullName, d.message.fields, source, target);
    }
    IndexedCount(DeclEdges, at, AllMessages(files), Edge(source, target));
    assert Indexed(at, AllMessages(files)) == References(AllMessages(files), source, target);
    MapsAreTransposed(files, source, target);
  }

  ghost predicate HasReference(files: seq<File>, u: string, v: string) {
    exists file, d, f :: file in files && d in FileMessages(file) && GraphName(file.package, d.fullName) == u
        && f in d.message.fields && f.typeName == "." + v
  }

  /** `v` follows `u` in the graph exactly when a declared message of graph name `u` has a field of type
      `v`. */
  lemma EdgeIsReference(files: seq<File>, u: string, v: string)
    requires Named(files)
    ensures v in Successors(AddEdges(map[], Edges(files)), u) <==> HasReference(files, u, v)
  {
    var successors := Successors(AddEdges(map[], Edges(files)), u);
    MapsAreTransposed(files, u, v);
    EdgesAreReferences(files, u, v);
    assert v in successors <==> v in multiset(successors);
    if v in successors {
      assert AllReferences(files, u, v) != {};
      var p :| p in AllReferences(files, u, v);
      var file := files[p.0];
      var d := FileMessages(file)[p.1.0];
      assert d in FileMessages(file) && d.message.fields[p.1.1] in d.message.fields;
    }
    if HasReference(files, u, v) {
      var file, d, f :| file in files && d in FileMessages(file) && GraphName(file.package, d.fullName) == u
          && f in d.message.fields && f.typeName == "." + v;
      ReferenceExists(files, file, d, f, v);
    }
  }

  lemma ReferenceExists(files: seq<File>, file: File, d: MessageDecl, f: Field, v: string)
    requires file in files && d in FileMessages(file) && f in d.message.fields && f.typeName == "." + v
    ensures AllReferences(files, GraphName(file.package, d.fullName), v) != {}
  {
    var i :| 0 <= i < |files| && files[i] == file;
    var j :| 0 <= j < |FileMessages(file)| && FileMessages(file)[j] == d;
    var k :| 0 <= k < |d.message.fields| && d.message.fields[k] == f;
    var u := GraphName(file.package, d.fullName);
    assert k in Uses(d.message.fields, v);
    assert (j, k) in FileReferences(file, u, v);
    assert (i, (j, k)) in AllReferences(files, u, v);
  }

  // ---------- the roots of a lineage ----------

  function NamedFqns(package: string): MessageDecl -> seq<string> {
    (d: MessageDecl) => [GraphName(package, d.fullName)] + EnumFqns(GraphName(package, d.fullName), d.message.enums)
  }

  lemma {:induction false} FqnsUnderGraphNames(package: string, prefix: string, parent: string, syntax: Syntax,
                                               msgs: seq<Message>)
    requires PrefixFor(package, prefix, parent)
    requires forall d | d in MessagesIn(parent, syntax, msgs) :: d.fullName != ""
    ensures FqnsIn(prefix, msgs) == FlatMap(NamedFqns(package), MessagesIn(parent, syntax, msgs))
    decreases msgs
  {
    if msgs != [] {
      var init, last := msgs[..|msgs| - 1], msgs[|msgs| - 1];
      var decl := MessageDecl(Join(parent, last.name), syntax, last);
      var before, nested := MessagesIn(parent, syntax, init), MessagesIn(decl.fullName, syntax, last.messages);
      assert MessagesIn(parent, syntax, msgs) == before + ([decl] + nested);
      assert decl in MessagesIn(parent, syntax, msgs);
      DottedIsGraphName(package, prefix, parent, last.name);
      FqnsUnderGraphNames(package, prefix, parent, syntax, init);
      FqnsUnderGraphNames(package, Dotted(prefix, last.name), decl.fullName, syntax, last.messages);
      FlatMapAppend(NamedFqns(package), before, [decl] + nested);
      FlatMapAppend(NamedFqns(package), [decl], nested);
      FlatMapOne(NamedFqns(package), decl);
    }
  }

  /** The file declares a message or an enum, at any depth, that the graph calls `x`. */
  ghost predicate Declares(file: File, x: string) {
    || (exists d :: d in FileMessages(file) && GraphName(file.package, d.fullName) == x)
    || exists e :: e in FileEnums(file) && GraphName(file.package, e.fullName) == x
  }

  lemma EnumNames(package: string, prefix: string, parent: string, enums: seq<Enum>, x: string)
    requires PrefixFor(package, prefix, parent)
    ensures x in EnumFqns(prefix, enums) <==>
            exists e :: e in EnumsIn(parent, enums) && GraphName(package, e.fullName) == x
  {
    forall i | 0 <= i < |enums|
      ensures EnumFqns(prefix, enums)[i] == GraphName(package, EnumsIn(parent, enums)[i].fullName)
    {
      DottedIsGraphName(package, prefix, parent, enums[i].name);
    }
    if x in EnumFqns(prefix, enums) {
      var i :| 0 <= i < |enums| && EnumFqns(prefix, enums)[i] == x;
      assert EnumsIn(parent, enums)[i] in EnumsIn(parent, enums);
    }
  }

  lemma DeclNames(package: string, d: MessageDecl, x: string)
    requires d.fullName != ""
    ensures x in NamedFqns(package)(d) <==>
            || x == GraphName(package, d.fullName)
            || exists e :: e in NestedEnums(d) && GraphName(package, e.fullName) == x
  {
    EnumNames(package, GraphName(package, d.fullName), d.fullName, d.message.enums, x);
  }

  lemma FileFqnsAreDeclared(file: File, x: string)
    requires forall d | d in FileMessages(file) :: d.fullName != ""
    ensures x in FileFqns(file) <==> Declares(file, x)
  {
    var package, decls := file.package, FileMessages(file);
    FqnsUnderGraphNames(package, package, package, file.syntax, file.messages);
    EnumNames(package, package, package, file.enums, x);
    FlatMapMember(NamedFqns(package), decls, x);
    forall d | d in decls
      ensures x in NamedFqns(package)(d) <==>
              || x == GraphName(package, d.fullName)
              || exists e :: e in NestedEnums(d) && GraphName(package, e.fullName) == x
    {
      DeclNames(package, d, x);
    }
    forall e ensures e in FlatMap(NestedEnums, decls) <==> exists d :: d in decls && e in NestedEnums(d) {
      FlatMapMember(NestedEnums, decls, e);
    }
  }

  /** The roots are the names of declared messages and enums, as the graph has them, that are the type
      name or end in a dot and the type name. */
  lemma RootsAreDeclared(files: seq<File>, typeName: string, x: string)
    requires Named(files)
    ensures x in AllFqns(files) && Matches(x, typeName) <==>
            && (exists file :: file in files && Declares(file, x))
            && (x == typeName || exists before: string :: x == before + "." + typeName)
  {
    FlatMapMember(FileFqns, files, x);
    forall file | file in files ensures x in FileFqns(file) <==> Declares(file, x) {
      FileFqnsAreDeclared(file, x);
    }
    if HasSuffix(x, "." + typeName) {
      assert x == x[..|x| - |"." + typeName|] + ("." + typeName);
      assert x == x[..|x| - |"." + typeName|] + "." + typeName;
    }
    if before: string :| x == before + "." + typeName {
      assert x == before + ("." + typeName);
    }
  }
}

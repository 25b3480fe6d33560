/** Small schemas of one flat message, for the concrete histories at the edge of the laws. */
module SmallSchemas {
  import opened Sequences
  import opened Descriptors
  import opened Verdicts
  import opened Transitivity
  import opened Reservations

  /** A schema that declares the flat message `p.M` only. */
  function Only(syntax: Syntax, m: Message): seq<File> {
    [File("m.proto", "p", syntax, [m], [])]
  }

  predicate IsFlat(m: Message) {
    m.name == "M" && m.messages == [] && m.enums == []
  }

  lemma OnlyDeclares(syntax: Syntax, m: Message)
    requires IsFlat(m)
    ensures AllMessages(Only(syntax, m)) == [MessageDecl("p.M", syntax, m)]
    ensures AllEnums(Only(syntax, m)) == []
    ensures FindMessage(Only(syntax, m), "p.M") == Some(MessageDecl("p.M", syntax, m))
  {
    var file := Only(syntax, m)[0];
    assert Join("p", "M") == "p.M";
    assert MessagesIn("p", syntax, [m][..0]) == [];
    assert MessagesIn("p", syntax, [m]) == [MessageDecl("p.M", syntax, m)];
    FlatMapOne(FileMessages, file);
    FlatMapOne(FileEnums, file);
    FlatMapOne(NestedEnums, MessageDecl("p.M", syntax, m));
  }

  lemma OnlyCompatible(syntax: Syntax, strict: bool, current: Message, prev: Message)
    requires IsFlat(current) && IsFlat(prev)
    ensures Compatible(strict, Only(syntax, current), Only(syntax, prev)) <==> MessageKept(strict, current, prev)
  {
    OnlyDeclares(syntax, current);
    OnlyDeclares(syntax, prev);
    var decl := MessageDecl("p.M", syntax, prev);
    assert AllMessages(Only(syntax, prev))[0] == decl;
    assert MessageDeclKept(strict, Only(syntax, current), decl) <==> MessageKept(strict, current, prev);
  }

  lemma OnlyStable(syntax: Syntax, strict: bool, a: Message, b: Message)
    requires IsFlat(a) && IsFlat(b)
    ensures Stable(strict, Only(syntax, a), Only(syntax, b)) <==> StableMessage(strict, a, b)
  {
    OnlyDeclares(syntax, a);
    OnlyDeclares(syntax, b);
    var decl := MessageDecl("p.M", syntax, a);
    assert AllMessages(Only(syntax, a))[0] == decl;
    assert StableMessageDecl(strict, Only(syntax, b), decl) <==> StableMessage(strict, a, b);
  }

  lemma OnlyWellFormed(syntax: Syntax, m: Message)
    requires IsFlat(m) && WellFormedMessage(Only(syntax, m), m) && FollowsSyntax(MessageDecl("p.M", syntax, m))
    ensures WellFormed(Only(syntax, m))
  {
    OnlyDeclares(syntax, m);
    assert FindEnum(Only(syntax, m), "p.M").None?;
  }

  function Reserving(fields: seq<Field>, ranges: seq<Range>, names: seq<string>): Message {
    Message("M", fields, ranges, names, [], [], false)
  }

  function Int32Field(name: string, jsonName: string, number: int): Field {
    Field(name, jsonName, number, Optional, Int32Kind, "", false)
  }

  lemma OnlyReserves(syntax: Syntax, m: Message, n: int)
    requires IsFlat(m)
    ensures ReservedIn(Only(syntax, m), "p.M", n) <==> MessageReserves(m, n)
    ensures UnusedIn(Only(syntax, m), "p.M", n) <==> FieldByNumber(m.fields, n).None?
  {
    OnlyDeclares(syntax, m);
  }

  ghost predicate DeclFits(files: seq<File>, d: MessageDecl) {
    WellFormedMessage(files, d.message) && FollowsSyntax(d)
  }

  /** A schema without enums. */
  lemma MessagesWellFormed(files: seq<File>, decls: seq<MessageDecl>)
    requires AllMessages(files) == decls && AllEnums(files) == [] && UniqueMessages(decls)
    requires forall i | 0 <= i < |decls| :: DeclFits(files, decls[i])
    ensures WellFormed(files)
  {
    forall d | d in decls ensures FindEnum(files, d.fullName).None? && DeclFits(files, d) {
      var i :| 0 <= i < |decls| && decls[i] == d;
    }
  }

  lemma TwoWellFormed(files: seq<File>, a: MessageDecl, b: MessageDecl)
    requires AllMessages(files) == [a, b] && AllEnums(files) == [] && a.fullName != b.fullName
    requires DeclFits(files, a) && DeclFits(files, b)
    ensures WellFormed(files)
  {
    var decls := AllMessages(files);
    assert decls[0] == a && decls[1] == b && |decls| == 2;
    MessagesWellFormed(files, decls);
  }

  lemma ThreeWellFormed(files: seq<File>, a: MessageDecl, b: MessageDecl, c: MessageDecl)
    requires AllMessages(files) == [a, b, c] && AllEnums(files) == []
    requires a.fullName != b.fullName && a.fullName != c.fullName && b.fullName != c.fullName
    requires DeclFits(files, a) && DeclFits(files, b) && DeclFits(files, c)
    ensures WellFormed(files)
  {
    var decls := AllMessages(files);
    assert decls[0] == a && decls[1] == b && decls[2] == c && |decls| == 3;
    MessagesWellFormed(files, decls);
  }

  /** A schema of one message and one enum. */
  lemma OneOfEach(files: seq<File>, d: MessageDecl, e: EnumDecl)
    requires AllMessages(files) == [d] && AllEnums(files) == [e] && d.fullName != e.fullName
    requires WellFormedMessage(files, d.message) && FollowsSyntax(d) && WellFormedEnum(e.enum)
    ensures WellFormed(files)
  {
    assert AllMessages(files)[0] == d && AllEnums(files)[0] == e;
    assert EnumNamed([e], d.fullName).None?;
  }

  /** A message that declares nothing. */
  lemma EmptyFits(files: seq<File>, d: MessageDecl)
    requires d.message.fields == [] && d.message.reservedRanges == [] && d.message.reservedNames == []
    ensures DeclFits(files, d)
  {}

  /** A message with one optional field of message type. */
  lemma ReferenceFits(files: seq<File>, d: MessageDecl, f: Field)
    requires d.message.fields == [f] && d.message.reservedRanges == [] && d.message.reservedNames == []
    requires f.cardinality.Optional? && f.kind.MessageKind? && 1 <= f.number <= MAX_FIELD_NUMBER
    requires IsTypeReference(f.typeName) && FindMessage(files, f.TypeFullName()).Some?
    ensures DeclFits(files, d)
  {}
}

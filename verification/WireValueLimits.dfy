/** What backward mode lets through: a group that changes its type, and a field that is required from
    now on. */
module WireValueLimits {
  import opened Sequences
  import opened Descriptors
  import opened Verdicts
  import opened WireValues
  import opened Simulations
  import opened SmallSchemas

  // ---------- a group changes its message type ----------

  const WITH_X := Message("MyGroup", [Int32Field("x", "x", 1)], [], [], [], [], false)
  const BARE := Message("Mygroup", [], [], [], [], [], false)

  function GroupField(typeName: string): Field {
    Field("mygroup", "mygroup", 1, Optional, GroupKind, typeName, false)
  }

  /** A message with a group field; the names of both messages it nests fit the field. */
  function Holder(typeName: string): Message {
    Message("M", [GroupField(typeName)], [], [], [WITH_X, BARE], [], false)
  }

  function GroupSchema(typeName: string): seq<File> {
    [File("g.proto", "p", Proto2, [Holder(typeName)], [])]
  }

  lemma JoinedNames()
    ensures Join("p", "M") == "p.M" && Join("p.M", "MyGroup") == "p.M.MyGroup"
            && Join("p.M", "Mygroup") == "p.M.Mygroup"
    ensures "p.M" != "p.M.MyGroup" && "p.M" != "p.M.Mygroup" && "p.M.MyGroup" != "p.M.Mygroup"
  {
    assert "p.M.MyGroup"[6] != "p.M.Mygroup"[6];
    assert |"p.M"| != |"p.M.MyGroup"| && |"p.M"| != |"p.M.Mygroup"|;
  }

  lemma PairInside(parent: string, a: Message, b: Message)
    requires a.messages == b.messages == []
    ensures MessagesIn(parent, Proto2, [a, b])
         == [MessageDecl(Join(parent, a.name), Proto2, a), MessageDecl(Join(parent, b.name), Proto2, b)]
  {
    assert [a, b][..1] == [a] && [a][..0] == [];
    assert MessagesIn(parent, Proto2, [a]) == [MessageDecl(Join(parent, a.name), Proto2, a)];
  }

  lemma OneWithTwoInside(m: Message, a: Message, b: Message)
    requires m.messages == [a, b] && a.messages == b.messages == []
    ensures var fullName := Join("p", m.name);
            MessagesIn("p", Proto2, [m])
            == [MessageDecl(fullName, Proto2, m), MessageDecl(Join(fullName, a.name), Proto2, a),
                MessageDecl(Join(fullName, b.name), Proto2, b)]
  {
    PairInside(Join("p", m.name), a, b);
    assert [m][..0] == [];
    assert MessagesIn("p", Proto2, [m]) == [MessageDecl(Join("p", m.name), Proto2, m)]
           + MessagesIn(Join("p", m.name), Proto2, m.messages);
  }

  lemma GroupSchemaDeclares(typeName: string)
    ensures AllMessages(GroupSchema(typeName))
         == [MessageDecl("p.M", Proto2, Holder(typeName)), MessageDecl("p.M.MyGroup", Proto2, WITH_X),
             MessageDecl("p.M.Mygroup", Proto2, BARE)]
    ensures AllEnums(GroupSchema(typeName)) == []
  {
    var file := GroupSchema(typeName)[0];
    OneWithTwoInside(Holder(typeName), WITH_X, BARE);
    JoinedNames();
    FlatMapOne(FileMessages, file);
    FlatMapOne(FileEnums, file);
    FlatMapEmpty(NestedEnums, FileMessages(file));
  }

  lemma FindThird(decls: seq<MessageDecl>)
    requires |decls| == 3 && decls[0].fullName != decls[1].fullName && decls[0].fullName != decls[2].fullName
             && decls[1].fullName != decls[2].fullName
    ensures forall i | 0 <= i < 3 :: MessageNamed(decls, decls[i].fullName) == Some(decls[i])
  {
    forall i | 0 <= i < 3 ensures MessageNamed(decls, decls[i].fullName) == Some(decls[i]) {
      DeclaredMessageIsNamed(decls, decls[i]);
    }
  }

  lemma GroupSchemaFinds(typeName: string)
    ensures FindMessage(GroupSchema(typeName), "p.M") == Some(MessageDecl("p.M", Proto2, Holder(typeName)))
    ensures FindMessage(GroupSchema(typeName), "p.M.MyGroup") == Some(MessageDecl("p.M.MyGroup", Proto2, WITH_X))
    ensures FindMessage(GroupSchema(typeName), "p.M.Mygroup") == Some(MessageDecl("p.M.Mygroup", Proto2, BARE))
  {
    GroupSchemaDeclares(typeName);
    JoinedNames();
    var decls := AllMessages(GroupSchema(typeName));
    FindThird(decls);
    assert decls[0].fullName == "p.M" && decls[1].fullName == "p.M.MyGroup" && decls[2].fullName == "p.M.Mygroup";
  }

  lemma LoweredNames()
    ensures Lower("MyGroup") == "mygroup" && Lower("Mygroup") == "mygroup"
  {}

  lemma HolderWellFormed(typeName: string, i: int)
    requires (i == 0 && typeName == ".p.M.MyGroup") || (i == 1 && typeName == ".p.M.Mygroup")
    ensures DeclFits(GroupSchema(typeName), MessageDecl("p.M", Proto2, Holder(typeName)))
  {
    var d, f := MessageDecl("p.M", Proto2, Holder(typeName)), GroupField(typeName);
    GroupSchemaFinds(typeName);
    JoinedNames();
    LoweredNames();
    assert f.TypeFullName() == if i == 0 then "p.M.MyGroup" else "p.M.Mygroup";
    assert d.message.messages[i].name == if i == 0 then "MyGroup" else "Mygroup";
    assert DeclaresGroup(d, f, i);
  }

  lemma PartsWellFormed(typeName: string)
    ensures DeclFits(GroupSchema(typeName), MessageDecl("p.M.MyGroup", Proto2, WITH_X))
    ensures DeclFits(GroupSchema(typeName), MessageDecl("p.M.Mygroup", Proto2, BARE))
  {}

  lemma GroupSchemaWellFormed(typeName: string, i: int)
    requires (i == 0 && typeName == ".p.M.MyGroup") || (i == 1 && typeName == ".p.M.Mygroup")
    ensures WellFormed(GroupSchema(typeName))
  {
    GroupSchemaDeclares(typeName);
    JoinedNames();
    HolderWellFormed(typeName, i);
    PartsWellFormed(typeName);
    ThreeWellFormed(GroupSchema(typeName), MessageDecl("p.M", Proto2, Holder(typeName)),
                    MessageDecl("p.M.MyGroup", Proto2, WITH_X), MessageDecl("p.M.Mygroup", Proto2, BARE));
  }

  lemma HoldersMatch()
    ensures MessageKept(true, Holder(".p.M.Mygroup"), Holder(".p.M.MyGroup"))
    ensures MessageKept(true, WITH_X, WITH_X) && MessageKept(true, BARE, BARE)
  {}

  lemma GroupSchemasCompatible()
    ensures Compatible(true, GroupSchema(".p.M.Mygroup"), GroupSchema(".p.M.MyGroup"))
  {
    GroupSchemaDeclares(".p.M.MyGroup");
    GroupSchemaFinds(".p.M.Mygroup");
    HoldersMatch();
  }

  const INNER := Entry(1, Scalar(Int32Kind, "7"), Empty)
  const OUTER := Entry(1, GroupValue(INNER), Empty)

  lemma InnerTyping(typeName: string)
    ensures Typed(GroupSchema(typeName), "p.M.MyGroup", INNER) && !Typed(GroupSchema(typeName), "p.M.Mygroup", INNER)
  {
    GroupSchemaFinds(typeName);
    var files := GroupSchema(typeName);
    assert TypedEntries(files, WITH_X, Empty);
    assert FieldByNumber(WITH_X.fields, 1) == Some(WITH_X.fields[0]);
    assert TypedEntries(files, WITH_X, INNER) && !TypedEntries(files, BARE, INNER);
  }

  lemma OuterTyping(typeName: string, name: string)
    requires IsTypeReference(typeName) && typeName[1..] == name
    ensures Typed(GroupSchema(typeName), "p.M", OUTER) <==> Typed(GroupSchema(typeName), name, INNER)
  {
    GroupSchemaFinds(typeName);
    var f := GroupField(typeName);
    assert FieldByNumber(Holder(typeName).fields, 1) == Some(f) && f.TypeFullName() == name;
    assert TypedEntries(GroupSchema(typeName), Holder(typeName), Empty);
    assert TypedValue(GroupSchema(typeName), f, GroupValue(INNER)) <==> Typed(GroupSchema(typeName), name, INNER);
  }

  /** A group may change its message type in backward mode, and then old data is no longer well typed. */
  lemma GroupTypeChangeIsAccepted()
    ensures var prev, current := GroupSchema(".p.M.MyGroup"), GroupSchema(".p.M.Mygroup");
            && WellFormed(prev) && WellFormed(current) && Compatible(true, current, prev)
            && Typed(prev, "p.M", OUTER) && !Typed(current, "p.M", OUTER)
            && !GroupsFollow(current, prev, "p.M", OUTER) && !GroupsSimulated(current, prev)
  {
    var prev, current := GroupSchema(".p.M.MyGroup"), GroupSchema(".p.M.Mygroup");
    GroupSchemaWellFormed(".p.M.MyGroup", 0);
    GroupSchemaWellFormed(".p.M.Mygroup", 1);
    GroupSchemasCompatible();
    InnerTyping(".p.M.MyGroup");
    InnerTyping(".p.M.Mygroup");
    OuterTyping(".p.M.MyGroup", "p.M.MyGroup");
    OuterTyping(".p.M.Mygroup", "p.M.Mygroup");
    OldDataTypedExactly(current, prev, "p.M", OUTER);
    GroupSchemaFinds(".p.M.MyGroup");
    BackwardKeepsAllExactly(current, prev);
  }

  // ---------- a required field is added ----------

  const NO_FIELD := Reserving([], [], [])
  const REQUIRES_X := Reserving([Field("x", "x", 1, Required, Int32Kind, "", false)], [], [])

  lemma RequiredMessages()
    ensures WellFormedMessage(Only(Proto2, NO_FIELD), NO_FIELD)
            && WellFormedMessage(Only(Proto2, REQUIRES_X), REQUIRES_X)
    ensures FollowsSyntax(MessageDecl("p.M", Proto2, NO_FIELD)) && FollowsSyntax(MessageDecl("p.M", Proto2, REQUIRES_X))
    ensures MessageKept(true, REQUIRES_X, NO_FIELD)
  {}

  lemma RequiredSchemas()
    ensures WellFormed(Only(Proto2, NO_FIELD)) && WellFormed(Only(Proto2, REQUIRES_X))
    ensures Compatible(true, Only(Proto2, REQUIRES_X), Only(Proto2, NO_FIELD))
  {
    RequiredMessages();
    OnlyWellFormed(Proto2, NO_FIELD);
    OnlyWellFormed(Proto2, REQUIRES_X);
    OnlyCompatible(Proto2, true, REQUIRES_X, NO_FIELD);
  }

  lemma EmptyInitialised(m: Message)
    requires IsFlat(m)
    ensures Typed(Only(Proto2, m), "p.M", Empty)
    ensures Initialised(Only(Proto2, m), "p.M", Empty) <==> forall f | f in m.fields :: !f.cardinality.Required?
  {
    OnlyDeclares(Proto2, m);
    assert forall n :: !Carries(Empty, n);
  }

  /** A required field may be added in backward mode, and then the empty message of the old schema is
      no longer initialised. */
  lemma AddedRequiredFieldIsAccepted()
    ensures var prev, current := Only(Proto2, NO_FIELD), Only(Proto2, REQUIRES_X);
            && WellFormed(prev) && WellFormed(current) && Compatible(true, current, prev)
            && Typed(prev, "p.M", Empty) && Typed(current, "p.M", Empty)
            && Initialised(prev, "p.M", Empty) && !Initialised(current, "p.M", Empty)
  {
    RequiredSchemas();
    EmptyInitialised(NO_FIELD);
    EmptyInitialised(REQUIRES_X);
    assert REQUIRES_X.fields[0].cardinality.Required?;
  }
}

/** Small change events, among them some that list more than the changes. */
module ChangeEventLimits {
  import opened Sequences
  import opened Descriptors
  import opened Lineage
  import opened ChangeEvents
  import opened SmallSchemas

  lemma OneTop<T(!new)>(itemsOf: File -> seq<T>, file: File, item: T)
    requires itemsOf(file) == [item]
    ensures Tops(itemsOf, [file]) == [Top(file.package, item)]
  {
    FlatMapOne(TopsOf(itemsOf), file);
  }

  lemma NoTop<T(!new)>(itemsOf: File -> seq<T>, file: File)
    requires itemsOf(file) == []
    ensures Tops(itemsOf, [file]) == []
  {
    FlatMapOne(TopsOf(itemsOf), file);
  }

  lemma NamesInP()
    ensures Dotted("p", "M") == "p.M" && "p.M" != Dotted("p.M", "E")
  {
    assert |"p.M"| == 3 && |Dotted("p.M", "E")| == 5;
  }

  /** In a schema that declares `p.M` only, an explanation of `p.M` is one of that message. */
  lemma ExplainsOnly(prev: seq<File>, m: Message, fields: seq<string>)
    requires m.name == "M" && (forall e | e in m.enums :: e.name == "E")
    requires Explained(prev, Only(Proto3, m), "p.M", fields)
    ensures MessageFieldsListed(FindTop(MessageName(), Tops(MessagesOf(), prev), "p", "M"), m, fields)
  {
    var file := Only(Proto3, m)[0];
    OneTop(MessagesOf(), file, m);
    NoTop(EnumsOf(), file);
    NamesInP();
  }

  // ---------- an unchanged enum ----------

  const E := Enum("E", [EnumValue("ZERO", 0, false)], [], [], false)
  const BEFORE := Message("M", [], [], [], [], [E], false)
  const AFTER := Message("M", [Int32Field("y", "y", 1)], [], [], [], [E], false)

  lemma WithEnumDeclares(m: Message)
    requires m.name == "M" && m.messages == [] && m.enums == [E]
    ensures AllMessages(Only(Proto3, m)) == [MessageDecl("p.M", Proto3, m)]
    ensures AllEnums(Only(Proto3, m)) == [EnumDecl("p.M.E", E)]
  {
    var file := Only(Proto3, m)[0];
    assert Join("p", "M") == "p.M" && Join("p.M", "E") == "p.M.E";
    assert [m][..0] == [] && MessagesIn("p", Proto3, [m]) == [MessageDecl("p.M", Proto3, m)];
    FlatMapOne(FileMessages, file);
    FlatMapOne(FileEnums, file);
    FlatMapOne(NestedEnums, MessageDecl("p.M", Proto3, m));
    assert NestedEnums(MessageDecl("p.M", Proto3, m)) == [EnumDecl("p.M.E", E)];
  }

  lemma PartsWellFormed(files: seq<File>)
    ensures WellFormedMessage(files, BEFORE) && WellFormedMessage(files, AFTER) && WellFormedEnum(E)
    ensures FollowsSyntax(MessageDecl("p.M", Proto3, BEFORE)) && FollowsSyntax(MessageDecl("p.M", Proto3, AFTER))
  {}

  lemma WithEnumWellFormed(m: Message)
    requires m.name == "M" && m.messages == [] && m.enums == [E]
    requires WellFormedMessage(Only(Proto3, m), m) && FollowsSyntax(MessageDecl("p.M", Proto3, m)) && WellFormedEnum(E)
    ensures WellFormed(Only(Proto3, m))
  {
    WithEnumDeclares(m);
    assert |"p.M"| != |"p.M.E"|;
    OneOfEach(Only(Proto3, m), MessageDecl("p.M", Proto3, m), EnumDecl("p.M.E", E));
  }

  lemma BothWellFormed()
    ensures WellFormed(Only(Proto3, BEFORE)) && WellFormed(Only(Proto3, AFTER))
  {
    PartsWellFormed(Only(Proto3, BEFORE));
    PartsWellFormed(Only(Proto3, AFTER));
    WithEnumWellFormed(BEFORE);
    WithEnumWellFormed(AFTER);
  }

  /** Of a schema that declares `p.M` only, `p.M` is listed if it was not there as it is. */
  lemma OnlyIsUpdated(prev: seq<File>, m: Message)
    requires m.name == "M" && FindTop(MessageName(), Tops(MessagesOf(), prev), "p", "M") != Some(m)
    ensures "p.M" in Updates(prev, Only(Proto3, m))
  {
    var file := Only(Proto3, m)[0];
    var update := MessageUpdate(Tops(MessagesOf(), prev), "p");
    NamesInP();
    FlatMapOne(FileUpdate(Tops(MessagesOf(), prev), Tops(EnumsOf(), prev)), file);
    FlatMapOne(update, m);
    assert update(m)[0] == "p.M" && FlatMap(update, file.messages) == update(m);
  }

  lemma BeforeIsFound()
    ensures FindTop(MessageName(), Tops(MessagesOf(), Only(Proto3, BEFORE)), "p", "M") == Some(BEFORE) != Some(AFTER)
    ensures !NoEnumUnchanged(Some(BEFORE), AFTER) && !EnumImpacted(Some(BEFORE), AFTER, "E")
  {
    OneTop(MessagesOf(), Only(Proto3, BEFORE)[0], BEFORE);
    assert |BEFORE.fields| != |AFTER.fields| && AFTER.enums[0] == E && BEFORE.enums[0] == E;
    assert E in AFTER.enums && E in OldEnums(Some(BEFORE));
  }

  lemma AfterIsUpdated()
    ensures "p.M" in Updates(Only(Proto3, BEFORE), Only(Proto3, AFTER))
  {
    BeforeIsFound();
    OnlyIsUpdated(Only(Proto3, BEFORE), AFTER);
  }

  /** The message gains the field `y`; its enum `E` stays as it is and is listed all the same. */
  lemma UnchangedEnumIsListed()
    ensures WellFormed(Only(Proto3, BEFORE)) && WellFormed(Only(Proto3, AFTER)) && !NoEnumUnchanged(Some(BEFORE), AFTER)
    ensures "p.M" in Updates(Only(Proto3, BEFORE), Only(Proto3, AFTER))
    ensures forall fields | Explained(Only(Proto3, BEFORE), Only(Proto3, AFTER), "p.M", fields) ::
              "E" in fields && !EnumImpacted(Some(BEFORE), AFTER, "E")
  {
    BothWellFormed();
    AfterIsUpdated();
    BeforeIsFound();
    forall fields | Explained(Only(Proto3, BEFORE), Only(Proto3, AFTER), "p.M", fields) ensures "E" in fields {
      ExplanationListsEnum(fields);
    }
  }

  lemma ExplanationListsEnum(fields: seq<string>)
    requires Explained(Only(Proto3, BEFORE), Only(Proto3, AFTER), "p.M", fields)
    ensures "E" in fields
  {
    BeforeIsFound();
    ExplainsOnly(Only(Proto3, BEFORE), AFTER, fields);
    EnumIsListed(fields);
  }

  lemma EnumIsListed(fields: seq<string>)
    requires MessageFieldsListed(Some(BEFORE), AFTER, fields)
    ensures "E" in fields
  {
    var added, enums :| MessageParts(Some(BEFORE), AFTER, fields, added, enums);
    assert AFTER.enums[0] == E && EnumName()(E) == "E";
    assert "E" in NamesOf(EnumName(), AFTER.enums);
  }

  // ---------- a new deprecated message ----------

  const NOTHING: seq<File> := [File("m.proto", "p", Proto3, [], [])]
  const DEPRECATED := Message("M", [], [], [], [], [], true)

  lemma NothingDeclares()
    ensures AllMessages(NOTHING) == [] && AllEnums(NOTHING) == []
  {
    var file := NOTHING[0];
    FlatMapOne(FileMessages, file);
    FlatMapOne(FileEnums, file);
  }

  lemma DeprecatedWellFormed()
    ensures WellFormed(NOTHING) && WellFormed(Only(Proto3, DEPRECATED))
  {
    NothingDeclares();
    assert WellFormedMessage(Only(Proto3, DEPRECATED), DEPRECATED)
           && FollowsSyntax(MessageDecl("p.M", Proto3, DEPRECATED));
    OnlyWellFormed(Proto3, DEPRECATED);
  }

  /** A new message that is deprecated from the start is listed with one impacted field, the empty name. */
  lemma NewDeprecatedListsEmptyName()
    ensures WellFormed(NOTHING) && WellFormed(Only(Proto3, DEPRECATED))
    ensures "p.M" in Updates(NOTHING, Only(Proto3, DEPRECATED))
    ensures forall fields | Explained(NOTHING, Only(Proto3, DEPRECATED), "p.M", fields) :: fields == [""]
  {
    DeprecatedWellFormed();
    NoTop(MessagesOf(), NOTHING[0]);
    OnlyIsUpdated(NOTHING, DEPRECATED);
    forall fields | Explained(NOTHING, Only(Proto3, DEPRECATED), "p.M", fields) ensures fields == [""] {
      ExplainsOnly(NOTHING, DEPRECATED, fields);
    }
  }

  // ---------- a field of another kind ----------

  const INT_X := Message("M", [Int32Field("x", "x", 1)], [], [], [], [], false)
  const STRING_X := Message("M", [Field("x", "x", 1, Optional, StringKind, "", false)], [], [], [], [], false)

  lemma BothKindsWellFormed()
    ensures WellFormed(Only(Proto3, INT_X)) && WellFormed(Only(Proto3, STRING_X))
  {
    assert WellFormedMessage(Only(Proto3, INT_X), INT_X) && FollowsSyntax(MessageDecl("p.M", Proto3, INT_X));
    assert WellFormedMessage(Only(Proto3, STRING_X), STRING_X) && FollowsSyntax(MessageDecl("p.M", Proto3, STRING_X));
    OnlyWellFormed(Proto3, INT_X);
    OnlyWellFormed(Proto3, STRING_X);
  }

  lemma IntIsFound()
    ensures FindTop(MessageName(), Tops(MessagesOf(), Only(Proto3, INT_X)), "p", "M") == Some(INT_X) != Some(STRING_X)
  {
    OneTop(MessagesOf(), Only(Proto3, INT_X)[0], INT_X);
    assert INT_X.fields[0] != STRING_X.fields[0];
  }

  lemma OneFieldListed(former: Message, m: Message, f: Field, g: Field, fields: seq<string>)
    requires MessageFieldsListed(Some(former), m, fields) && former.deprecated == m.deprecated
    requires former.fields == [f] && m.fields == [g] && f.name == g.name && f.kind != g.kind && m.enums == []
    ensures forall x :: x in fields <==> x == f.name
  {
    FieldsListedExactly(former, m, fields);
    assert f in former.fields && g in m.fields;
    assert FieldAltered(former.fields, m.fields, f.name);
  }

  /** The field `x` changes from `int32` to `string`: the message is updated, and `x` is all that is listed
      for it. */
  lemma KindChangeIsListed()
    ensures WellFormed(Only(Proto3, INT_X)) && WellFormed(Only(Proto3, STRING_X))
    ensures "p.M" in Updates(Only(Proto3, INT_X), Only(Proto3, STRING_X))
    ensures forall fields | Explained(Only(Proto3, INT_X), Only(Proto3, STRING_X), "p.M", fields) ::
              forall x :: x in fields <==> x == "x"
  {
    BothKindsWellFormed();
    IntIsFound();
    OnlyIsUpdated(Only(Proto3, INT_X), STRING_X);
    forall fields | Explained(Only(Proto3, INT_X), Only(Proto3, STRING_X), "p.M", fields)
      ensures forall x :: x in fields <==> x == "x"
    {
      ExplainsOnly(Only(Proto3, INT_X), STRING_X, fields);
      OneFieldListed(INT_X, STRING_X, INT_X.fields[0], STRING_X.fields[0], fields);
    }
  }
}

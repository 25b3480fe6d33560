/** The protobuf descriptor model shared by the compatibility check, the dependency graph and
    the change detector: files declare messages and enums, messages nest both. */
module Descriptors {
  import opened Sequences

  datatype Option<+T> = None | Some(value: T)

  datatype Syntax = Proto2 | Proto3

  // Only the first three are labels a parsed descriptor can carry.
  datatype Cardinality = Optional | Required | Repeated | UnknownCardinality(code: int) {
    predicate IsValid() { !UnknownCardinality? }
  }

  datatype Kind =
    | BoolKind | EnumKind | Int32Kind | Sint32Kind | Uint32Kind | Int64Kind | Sint64Kind
    | Uint64Kind | Sfixed32Kind | Fixed32Kind | FloatKind | Sfixed64Kind | Fixed64Kind
    | DoubleKind | StringKind | BytesKind | MessageKind | GroupKind

  datatype Range = Range(start: int, end: int)

  // `typeName` is absolute, with its leading dot, for message, group and enum fields; else empty.
  datatype Field = Field(name: string, jsonName: string, number: int, cardinality: Cardinality,
                         kind: Kind, typeName: string, deprecated: bool)
  {
    function TypeFullName(): string {
      if IsTypeReference(typeName) then typeName[1..] else typeName
    }
  }

  datatype EnumValue = EnumValue(name: string, number: int, deprecated: bool)

  datatype Enum = Enum(name: string, values: seq<EnumValue>, reservedRanges: seq<Range>,
                       reservedNames: seq<string>, deprecated: bool)

  datatype Message = Message(name: string, fields: seq<Field>, reservedRanges: seq<Range>,
                             reservedNames: seq<string>, messages: seq<Message>, enums: seq<Enum>,
                             deprecated: bool)

  datatype File = File(path: string, package: string, syntax: Syntax, messages: seq<Message>,
                       enums: seq<Enum>)

  predicate IsTypeReference(typeName: string) {
    typeName != "" && typeName[0] == '.'
  }

  // ---------- reserved numbers and lookups inside one descriptor ----------

  /** Reserved ranges of a message are half-open ... */
  predicate MessageReserves(m: Message, n: int) {
    exists i | 0 <= i < |m.reservedRanges| :: m.reservedRanges[i].start <= n < m.reservedRanges[i].end
  }

  /** ... and those of an enum are inclusive. */
  predicate EnumReserves(e: Enum, n: int) {
    exists i | 0 <= i < |e.reservedRanges| :: e.reservedRanges[i].start <= n <= e.reservedRanges[i].end
  }

  function FieldByNumber(fields: seq<Field>, n: int): (r: Option<Field>)
    ensures r.Some? ==> r.value in fields && r.value.number == n
    ensures r.None? ==> forall f | f in fields :: f.number != n
  {
    if fields == [] then None
    else if fields[0].number == n then Some(fields[0])
    else FieldByNumber(fields[1..], n)
  }

  function ValueByName(values: seq<EnumValue>, name: string): (r: Option<EnumValue>)
    ensures r.Some? ==> r.value in values && r.value.name == name
    ensures r.None? ==> forall v | v in values :: v.name != name
  {
    if values == [] then None
    else if values[0].name == name then Some(values[0])
    else ValueByName(values[1..], name)
  }

  // ---------- everything a set of files declares, at any depth ----------

  /** A message together with its full name and the syntax of its file. */
  datatype MessageDecl = MessageDecl(fullName: string, syntax: Syntax, message: Message)

  datatype EnumDecl = EnumDecl(fullName: string, enum: Enum)

  function Join(parent: string, name: string): string {
    if parent == "" then name else parent + "." + name
  }

  /** Every message of `msgs` in visiting order: a message, then what it nests, then its siblings. */
  function MessagesIn(parent: string, syntax: Syntax, msgs: seq<Message>): seq<MessageDecl>
    decreases msgs
  {
    if msgs == [] then []
    else
      var last := msgs[|msgs| - 1];
      var fullName := Join(parent, last.name);
      MessagesIn(parent, syntax, msgs[..|msgs| - 1])
      + ([MessageDecl(fullName, syntax, last)] + MessagesIn(fullName, syntax, last.messages))
  }

  function EnumsIn(parent: string, enums: seq<Enum>): seq<EnumDecl> {
    seq(|enums|, i requires 0 <= i < |enums| => EnumDecl(Join(parent, enums[i].name), enums[i]))
  }

  function NestedEnums(decl: MessageDecl): seq<EnumDecl> {
    EnumsIn(decl.fullName, decl.message.enums)
  }

  function FileMessages(file: File): seq<MessageDecl> {
    MessagesIn(file.package, file.syntax, file.messages)
  }

  /** The enums of a file in visiting order: its own first, then those nested in its messages. */
  function FileEnums(file: File): seq<EnumDecl> {
    EnumsIn(file.package, file.enums) + FlatMap(NestedEnums, FileMessages(file))
  }

  function AllMessages(files: seq<File>): seq<MessageDecl> {
    FlatMap(FileMessages, files)
  }

  function AllEnums(files: seq<File>): seq<EnumDecl> {
    FlatMap(FileEnums, files)
  }

  // ---------- lookup by full name ----------

  function MessageNamed(decls: seq<MessageDecl>, fullName: string): (r: Option<MessageDecl>)
    ensures r.Some? ==> r.value in decls && r.value.fullName == fullName
    ensures r.None? ==> forall d | d in decls :: d.fullName != fullName
  {
    if decls == [] then None
    else if decls[0].fullName == fullName then Some(decls[0])
    else MessageNamed(decls[1..], fullName)
  }

  function EnumNamed(decls: seq<EnumDecl>, fullName: string): (r: Option<EnumDecl>)
    ensures r.Some? ==> r.value in decls && r.value.fullName == fullName
    ensures r.None? ==> forall d | d in decls :: d.fullName != fullName
  {
    if decls == [] then None
    else if decls[0].fullName == fullName then Some(decls[0])
    else EnumNamed(decls[1..], fullName)
  }

  function FindMessage(files: seq<File>, fullName: string): Option<MessageDecl> {
    MessageNamed(AllMessages(files), fullName)
  }

  function FindEnum(files: seq<File>, fullName: string): Option<EnumDecl> {
    EnumNamed(AllEnums(files), fullName)
  }

  // ---------- what building a registry from the files enforces ----------

  ghost predicate UniqueMessages(decls: seq<MessageDecl>) {
    forall i, j | 0 <= i < j < |decls| :: decls[i].fullName != decls[j].fullName
  }

  ghost predicate UniqueEnums(decls: seq<EnumDecl>) {
    forall i, j | 0 <= i < j < |decls| :: decls[i].fullName != decls[j].fullName
  }

  ghost predicate UniqueNumbers(fields: seq<Field>) {
    forall i, j | 0 <= i < j < |fields| :: fields[i].number != fields[j].number
  }

  ghost predicate UniqueFieldNames(fields: seq<Field>) {
    forall i, j | 0 <= i < j < |fields| :: fields[i].name != fields[j].name
  }

  ghost predicate UniqueValueNames(values: seq<EnumValue>) {
    forall i, j | 0 <= i < j < |values| :: values[i].name != values[j].name
  }

  const MAX_FIELD_NUMBER := 0x1fff_ffff

  function Apart(): (Range, Range) -> bool {
    (r: Range, q: Range) => r.end <= q.start || q.end <= r.start
  }

  function EnumApart(): (Range, Range) -> bool {
    (r: Range, q: Range) => r.end < q.start || q.end < r.start
  }

  ghost predicate WellFormedField(files: seq<File>, m: Message, f: Field) {
    && f.cardinality.IsValid()
    && 1 <= f.number <= MAX_FIELD_NUMBER
    && !MessageReserves(m, f.number)
    && f.name !in m.reservedNames
    && (f.kind.MessageKind? || f.kind.GroupKind? ==>
          IsTypeReference(f.typeName) && FindMessage(files, f.TypeFullName()).Some?)
    && (f.kind.EnumKind? ==>
          IsTypeReference(f.typeName) && FindEnum(files, f.TypeFullName()).Some?)
  }

  ghost predicate WellFormedMessage(files: seq<File>, m: Message) {
    && UniqueNumbers(m.fields) && UniqueFieldNames(m.fields)
    && (forall f | f in m.fields :: WellFormedField(files, m, f))
    && (forall r | r in m.reservedRanges :: 1 <= r.start < r.end <= MAX_FIELD_NUMBER + 1)
    && Pairwise(Apart(), m.reservedRanges) && Distinct(m.reservedNames)
  }

  ghost predicate WellFormedEnum(e: Enum) {
    && e.values != [] && UniqueValueNames(e.values)
    && (forall v | v in e.values :: !EnumReserves(e, v.number) && v.name !in e.reservedNames)
    && (forall r | r in e.reservedRanges :: r.start <= r.end)
    && Pairwise(EnumApart(), e.reservedRanges) && Distinct(e.reservedNames)
  }

  function Lower(s: string): string {
    seq(|s|, i requires 0 <= i < |s| => if 'A' <= s[i] <= 'Z' then (s[i] as int + 32) as char else s[i])
  }

  /** A group's message is declared next to its field, which carries its name in lower case. */
  ghost predicate DeclaresGroup(d: MessageDecl, f: Field, i: int) {
    && 0 <= i < |d.message.messages|
    && var name := d.message.messages[i].name;
       name != "" && 'A' <= name[0] <= 'Z' && f.name == Lower(name) && f.TypeFullName() == Join(d.fullName, name)
  }

  /** Groups and required fields belong to proto2. */
  ghost predicate FollowsSyntax(d: MessageDecl) {
    && (forall f | f in d.message.fields && d.syntax.Proto3? :: !f.cardinality.Required? && !f.kind.GroupKind?)
    && (forall f | f in d.message.fields && f.kind.GroupKind? :: exists i :: DeclaresGroup(d, f, i))
  }

  /** A registry: full names are unique, field numbers, field names and enum value names are unique
      in their owner, nothing declared is reserved, nothing is reserved twice, every referenced type
      is present, and labels and groups are as the syntax allows. */
  ghost predicate WellFormed(files: seq<File>) {
    && UniqueMessages(AllMessages(files))
    && UniqueEnums(AllEnums(files))
    && (forall d | d in AllMessages(files) :: FindEnum(files, d.fullName).None?)
    && (forall d | d in AllMessages(files) :: WellFormedMessage(files, d.message) && FollowsSyntax(d))
    && (forall d | d in AllEnums(files) :: WellFormedEnum(d.enum))
  }

  /** The full name of a referenced type is its type name without the leading dot. */
  lemma TypeFullNameExactly(f: Field, name: string)
    ensures f.TypeFullName() == name <==>
            f.typeName == "." + name || (f.typeName == name && (name == "" || name[0] != '.'))
  {
    if IsTypeReference(f.typeName) {
      assert f.typeName == "." + f.typeName[1..] && ("." + name)[1..] == name;
    }
  }

  // ---------- lookups return what is declared ----------

  lemma {:induction false} DeclaredMessageIsNamed(decls: seq<MessageDecl>, d: MessageDecl)
    requires UniqueMessages(decls) && d in decls
    ensures MessageNamed(decls, d.fullName) == Some(d)
  {
    if decls[0] != d {
      DeclaredMessageIsNamed(decls[1..], d);
    }
  }

  lemma {:induction false} DeclaredEnumIsNamed(decls: seq<EnumDecl>, d: EnumDecl)
    requires UniqueEnums(decls) && d in decls
    ensures EnumNamed(decls, d.fullName) == Some(d)
  {
    if decls[0] != d {
      DeclaredEnumIsNamed(decls[1..], d);
    }
  }

  lemma {:induction false} DeclaredFieldIsFound(fields: seq<Field>, f: Field)
    requires UniqueNumbers(fields) && f in fields
    ensures FieldByNumber(fields, f.number) == Some(f)
  {
    if fields[0] != f {
      DeclaredFieldIsFound(fields[1..], f);
    }
  }

  lemma {:induction false} DeclaredValueIsFound(values: seq<EnumValue>, v: EnumValue)
    requires UniqueValueNames(values) && v in values
    ensures ValueByName(values, v.name) == Some(v)
  {
    if values[0] != v {
      DeclaredValueIsFound(values[1..], v);
    }
  }

  // ---------- the walk reaches everything ----------

  lemma {:induction false} WalkListsTopLevel(parent: string, syntax: Syntax, msgs: seq<Message>, i: nat)
    requires i < |msgs|
    ensures MessageDecl(Join(parent, msgs[i].name), syntax, msgs[i]) in MessagesIn(parent, syntax, msgs)
    decreases msgs
  {
    if i < |msgs| - 1 {
      WalkListsTopLevel(parent, syntax, msgs[..|msgs| - 1], i);
    }
  }

  lemma {:induction false} WalkListsNested(parent: string, syntax: Syntax, msgs: seq<Message>, d: MessageDecl, i: nat)
    requires d in MessagesIn(parent, syntax, msgs) && i < |d.message.messages|
    ensures d.syntax == syntax
    ensures var m := d.message.messages[i];
            MessageDecl(Join(d.fullName, m.name), syntax, m) in MessagesIn(parent, syntax, msgs)
    decreases msgs
  {
    var init, last := msgs[..|msgs| - 1], msgs[|msgs| - 1];
    var fullName := Join(parent, last.name);
    if d in MessagesIn(parent, syntax, init) {
      WalkListsNested(parent, syntax, init, d, i);
    } else if d in MessagesIn(fullName, syntax, last.messages) {
      WalkListsNested(fullName, syntax, last.messages, d, i);
    } else {
      WalkListsTopLevel(fullName, syntax, last.messages, i);
    }
  }

  /** The visited declarations include every top-level message and enum and are closed under nesting,
      each under its full name; with unique names each is visited once. */
  lemma EveryDeclarationIsVisited(files: seq<File>)
    ensures forall file, i | file in files && 0 <= i < |file.messages| ::
              MessageDecl(Join(file.package, file.messages[i].name), file.syntax,
                          file.messages[i]) in AllMessages(files)
    ensures forall d, i | d in AllMessages(files) && 0 <= i < |d.message.messages| ::
              MessageDecl(Join(d.fullName, d.message.messages[i].name), d.syntax,
                          d.message.messages[i]) in AllMessages(files)
    ensures forall file, i | file in files && 0 <= i < |file.enums| ::
              EnumDecl(Join(file.package, file.enums[i].name), file.enums[i]) in AllEnums(files)
    ensures forall d, i | d in AllMessages(files) && 0 <= i < |d.message.enums| ::
              EnumDecl(Join(d.fullName, d.message.enums[i].name), d.message.enums[i]) in AllEnums(files)
  {
    forall file, i | file in files && 0 <= i < |file.messages|
      ensures MessageDecl(Join(file.package, file.messages[i].name), file.syntax,
                          file.messages[i]) in AllMessages(files)
    {
      var decl := MessageDecl(Join(file.package, file.messages[i].name), file.syntax, file.messages[i]);
      WalkListsTopLevel(file.package, file.syntax, file.messages, i);
      FlatMapMember(FileMessages, files, decl);
    }
    forall d, i | d in AllMessages(files) && 0 <= i < |d.message.messages|
      ensures MessageDecl(Join(d.fullName, d.message.messages[i].name), d.syntax,
                          d.message.messages[i]) in AllMessages(files)
    {
      FlatMapMember(FileMessages, files, d);
      var file :| file in files && d in FileMessages(file);
      WalkListsNested(file.package, file.syntax, file.messages, d, i);
      FlatMapMember(FileMessages, files, MessageDecl(Join(d.fullName, d.message.messages[i].name), d.syntax,
                                                     d.message.messages[i]));
    }
    forall file, i | file in files && 0 <= i < |file.enums|
      ensures EnumDecl(Join(file.package, file.enums[i].name), file.enums[i]) in AllEnums(files)
    {
      var decl := EnumDecl(Join(file.package, file.enums[i].name), file.enums[i]);
      assert EnumsIn(file.package, file.enums)[i] == decl;
      FlatMapMember(FileEnums, files, decl);
    }
    forall d, i | d in AllMessages(files) && 0 <= i < |d.message.enums|
      ensures EnumDecl(Join(d.fullName, d.message.enums[i].name), d.message.enums[i]) in AllEnums(files)
    {
      var decl := EnumDecl(Join(d.fullName, d.message.enums[i].name), d.message.enums[i]);
      assert NestedEnums(d)[i] == decl;
      FlatMapMember(FileMessages, files, d);
      var file :| file in files && d in FileMessages(file);
      FlatMapMember(NestedEnums, FileMessages(file), decl);
      FlatMapMember(FileEnums, files, decl);
    }
  }

  // ---------- the walk visits nothing else ----------

  /** A message of `msgs`, under its full name. */
  ghost predicate IsOneOf(parent: string, syntax: Syntax, msgs: seq<Message>, d: MessageDecl) {
    exists i :: 0 <= i < |msgs| && d == MessageDecl(Join(parent, msgs[i].name), syntax, msgs[i])
  }

  ghost predicate IsNestedIn(outer: MessageDecl, d: MessageDecl) {
    IsOneOf(outer.fullName, outer.syntax, outer.message.messages, d)
  }

  ghost predicate IsEnumOf(parent: string, enums: seq<Enum>, e: EnumDecl) {
    exists i :: 0 <= i < |enums| && e == EnumDecl(Join(parent, enums[i].name), enums[i])
  }

  lemma {:induction false} VisitedIsIn(parent: string, syntax: Syntax, msgs: seq<Message>, d: MessageDecl)
    requires d in MessagesIn(parent, syntax, msgs)
    ensures IsOneOf(parent, syntax, msgs, d)
            || exists outer :: outer in MessagesIn(parent, syntax, msgs) && IsNestedIn(outer, d)
    decreases msgs
  {
    var init, last := msgs[..|msgs| - 1], msgs[|msgs| - 1];
    var decl := MessageDecl(Join(parent, last.name), syntax, last);
    var nested := MessagesIn(decl.fullName, syntax, last.messages);
    assert MessagesIn(parent, syntax, msgs) == MessagesIn(parent, syntax, init) + ([decl] + nested);
    if d in MessagesIn(parent, syntax, init) {
      VisitedIsIn(parent, syntax, init, d);
      if IsOneOf(parent, syntax, init, d) {
        var i :| 0 <= i < |init| && d == MessageDecl(Join(parent, init[i].name), syntax, init[i]);
        assert init[i] == msgs[i];
      }
    } else if d in nested {
      VisitedIsIn(decl.fullName, syntax, last.messages, d);
      if IsOneOf(decl.fullName, syntax, last.messages, d) {
        assert decl in MessagesIn(parent, syntax, msgs) && IsNestedIn(decl, d);
      }
    }
  }

  /** Every visited message is a top-level one or nested in a visited one ... */
  lemma OnlyDeclaredMessagesAreVisited(files: seq<File>, d: MessageDecl)
    requires d in AllMessages(files)
    ensures || (exists file :: file in files && IsOneOf(file.package, file.syntax, file.messages, d))
            || exists outer :: outer in AllMessages(files) && IsNestedIn(outer, d)
  {
    FlatMapMember(FileMessages, files, d);
    var file :| file in files && d in FileMessages(file);
    VisitedIsIn(file.package, file.syntax, file.messages, d);
    if outer :| outer in FileMessages(file) && IsNestedIn(outer, d) {
      FlatMapMember(FileMessages, files, outer);
    }
  }

  /** ... and every visited enum is one of a file or nested in a visited message, each under its full name. */
  lemma OnlyDeclaredEnumsAreVisited(files: seq<File>, e: EnumDecl)
    requires e in AllEnums(files)
    ensures || (exists file :: file in files && IsEnumOf(file.package, file.enums, e))
            || exists d :: d in AllMessages(files) && IsEnumOf(d.fullName, d.message.enums, e)
  {
    FlatMapMember(FileEnums, files, e);
    var file :| file in files && e in FileEnums(file);
    if e in EnumsIn(file.package, file.enums) {
      var i :| 0 <= i < |file.enums| && EnumsIn(file.package, file.enums)[i] == e;
    } else {
      FlatMapMember(NestedEnums, FileMessages(file), e);
      var d :| d in FileMessages(file) && e in NestedEnums(d);
      FlatMapMember(FileMessages, files, d);
      var i :| 0 <= i < |d.message.enums| && NestedEnums(d)[i] == e;
    }
  }
}

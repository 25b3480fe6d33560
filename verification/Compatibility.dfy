/** The schema comparison: a walk over everything the previous schema declares that collects the
    differences the compatibility mode does not allow. */
module Compatibility {
  import opened Descriptors
  import opened Sequences

  datatype DiffKind =
    | MessageDelete
    | NonInclusiveReservedRange
    | NonInclusiveReservedNames
    | FieldDelete
    | FieldDeleteWithoutReservedNumber
    | FieldDeleteWithoutReservedName
    | FieldNameChange
    | FieldLabelChange
    | FieldKindChange
    | FieldTypeChange
    | EnumDelete
    | EnumValueDelete
    | EnumValueDeleteWithoutReservedNumber
    | EnumValueDeleteWithoutReservedName
    | EnumValueNumberChange
    | SyntaxChange

  const BACKWARD: seq<DiffKind> := [
    MessageDelete, NonInclusiveReservedRange, NonInclusiveReservedNames, FieldDelete,
    FieldNameChange, FieldLabelChange, FieldKindChange, FieldTypeChange, EnumDelete,
    EnumValueDelete, EnumValueNumberChange, SyntaxChange]

  const FORWARD: seq<DiffKind> := [
    MessageDelete, NonInclusiveReservedRange, NonInclusiveReservedNames, FieldNameChange,
    FieldLabelChange, FieldKindChange, FieldTypeChange, FieldDeleteWithoutReservedNumber,
    FieldDeleteWithoutReservedName, EnumDelete, EnumValueDeleteWithoutReservedNumber,
    EnumValueDeleteWithoutReservedName, EnumValueNumberChange, SyntaxChange]

  const FULL: seq<DiffKind> := [
    MessageDelete, NonInclusiveReservedRange, NonInclusiveReservedNames, FieldNameChange,
    FieldLabelChange, FieldKindChange, FieldTypeChange, FieldDelete, EnumDelete,
    EnumValueDelete, EnumValueNumberChange, SyntaxChange]

  /** One reported difference: its kind, the declaration it is in, and the part that differs. */
  datatype Diff = Diff(kind: DiffKind, owner: string, part: Part)

  datatype Part = Whole | Named(name: string) | Numbers(range: Range)

  // ---------- what the walk collects, as sequences in visiting order ----------

  function Raise(na: seq<DiffKind>, kind: DiffKind, owner: string, part: Part): seq<Diff> {
    if kind in na then [Diff(kind, owner, part)] else []
  }

  /** Only the two end numbers of a range are looked at. */
  predicate MessageRangeKept(current: Message, r: Range) {
    MessageReserves(current, r.start) && MessageReserves(current, r.end - 1)
  }

  predicate EnumRangeKept(current: Enum, r: Range) {
    EnumReserves(current, r.start) && EnumReserves(current, r.end)
  }

  function MessageRangeDiffs(na: seq<DiffKind>, owner: string, current: Message): Range -> seq<Diff> {
    (r: Range) => if MessageRangeKept(current, r) then [] else Raise(na, NonInclusiveReservedRange, owner, Numbers(r))
  }

  function EnumRangeDiffs(na: seq<DiffKind>, owner: string, current: Enum): Range -> seq<Diff> {
    (r: Range) => if EnumRangeKept(current, r) then [] else Raise(na, NonInclusiveReservedRange, owner, Numbers(r))
  }

  function NameDiffs(na: seq<DiffKind>, owner: string, currentNames: seq<string>): string -> seq<Diff> {
    (name: string) =>
      if name in currentNames then [] else Raise(na, NonInclusiveReservedNames, owner, Named(name))
  }

  function FieldPairDiffs(na: seq<DiffKind>, owner: string, current: Field, prev: Field): seq<Diff> {
    var part := Named(prev.name);
    (if prev.jsonName != current.jsonName then Raise(na, FieldNameChange, owner, part) else [])
    + (if prev.cardinality.IsValid() && prev.cardinality != current.cardinality
       then Raise(na, FieldLabelChange, owner, part) else [])
    + FieldTypeDiffs(na, owner, current, prev)
  }

  function FieldTypeDiffs(na: seq<DiffKind>, owner: string, current: Field, prev: Field): seq<Diff> {
    if prev.kind != current.kind then Raise(na, FieldKindChange, owner, Named(prev.name))
    else if (prev.kind.MessageKind? || prev.kind.EnumKind?) && prev.TypeFullName() != current.TypeFullName()
    then Raise(na, FieldTypeChange, owner, Named(prev.name))
    else []
  }

  function FieldDropDiffs(na: seq<DiffKind>, owner: string, current: Message, prev: Field): seq<Diff> {
    var part := Named(prev.name);
    Raise(na, FieldDelete, owner, part)
    + (if MessageReserves(current, prev.number) then []
       else Raise(na, FieldDeleteWithoutReservedNumber, owner, part))
    + (if prev.name in current.reservedNames then []
       else Raise(na, FieldDeleteWithoutReservedName, owner, part))
  }

  function FieldDiffs(na: seq<DiffKind>, owner: string, current: Message): Field -> seq<Diff> {
    (prev: Field) =>
      match FieldByNumber(current.fields, prev.number)
      case None => FieldDropDiffs(na, owner, current, prev)
      case Some(f) => FieldPairDiffs(na, owner, f, prev)
  }

  function MessagePairDiffs(na: seq<DiffKind>, owner: string, current: Message, prev: Message): seq<Diff> {
    FlatMap(MessageRangeDiffs(na, owner, current), prev.reservedRanges)
    + FlatMap(NameDiffs(na, owner, current.reservedNames), prev.reservedNames)
    + FlatMap(FieldDiffs(na, owner, current), prev.fields)
  }

  function MessageDiffs(na: seq<DiffKind>, current: seq<File>): MessageDecl -> seq<Diff> {
    (prev: MessageDecl) =>
      match FindMessage(current, prev.fullName)
      case None => Raise(na, MessageDelete, prev.fullName, Whole)
      case Some(cur) =>
        (if cur.syntax != prev.syntax then Raise(na, SyntaxChange, prev.fullName, Whole) else [])
        + MessagePairDiffs(na, prev.fullName, cur.message, prev.message)
  }

  function ValueDropDiffs(na: seq<DiffKind>, owner: string, current: Enum, prev: EnumValue): seq<Diff> {
    var part := Named(prev.name);
    Raise(na, EnumValueDelete, owner, part)
    + (if EnumReserves(current, prev.number) then []
       else Raise(na, EnumValueDeleteWithoutReservedNumber, owner, part))
    + (if prev.name in current.reservedNames then []
       else Raise(na, EnumValueDeleteWithoutReservedName, owner, part))
  }

  function ValueDiffs(na: seq<DiffKind>, owner: string, current: Enum): EnumValue -> seq<Diff> {
    (prev: EnumValue) =>
      match ValueByName(current.values, prev.name)
      case None => ValueDropDiffs(na, owner, current, prev)
      case Some(v) =>
        if prev.number != v.number then Raise(na, EnumValueNumberChange, owner, Named(prev.name)) else []
  }

  function EnumPairDiffs(na: seq<DiffKind>, owner: string, current: Enum, prev: Enum): seq<Diff> {
    FlatMap(EnumRangeDiffs(na, owner, current), prev.reservedRanges)
    + FlatMap(NameDiffs(na, owner, current.reservedNames), prev.reservedNames)
    + FlatMap(ValueDiffs(na, owner, current), prev.values)
  }

  function EnumDiffs(na: seq<DiffKind>, current: seq<File>): EnumDecl -> seq<Diff> {
    (prev: EnumDecl) =>
      match FindEnum(current, prev.fullName)
      case None => Raise(na, EnumDelete, prev.fullName, Whole)
      case Some(cur) => EnumPairDiffs(na, prev.fullName, cur.enum, prev.enum)
  }

  function FileDiffs(na: seq<DiffKind>, current: seq<File>): File -> seq<Diff> {
    (file: File) =>
      FlatMap(MessageDiffs(na, current), FileMessages(file))
      + FlatMap(EnumDiffs(na, current), FileEnums(file))
  }

  // ---------- the comparison as the program runs it ----------

  /** Accumulates the differences that are not allowed. */
  class CompatibilityErr {
    const notAllowed: seq<DiffKind>
    var diffs: seq<Diff>

    constructor (notAllowed: seq<DiffKind>)
      ensures this.notAllowed == notAllowed && diffs == []
    {
      this.notAllowed := notAllowed;
      diffs := [];
    }

    method Add(kind: DiffKind, owner: string, part: Part)
      modifies this
      ensures diffs == old(diffs) + Raise(notAllowed, kind, owner, part)
    {
      var disallowed := Contains(kind, notAllowed);
      if disallowed {
        diffs := diffs + [Diff(kind, owner, part)];
      }
    }

    predicate IsEmpty()
      reads this
    {
      |diffs| == 0
    }
  }

  method Contains(d: DiffKind, others: seq<DiffKind>) returns (r: bool)
    ensures r <==> d in others
  {
    for i := 0 to |others|
      invariant d !in others[..i]
    {
      if others[i] == d {
        return true;
      }
    }
    return false;
  }

  method CompareMessages(owner: string, current: Message, prev: Message, diffs: CompatibilityErr)
    modifies diffs
    ensures diffs.diffs == old(diffs.diffs) + MessagePairDiffs(diffs.notAllowed, owner, current, prev)
  {
    var na := diffs.notAllowed;
    ghost var start := diffs.diffs;
    ghost var check := MessageRangeDiffs(na, owner, current);
    for i := 0 to |prev.reservedRanges|
      invariant diffs.diffs == start + FlatMap(check, prev.reservedRanges[..i])
    {
      var range := prev.reservedRanges[i];
      if !(MessageReserves(current, range.start) && MessageReserves(current, range.end - 1)) {
        diffs.Add(NonInclusiveReservedRange, owner, Numbers(range));
      }
      FlatMapStep(check, prev.reservedRanges, i, start);
    }
    assert prev.reservedRanges[..|prev.reservedRanges|] == prev.reservedRanges;
    CompareReservedNames(owner, current.reservedNames, prev.reservedNames, diffs);
    CompareFieldList(owner, current, prev.fields, diffs);
    Assoc3(start, FlatMap(check, prev.reservedRanges),
           FlatMap(NameDiffs(na, owner, current.reservedNames), prev.reservedNames),
           FlatMap(FieldDiffs(na, owner, current), prev.fields));
  }

  method CompareReservedNames(owner: string, currentNames: seq<string>, prevNames: seq<string>, diffs: CompatibilityErr)
    modifies diffs
    ensures diffs.diffs == old(diffs.diffs) + FlatMap(NameDiffs(diffs.notAllowed, owner, currentNames), prevNames)
  {
    ghost var start := diffs.diffs;
    ghost var check := NameDiffs(diffs.notAllowed, owner, currentNames);
    for i := 0 to |prevNames|
      invariant diffs.diffs == start + FlatMap(check, prevNames[..i])
    {
      if prevNames[i] !in currentNames {
        diffs.Add(NonInclusiveReservedNames, owner, Named(prevNames[i]));
      }
      FlatMapStep(check, prevNames, i, start);
    }
    assert prevNames[..|prevNames|] == prevNames;
  }

  method CompareFieldList(owner: string, current: Message, prevFields: seq<Field>, diffs: CompatibilityErr)
    modifies diffs
    ensures diffs.diffs == old(diffs.diffs) + FlatMap(FieldDiffs(diffs.notAllowed, owner, current), prevFields)
  {
    ghost var start := diffs.diffs;
    ghost var check := FieldDiffs(diffs.notAllowed, owner, current);
    for i := 0 to |prevFields|
      invariant diffs.diffs == start + FlatMap(check, prevFields[..i])
    {
      var prevField := prevFields[i];
      var currentField := FieldByNumber(current.fields, prevField.number);
      if currentField.None? {
        DropField(owner, current, prevField, diffs);
      } else {
        CompareFields(owner, currentField.value, prevField, diffs);
      }
      FlatMapStep(check, prevFields, i, start);
    }
    assert prevFields[..|prevFields|] == prevFields;
  }

  method DropField(owner: string, current: Message, prevField: Field, diffs: CompatibilityErr)
    modifies diffs
    ensures diffs.diffs == old(diffs.diffs) + FieldDropDiffs(diffs.notAllowed, owner, current, prevField)
  {
    diffs.Add(FieldDelete, owner, Named(prevField.name));
    if !MessageReserves(current, prevField.number) {
      diffs.Add(FieldDeleteWithoutReservedNumber, owner, Named(prevField.name));
    }
    if prevField.name !in current.reservedNames {
      diffs.Add(FieldDeleteWithoutReservedName, owner, Named(prevField.name));
    }
  }

  method CompareFields(owner: string, current: Field, prev: Field, diffs: CompatibilityErr)
    modifies diffs
    ensures diffs.diffs == old(diffs.diffs) + FieldPairDiffs(diffs.notAllowed, owner, current, prev)
  {
    if prev.jsonName != current.jsonName {
      diffs.Add(FieldNameChange, owner, Named(prev.name));
    }
    if prev.cardinality.IsValid() && prev.cardinality != current.cardinality {
      diffs.Add(FieldLabelChange, owner, Named(prev.name));
    }
    CompareFieldTypes(owner, current, prev, diffs);
  }

  method CompareFieldTypes(owner: string, current: Field, prev: Field, diffs: CompatibilityErr)
    modifies diffs
    ensures diffs.diffs == old(diffs.diffs) + FieldTypeDiffs(diffs.notAllowed, owner, current, prev)
  {
    if prev.kind != current.kind {
      diffs.Add(FieldKindChange, owner, Named(prev.name));
    } else {
      if prev.kind.MessageKind? && prev.TypeFullName() != current.TypeFullName() {
        diffs.Add(FieldTypeChange, owner, Named(prev.name));
      }
      if prev.kind.EnumKind? && prev.TypeFullName() != current.TypeFullName() {
        diffs.Add(FieldTypeChange, owner, Named(prev.name));
      }
    }
  }

  method CompareEnums(owner: string, current: Enum, prev: Enum, diffs: CompatibilityErr)
    modifies diffs
    ensures diffs.diffs == old(diffs.diffs) + EnumPairDiffs(diffs.notAllowed, owner, current, prev)
  {
    var na := diffs.notAllowed;
    ghost var start := diffs.diffs;
    ghost var check := EnumRangeDiffs(na, owner, current);
    for i := 0 to |prev.reservedRanges|
      invariant diffs.diffs == start + FlatMap(check, prev.reservedRanges[..i])
    {
      var range := prev.reservedRanges[i];
      if !(EnumReserves(current, range.start) && EnumReserves(current, range.end)) {
        diffs.Add(NonInclusiveReservedRange, owner, Numbers(range));
      }
      FlatMapStep(check, prev.reservedRanges, i, start);
    }
    assert prev.reservedRanges[..|prev.reservedRanges|] == prev.reservedRanges;
    CompareReservedNames(owner, current.reservedNames, prev.reservedNames, diffs);
    CompareValueList(owner, current, prev.values, diffs);
    Assoc3(start, FlatMap(check, prev.reservedRanges),
           FlatMap(NameDiffs(na, owner, current.reservedNames), prev.reservedNames),
           FlatMap(ValueDiffs(na, owner, current), prev.values));
  }

  method CompareValueList(owner: string, current: Enum, prevValues: seq<EnumValue>, diffs: CompatibilityErr)
    modifies diffs
    ensures diffs.diffs == old(diffs.diffs) + FlatMap(ValueDiffs(diffs.notAllowed, owner, current), prevValues)
  {
    ghost var start := diffs.diffs;
    ghost var check := ValueDiffs(diffs.notAllowed, owner, current);
    for i := 0 to |prevValues|
      invariant diffs.diffs == start + FlatMap(check, prevValues[..i])
    {
      var prevValue := prevValues[i];
      var currentValue := ValueByName(current.values, prevValue.name);
      if currentValue.None? {
        DropValue(owner, current, prevValue, diffs);
      } else if prevValue.number != currentValue.value.number {
        diffs.Add(EnumValueNumberChange, owner, Named(prevValue.name));
      }
      FlatMapStep(check, prevValues, i, start);
    }
    assert prevValues[..|prevValues|] == prevValues;
  }

  method DropValue(owner: string, current: Enum, prevValue: EnumValue, diffs: CompatibilityErr)
    modifies diffs
    ensures diffs.diffs == old(diffs.diffs) + ValueDropDiffs(diffs.notAllowed, owner, current, prevValue)
  {
    diffs.Add(EnumValueDelete, owner, Named(prevValue.name));
    if !EnumReserves(current, prevValue.number) {
      diffs.Add(EnumValueDeleteWithoutReservedNumber, owner, Named(prevValue.name));
    }
    if prevValue.name !in current.reservedNames {
      diffs.Add(EnumValueDeleteWithoutReservedName, owner, Named(prevValue.name));
    }
  }

  method CompareMessageDecl(current: seq<File>, prev: MessageDecl, diffs: CompatibilityErr)
    modifies diffs
    ensures diffs.diffs == old(diffs.diffs) + MessageDiffs(diffs.notAllowed, current)(prev)
  {
    var currentMsg := FindMessage(current, prev.fullName);
    if currentMsg.None? {
      diffs.Add(MessageDelete, prev.fullName, Whole);
    } else {
      var cur := currentMsg.value;
      ghost var syntaxDiffs := if cur.syntax != prev.syntax
          then Raise(diffs.notAllowed, SyntaxChange, prev.fullName, Whole) else [];
      if cur.syntax != prev.syntax {
        diffs.Add(SyntaxChange, prev.fullName, Whole);
      }
      assert diffs.diffs == old(diffs.diffs) + syntaxDiffs;
      Assoc(old(diffs.diffs), syntaxDiffs, MessagePairDiffs(diffs.notAllowed, prev.fullName, cur.message,
                                                            prev.message));
      CompareMessages(prev.fullName, currentMsg.value.message, prev.message, diffs);
    }
  }

  method CompareEnumDecl(current: seq<File>, prev: EnumDecl, diffs: CompatibilityErr)
    modifies diffs
    ensures diffs.diffs == old(diffs.diffs) + EnumDiffs(diffs.notAllowed, current)(prev)
  {
    var currentEnum := FindEnum(current, prev.fullName);
    if currentEnum.None? {
      diffs.Add(EnumDelete, prev.fullName, Whole);
    } else {
      CompareEnums(prev.fullName, currentEnum.value.enum, prev.enum, diffs);
    }
  }

  /** Visits `msgs` and everything nested in them, comparing each with its namesake in `current`. */
  method CompareEachMessage(current: seq<File>, parent: string, syntax: Syntax, msgs: seq<Message>,
                            diffs: CompatibilityErr)
    modifies diffs
    ensures diffs.diffs == old(diffs.diffs)
                           + FlatMap(MessageDiffs(diffs.notAllowed, current), MessagesIn(parent, syntax, msgs))
    decreases msgs
  {
    ghost var start := diffs.diffs;
    ghost var compare := MessageDiffs(diffs.notAllowed, current);
    for i := 0 to |msgs|
      invariant diffs.diffs == start + FlatMap(compare, MessagesIn(parent, syntax, msgs[..i]))
    {
      var decl := MessageDecl(Join(parent, msgs[i].name), syntax, msgs[i]);
      CompareMessageDecl(current, decl, diffs);
      CompareEachMessage(current, decl.fullName, syntax, msgs[i].messages, diffs);
      WalkStep(compare, parent, syntax, msgs, i, start);
    }
    assert msgs[..|msgs|] == msgs;
  }

  /** One round of a walk that collects after `start`: a message, then what it nests. */
  lemma WalkStep<T>(f: MessageDecl -> seq<T>, parent: string, syntax: Syntax, msgs: seq<Message>, i: nat, start: seq<T>)
    requires i < |msgs|
    ensures var fullName := Join(parent, msgs[i].name);
            start + FlatMap(f, MessagesIn(parent, syntax, msgs[..i])) + f(MessageDecl(fullName, syntax, msgs[i]))
            + FlatMap(f, MessagesIn(fullName, syntax, msgs[i].messages))
            == start + FlatMap(f, MessagesIn(parent, syntax, msgs[..i + 1]))
  {
    var decl := MessageDecl(Join(parent, msgs[i].name), syntax, msgs[i]);
    var before := MessagesIn(parent, syntax, msgs[..i]);
    var nested := MessagesIn(decl.fullName, syntax, msgs[i].messages);
    assert msgs[..i + 1][..i] == msgs[..i];
    FlatMapAppend(f, before, [decl] + nested);
    FlatMapAppend(f, [decl], nested);
    FlatMapOne(f, decl);
    Assoc3(start, FlatMap(f, before), f(decl), FlatMap(f, nested));
    Assoc(FlatMap(f, before), f(decl), FlatMap(f, nested));
  }

  method CompareEachEnum(current: seq<File>, parent: string, enums: seq<Enum>, diffs: CompatibilityErr)
    modifies diffs
    ensures diffs.diffs == old(diffs.diffs)
                           + FlatMap(EnumDiffs(diffs.notAllowed, current), EnumsIn(parent, enums))
  {
    ghost var start := diffs.diffs;
    ghost var compare := EnumDiffs(diffs.notAllowed, current);
    ghost var decls := EnumsIn(parent, enums);
    for i := 0 to |enums|
      invariant diffs.diffs == start + FlatMap(compare, decls[..i])
    {
      var decl := EnumDecl(Join(parent, enums[i].name), enums[i]);
      CompareEnumDecl(current, decl, diffs);
      FlatMapStep(compare, decls, i, start);
    }
    assert decls[..|enums|] == decls;
  }

  function NestedEnumDiffs(na: seq<DiffKind>, current: seq<File>): MessageDecl -> seq<Diff> {
    (decl: MessageDecl) => FlatMap(EnumDiffs(na, current), NestedEnums(decl))
  }

  method CompareEnumsOf(current: seq<File>, decl: MessageDecl, diffs: CompatibilityErr)
    modifies diffs
    ensures diffs.diffs == old(diffs.diffs) + NestedEnumDiffs(diffs.notAllowed, current)(decl)
  {
    CompareEachEnum(current, decl.fullName, decl.message.enums, diffs);
  }

  method CompareNestedEnums(current: seq<File>, parent: string, syntax: Syntax, msgs: seq<Message>,
                            diffs: CompatibilityErr)
    modifies diffs
    ensures diffs.diffs == old(diffs.diffs)
                           + FlatMap(NestedEnumDiffs(diffs.notAllowed, current), MessagesIn(parent, syntax, msgs))
    decreases msgs
  {
    ghost var start := diffs.diffs;
    ghost var compare := NestedEnumDiffs(diffs.notAllowed, current);
    for i := 0 to |msgs|
      invariant diffs.diffs == start + FlatMap(compare, MessagesIn(parent, syntax, msgs[..i]))
    {
      var decl := MessageDecl(Join(parent, msgs[i].name), syntax, msgs[i]);
      CompareEnumsOf(current, decl, diffs);
      CompareNestedEnums(current, decl.fullName, syntax, msgs[i].messages, diffs);
      WalkStep(compare, parent, syntax, msgs, i, start);
    }
    assert msgs[..|msgs|] == msgs;
  }

  method CompareFile(current: seq<File>, fd: File, diffs: CompatibilityErr)
    modifies diffs
    ensures diffs.diffs == old(diffs.diffs) + FileDiffs(diffs.notAllowed, current)(fd)
  {
    ghost var na := diffs.notAllowed;
    CompareEachMessage(current, fd.package, fd.syntax, fd.messages, diffs);
    CompareEachEnum(current, fd.package, fd.enums, diffs);
    CompareNestedEnums(current, fd.package, fd.syntax, fd.messages, diffs);
    FileDiffsParts(na, current, fd, old(diffs.diffs));
  }

  lemma FileDiffsParts(na: seq<DiffKind>, current: seq<File>, fd: File, start: seq<Diff>)
    ensures start + FlatMap(MessageDiffs(na, current), FileMessages(fd))
            + FlatMap(EnumDiffs(na, current), EnumsIn(fd.package, fd.enums))
            + FlatMap(NestedEnumDiffs(na, current), FileMessages(fd))
            == start + FileDiffs(na, current)(fd)
  {
    var msgs := FileMessages(fd);
    var own := EnumsIn(fd.package, fd.enums);
    FlatMapAppend(EnumDiffs(na, current), own, FlatMap(NestedEnums, msgs));
    FlatMapNested(EnumDiffs(na, current), NestedEnums, NestedEnumDiffs(na, current), msgs);
    Assoc3(start, FlatMap(MessageDiffs(na, current), msgs), FlatMap(EnumDiffs(na, current), own),
           FlatMap(NestedEnumDiffs(na, current), msgs));
    Assoc(FlatMap(MessageDiffs(na, current), msgs), FlatMap(EnumDiffs(na, current), own),
          FlatMap(NestedEnumDiffs(na, current), msgs));
  }

  /** Visits the files of `prev` in an arbitrary order. */
  method CompareEachFile(current: seq<File>, prev: seq<File>, diffs: CompatibilityErr) returns (ghost order: seq<nat>)
    requires diffs.diffs == []
    modifies diffs
    ensures IsOrder(order, |prev|)
    ensures diffs.diffs == FlatMap(FileDiffs(diffs.notAllowed, current), Pick(prev, order))
  {
    var remaining: set<nat> := set i: nat {:trigger prev[i]} | i < |prev|;
    order := [];
    while remaining != {}
      invariant Distinct(order)
      invariant forall i: nat :: i < |prev| <==> i in order || i in remaining
      invariant forall i | i in order :: i !in remaining
      invariant diffs.diffs == FlatMap(FileDiffs(diffs.notAllowed, current), Pick(prev, order))
    {
      var i :| i in remaining;
      CompareFile(current, prev[i], diffs);
      remaining := remaining - {i};
      PickStep(FileDiffs(diffs.notAllowed, current), prev, order, i);
      order := order + [i];
    }
  }

  /** Compares every declaration of `prev` with its namesake in `current`, visiting the files in an
      arbitrary order, and returns null when nothing disallowed was found. */
  method CompareSchemas(current: seq<File>, prev: seq<File>, notAllowed: seq<DiffKind>)
    returns (err: CompatibilityErr?)
    ensures err == null <==> FlatMap(FileDiffs(notAllowed, current), prev) == []
    ensures err != null ==> multiset(err.diffs) == multiset(FlatMap(FileDiffs(notAllowed, current), prev))
  {
    var diffs := new CompatibilityErr(notAllowed);
    ghost var order := CompareEachFile(current, prev, diffs);
    OrderIsIrrelevant(notAllowed, current, prev, order);
    if diffs.IsEmpty() {
      return null;
    }
    return diffs;
  }

  /** Visiting the files in another order collects the same differences, in another order. */
  lemma OrderIsIrrelevant(na: seq<DiffKind>, current: seq<File>, prev: seq<File>, order: seq<nat>)
    requires IsOrder(order, |prev|)
    ensures var collected := FlatMap(FileDiffs(na, current), Pick(prev, order));
            && multiset(collected) == multiset(FlatMap(FileDiffs(na, current), prev))
            && (collected == [] <==> FlatMap(FileDiffs(na, current), prev) == [])
  {
    PickIsPermutation(prev, order);
    FlatMapOrder(FileDiffs(na, current), Pick(prev, order), prev);
    SameLength(FlatMap(FileDiffs(na, current), Pick(prev, order)), FlatMap(FileDiffs(na, current), prev));
  }

  lemma SameLength<T>(s: seq<T>, t: seq<T>)
    requires multiset(s) == multiset(t)
    ensures |s| == |t|
  {
    assert |multiset(s)| == |s| && |multiset(t)| == |t|;
  }
}

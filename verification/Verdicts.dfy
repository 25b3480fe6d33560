/** What a verdict of the comparison means, stated over the two schemas alone. */
module Verdicts {
  import opened Sequences
  import opened Descriptors
  import opened Compatibility

  predicate FieldMatches(current: Field, prev: Field) {
    && current.jsonName == prev.jsonName
    && (prev.cardinality.IsValid() ==> current.cardinality == prev.cardinality)
    && current.kind == prev.kind
    && (prev.kind.MessageKind? || prev.kind.EnumKind? ==> current.TypeFullName() == prev.TypeFullName())
  }

  /** A field is carried over unchanged; unless `strict`, it may also be dropped if both its number
      and its name are reserved. */
  predicate FieldKept(strict: bool, current: Message, prev: Field) {
    match FieldByNumber(current.fields, prev.number)
    case Some(f) => FieldMatches(f, prev)
    case None => !strict && MessageReserves(current, prev.number) && prev.name in current.reservedNames
  }

  predicate MessageKept(strict: bool, current: Message, prev: Message) {
    && (forall r | r in prev.reservedRanges :: MessageRangeKept(current, r))
    && (forall n | n in prev.reservedNames :: n in current.reservedNames)
    && (forall f | f in prev.fields :: FieldKept(strict, current, f))
  }

  predicate ValueKept(strict: bool, current: Enum, prev: EnumValue) {
    match ValueByName(current.values, prev.name)
    case Some(v) => v.number == prev.number
    case None => !strict && EnumReserves(current, prev.number) && prev.name in current.reservedNames
  }

  predicate EnumKept(strict: bool, current: Enum, prev: Enum) {
    && (forall r | r in prev.reservedRanges :: EnumRangeKept(current, r))
    && (forall n | n in prev.reservedNames :: n in current.reservedNames)
    && (forall v | v in prev.values :: ValueKept(strict, current, v))
  }

  predicate MessageDeclKept(strict: bool, current: seq<File>, prev: MessageDecl) {
    match FindMessage(current, prev.fullName)
    case None => false
    case Some(cur) => cur.syntax == prev.syntax && MessageKept(strict, cur.message, prev.message)
  }

  predicate EnumDeclKept(strict: bool, current: seq<File>, prev: EnumDecl) {
    match FindEnum(current, prev.fullName)
    case None => false
    case Some(cur) => EnumKept(strict, cur.enum, prev.enum)
  }

  /** Everything `prev` declares, at any depth, is kept by `current`. */
  predicate Compatible(strict: bool, current: seq<File>, prev: seq<File>) {
    && (forall d | d in AllMessages(prev) :: MessageDeclKept(strict, current, d))
    && (forall d | d in AllEnums(prev) :: EnumDeclKept(strict, current, d))
  }

  /** `na` is the list of one of the three modes; only forward tolerates reserved deletions. */
  predicate IsMode(na: seq<DiffKind>, strict: bool) {
    if strict then na == BACKWARD || na == FULL else na == FORWARD
  }

  /** Every mode lists all changes; strict modes list deletions, the other unreserved deletions. */
  predicate Lists(na: seq<DiffKind>, strict: bool) {
    ListsChanges(na) && ListsDeletions(na, strict)
  }

  predicate ListsChanges(na: seq<DiffKind>) {
    && MessageDelete in na && EnumDelete in na && SyntaxChange in na
    && NonInclusiveReservedRange in na && NonInclusiveReservedNames in na
    && FieldNameChange in na && FieldLabelChange in na && FieldKindChange in na && FieldTypeChange in na
    && EnumValueNumberChange in na
  }

  predicate ListsDeletions(na: seq<DiffKind>, strict: bool) {
    && (FieldDelete in na <==> strict) && (EnumValueDelete in na <==> strict)
    && (FieldDeleteWithoutReservedNumber in na <==> !strict)
    && (FieldDeleteWithoutReservedName in na <==> !strict)
    && (EnumValueDeleteWithoutReservedNumber in na <==> !strict)
    && (EnumValueDeleteWithoutReservedName in na <==> !strict)
  }

  lemma ModesListChanges()
    ensures ListsChanges(BACKWARD) && ListsChanges(FULL) && ListsChanges(FORWARD)
  {
    var b, f, w := BACKWARD, FULL, FORWARD;
    assert b[0] == MessageDelete && b[1] == NonInclusiveReservedRange && b[2] == NonInclusiveReservedNames
        && b[4] == FieldNameChange && b[5] == FieldLabelChange && b[6] == FieldKindChange && b[7] == FieldTypeChange
        && b[8] == EnumDelete && b[10] == EnumValueNumberChange && b[11] == SyntaxChange;
    assert f[0] == MessageDelete && f[1] == NonInclusiveReservedRange && f[2] == NonInclusiveReservedNames
        && f[3] == FieldNameChange && f[4] == FieldLabelChange && f[5] == FieldKindChange && f[6] == FieldTypeChange
        && f[8] == EnumDelete && f[10] == EnumValueNumberChange && f[11] == SyntaxChange;
    assert w[0] == MessageDelete && w[1] == NonInclusiveReservedRange && w[2] == NonInclusiveReservedNames
        && w[3] == FieldNameChange && w[4] == FieldLabelChange && w[5] == FieldKindChange && w[6] == FieldTypeChange
        && w[9] == EnumDelete && w[12] == EnumValueNumberChange && w[13] == SyntaxChange;
  }

  lemma StrictModesListDeletions()
    ensures ListsDeletions(BACKWARD, true) && ListsDeletions(FULL, true)
  {
    assert BACKWARD[3] == FieldDelete && BACKWARD[9] == EnumValueDelete;
    assert FULL[7] == FieldDelete && FULL[9] == EnumValueDelete;
  }

  lemma ForwardListsDeletions()
    ensures ListsDeletions(FORWARD, false)
  {
    assert FORWARD[7] == FieldDeleteWithoutReservedNumber && FORWARD[8] == FieldDeleteWithoutReservedName;
    assert FORWARD[10] == EnumValueDeleteWithoutReservedNumber && FORWARD[11] == EnumValueDeleteWithoutReservedName;
  }

  lemma ModeLists(na: seq<DiffKind>, strict: bool)
    requires IsMode(na, strict)
    ensures Lists(na, strict)
  {
    ModesListChanges();
    StrictModesListDeletions();
    ForwardListsDeletions();
  }

  // ---------- the collected differences are empty exactly when everything is kept ----------

  lemma FieldVerdict(na: seq<DiffKind>, strict: bool, owner: string, current: Message, f: Field)
    requires Lists(na, strict)
    ensures FieldDiffs(na, owner, current)(f) == [] <==> FieldKept(strict, current, f)
  {
    match FieldByNumber(current.fields, f.number)
    case None =>
      assert FieldDiffs(na, owner, current)(f) == FieldDropDiffs(na, owner, current, f);
    case Some(c) =>
      assert FieldDiffs(na, owner, current)(f) == FieldPairDiffs(na, owner, c, f);
  }

  lemma FieldsVerdict(na: seq<DiffKind>, strict: bool, owner: string, current: Message, prev: Message)
    requires Lists(na, strict)
    ensures FlatMap(FieldDiffs(na, owner, current), prev.fields) == []
            <==> forall f | f in prev.fields :: FieldKept(strict, current, f)
  {
    var fields := FieldDiffs(na, owner, current);
    FlatMapEmpty(fields, prev.fields);
    forall f | f in prev.fields
      ensures fields(f) == [] <==> FieldKept(strict, current, f)
    {
      FieldVerdict(na, strict, owner, current, f);
    }
  }

  lemma RangesVerdict(na: seq<DiffKind>, owner: string, current: Message, prev: Message)
    requires NonInclusiveReservedRange in na
    ensures FlatMap(MessageRangeDiffs(na, owner, current), prev.reservedRanges) == []
            <==> forall r | r in prev.reservedRanges :: MessageRangeKept(current, r)
  {
    FlatMapEmpty(MessageRangeDiffs(na, owner, current), prev.reservedRanges);
  }

  lemma MessagePairVerdict(na: seq<DiffKind>, strict: bool, owner: string, current: Message, prev: Message)
    requires Lists(na, strict)
    ensures MessagePairDiffs(na, owner, current, prev) == [] <==> MessageKept(strict, current, prev)
  {
    var ranges, names, fields :=
      MessageRangeDiffs(na, owner, current), NameDiffs(na, owner, current.reservedNames),
          FieldDiffs(na, owner, current);
    Empty3(FlatMap(ranges, prev.reservedRanges), FlatMap(names, prev.reservedNames), FlatMap(fields, prev.fields));
    RangesVerdict(na, owner, current, prev);
    FlatMapEmpty(names, prev.reservedNames);
    FieldsVerdict(na, strict, owner, current, prev);
  }

  lemma ValueVerdict(na: seq<DiffKind>, strict: bool, owner: string, current: Enum, v: EnumValue)
    requires Lists(na, strict)
    ensures ValueDiffs(na, owner, current)(v) == [] <==> ValueKept(strict, current, v)
  {
    if ValueByName(current.values, v.name).None? {
      assert ValueDiffs(na, owner, current)(v) == ValueDropDiffs(na, owner, current, v);
    }
  }

  lemma EnumPairVerdict(na: seq<DiffKind>, strict: bool, owner: string, current: Enum, prev: Enum)
    requires Lists(na, strict)
    ensures EnumPairDiffs(na, owner, current, prev) == [] <==> EnumKept(strict, current, prev)
  {
    var ranges, names, values :=
      EnumRangeDiffs(na, owner, current), NameDiffs(na, owner, current.reservedNames), ValueDiffs(na, owner, current);
    Empty3(FlatMap(ranges, prev.reservedRanges), FlatMap(names, prev.reservedNames), FlatMap(values, prev.values));
    FlatMapEmpty(ranges, prev.reservedRanges);
    FlatMapEmpty(names, prev.reservedNames);
    FlatMapEmpty(values, prev.values);
    forall v | v in prev.values
      ensures values(v) == [] <==> ValueKept(strict, current, v)
    {
      ValueVerdict(na, strict, owner, current, v);
    }
  }

  lemma FileVerdict(na: seq<DiffKind>, strict: bool, current: seq<File>, file: File)
    requires Lists(na, strict)
    ensures FileDiffs(na, current)(file) == [] <==> FileKept(strict, current, file)
  {
    FlatMapEmpty(MessageDiffs(na, current), FileMessages(file));
    FlatMapEmpty(EnumDiffs(na, current), FileEnums(file));
    forall d | d in FileMessages(file)
      ensures MessageDiffs(na, current)(d) == [] <==> MessageDeclKept(strict, current, d)
    {
      var found := FindMessage(current, d.fullName);
      if found.Some? {
        MessagePairVerdict(na, strict, d.fullName, found.value.message, d.message);
      }
    }
    forall d | d in FileEnums(file)
      ensures EnumDiffs(na, current)(d) == [] <==> EnumDeclKept(strict, current, d)
    {
      var found := FindEnum(current, d.fullName);
      if found.Some? {
        EnumPairVerdict(na, strict, d.fullName, found.value.enum, d.enum);
      }
    }
  }

  /** In any of the three modes and for any visiting order of the files, no difference is collected
      exactly when everything `prev` declares is kept. */
  lemma VerdictIsDeclarative(na: seq<DiffKind>, strict: bool, current: seq<File>, prev: seq<File>, order: seq<nat>)
    requires IsMode(na, strict) && IsOrder(order, |prev|)
    ensures FlatMap(FileDiffs(na, current), Pick(prev, order)) == [] <==> Compatible(strict, current, prev)
  {
    OrderIsIrrelevant(na, current, prev, order);
    CollectedNothing(na, strict, current, prev);
  }

  lemma CollectedNothing(na: seq<DiffKind>, strict: bool, current: seq<File>, prev: seq<File>)
    requires IsMode(na, strict)
    ensures FlatMap(FileDiffs(na, current), prev) == [] <==> Compatible(strict, current, prev)
  {
    var check := FileDiffs(na, current);
    FlatMapEmpty(check, prev);
    ModeLists(na, strict);
    forall file | file in prev
      ensures check(file) == [] <==> FileKept(strict, current, file)
    {
      FileVerdict(na, strict, current, file);
    }
    EachFileKept(strict, current, prev);
  }

  predicate FileKept(strict: bool, current: seq<File>, file: File) {
    && (forall d | d in FileMessages(file) :: MessageDeclKept(strict, current, d))
    && (forall d | d in FileEnums(file) :: EnumDeclKept(strict, current, d))
  }

  lemma EachFileKept(strict: bool, current: seq<File>, prev: seq<File>)
    ensures Compatible(strict, current, prev) <==> forall file | file in prev :: FileKept(strict, current, file)
  {
    forall d ensures d in AllMessages(prev) <==> exists file :: file in prev && d in FileMessages(file) {
      FlatMapMember(FileMessages, prev, d);
    }
    forall d ensures d in AllEnums(prev) <==> exists file :: file in prev && d in FileEnums(file) {
      FlatMapMember(FileEnums, prev, d);
    }
  }

  // ---------- what the walk visits ----------

  /** However the files are visited, what is collected is what each declared message and each
      declared enum contributes once. */
  lemma {:induction false} CollectsEachDeclarationOnce(na: seq<DiffKind>, current: seq<File>, prev: seq<File>,
                                                       order: seq<nat>)
    requires IsOrder(order, |prev|)
    ensures multiset(FlatMap(FileDiffs(na, current), Pick(prev, order)))
         == multiset(FlatMap(MessageDiffs(na, current), AllMessages(prev)))
            + multiset(FlatMap(EnumDiffs(na, current), AllEnums(prev)))
  {
    OrderIsIrrelevant(na, current, prev, order);
    CollectedFromFiles(na, current, prev);
  }

  lemma {:induction false} CollectedFromFiles(na: seq<DiffKind>, current: seq<File>, files: seq<File>)
    ensures multiset(FlatMap(FileDiffs(na, current), files))
         == multiset(FlatMap(MessageDiffs(na, current), AllMessages(files)))
            + multiset(FlatMap(EnumDiffs(na, current), AllEnums(files)))
  {
    if files != [] {
      var init, file := files[..|files| - 1], files[|files| - 1];
      CollectedFromFiles(na, current, init);
      FlatMapAppend(MessageDiffs(na, current), AllMessages(init), FileMessages(file));
      FlatMapAppend(EnumDiffs(na, current), AllEnums(init), FileEnums(file));
    }
  }

  // ---------- how the modes relate ----------

  /** Backward and full accept the same pairs, and what they accept forward accepts too. */
  lemma ModesRelate(current: seq<File>, prev: seq<File>, order: seq<nat>)
    requires IsOrder(order, |prev|)
    ensures FlatMap(FileDiffs(BACKWARD, current), Pick(prev, order)) == []
            <==> FlatMap(FileDiffs(FULL, current), Pick(prev, order)) == []
    ensures FlatMap(FileDiffs(BACKWARD, current), Pick(prev, order)) == []
            ==> FlatMap(FileDiffs(FORWARD, current), Pick(prev, order)) == []
  {
    VerdictIsDeclarative(BACKWARD, true, current, prev, order);
    VerdictIsDeclarative(FULL, true, current, prev, order);
    VerdictIsDeclarative(FORWARD, false, current, prev, order);
    if Compatible(true, current, prev) {
      StrictImpliesForward(current, prev);
    }
  }

  lemma StrictImpliesForward(current: seq<File>, prev: seq<File>)
    requires Compatible(true, current, prev)
    ensures Compatible(false, current, prev)
  {
    forall d | d in AllMessages(prev) ensures MessageDeclKept(false, current, d) {
      assert MessageDeclKept(true, current, d);
    }
    forall d | d in AllEnums(prev) ensures EnumDeclKept(false, current, d) {
      assert EnumDeclKept(true, current, d);
    }
  }

  /** A number of `prev` that forward comparison accepts is not put to another use in `current`: any
      field carrying it matches the old one, and if there is none, number and name are reserved and
      no field uses either. */
  lemma ForwardNeverReuses(current: seq<File>, prev: seq<File>, d: MessageDecl, f: Field)
    requires WellFormed(current) && Compatible(false, current, prev)
    requires d in AllMessages(prev) && f in d.message.fields
    ensures FindMessage(current, d.fullName).Some?
    ensures var now := FindMessage(current, d.fullName).value.message;
            && (forall g | g in now.fields && g.number == f.number :: FieldMatches(g, f))
            && ((forall g | g in now.fields :: g.number != f.number) ==>
                  && MessageReserves(now, f.number) && f.name in now.reservedNames
                  && forall g | g in now.fields :: g.name != f.name)
  {
    assert MessageDeclKept(false, current, d);
    var decl := FindMessage(current, d.fullName).value;
    assert WellFormedMessage(current, decl.message) && FieldKept(false, decl.message, f);
    forall g | g in decl.message.fields && g.number == f.number ensures FieldMatches(g, f) {
      DeclaredFieldIsFound(decl.message.fields, g);
    }
    forall g | g in decl.message.fields ensures WellFormedField(current, decl.message, g) {}
  }

  /** Likewise for the values of an enum, which are looked up by name. */
  lemma ForwardNeverReusesValue(current: seq<File>, prev: seq<File>, d: EnumDecl, v: EnumValue)
    requires WellFormed(current) && Compatible(false, current, prev)
    requires d in AllEnums(prev) && v in d.enum.values
    ensures FindEnum(current, d.fullName).Some?
    ensures var now := FindEnum(current, d.fullName).value.enum;
            && (forall w | w in now.values && w.name == v.name :: w.number == v.number)
            && ((forall w | w in now.values :: w.name != v.name) ==>
                  && EnumReserves(now, v.number) && v.name in now.reservedNames
                  && forall w | w in now.values :: w.number != v.number)
  {
    assert EnumDeclKept(false, current, d);
    var decl := FindEnum(current, d.fullName).value;
    assert WellFormedEnum(decl.enum) && ValueKept(false, decl.enum, v);
    forall w | w in decl.enum.values && w.name == v.name ensures w.number == v.number {
      DeclaredValueIsFound(decl.enum.values, w);
    }
  }

  /** Every schema is compatible with itself in every mode. */
  lemma Reflexive(strict: bool, files: seq<File>)
    requires WellFormed(files)
    ensures Compatible(strict, files, files)
  {
    forall d | d in AllMessages(files) ensures MessageDeclKept(strict, files, d) {
      DeclaredMessageIsNamed(AllMessages(files), d);
      MessageKeptItself(strict, files, d.message);
    }
    forall d | d in AllEnums(files) ensures EnumDeclKept(strict, files, d) {
      DeclaredEnumIsNamed(AllEnums(files), d);
      EnumKeptItself(strict, d.enum);
    }
  }

  lemma MessageKeptItself(strict: bool, files: seq<File>, m: Message)
    requires WellFormedMessage(files, m)
    ensures MessageKept(strict, m, m)
  {
    forall f | f in m.fields ensures FieldKept(strict, m, f) {
      DeclaredFieldIsFound(m.fields, f);
    }
    forall r | r in m.reservedRanges ensures MessageRangeKept(m, r) {
      var i :| 0 <= i < |m.reservedRanges| && m.reservedRanges[i] == r;
      assert m.reservedRanges[i].start <= r.start < m.reservedRanges[i].end;
      assert m.reservedRanges[i].start <= r.end - 1 < m.reservedRanges[i].end;
    }
  }

  lemma EnumKeptItself(strict: bool, e: Enum)
    requires WellFormedEnum(e)
    ensures EnumKept(strict, e, e)
  {
    forall v | v in e.values ensures ValueKept(strict, e, v) {
      DeclaredValueIsFound(e.values, v);
    }
    forall r | r in e.reservedRanges ensures EnumRangeKept(e, r) {
      var i :| 0 <= i < |e.reservedRanges| && e.reservedRanges[i] == r;
      assert e.reservedRanges[i].start <= r.start <= e.reservedRanges[i].end;
      assert e.reservedRanges[i].start <= r.end <= e.reservedRanges[i].end;
    }
  }

  // ---------- which differences are reported ----------

  ghost predicate NumberReserved(ranges: seq<Range>, n: int) {
    exists r :: r in ranges && r.start <= n < r.end
  }

  ghost predicate EnumNumberReserved(ranges: seq<Range>, n: int) {
    exists r :: r in ranges && r.start <= n <= r.end
  }

  /** A field that is still there under its number differs in this way. */
  ghost predicate FieldDiffers(kind: DiffKind, current: Field, prev: Field) {
    match kind
    case FieldNameChange => current.jsonName != prev.jsonName
    case FieldLabelChange => !prev.cardinality.UnknownCardinality? && current.cardinality != prev.cardinality
    case FieldKindChange => current.kind != prev.kind
    case FieldTypeChange =>
      && current.kind == prev.kind && (prev.kind.MessageKind? || prev.kind.EnumKind?)
      && current.TypeFullName() != prev.TypeFullName()
    case _ => false
  }

  /** A field whose number is gone is missed in this way. */
  ghost predicate FieldMissed(kind: DiffKind, current: Message, prev: Field) {
    match kind
    case FieldDelete => true
    case FieldDeleteWithoutReservedNumber => !NumberReserved(current.reservedRanges, prev.number)
    case FieldDeleteWithoutReservedName => prev.name !in current.reservedNames
    case _ => false
  }

  ghost predicate FieldReported(kind: DiffKind, current: Message, prev: Field) {
    match FieldByNumber(current.fields, prev.number)
    case Some(f) => FieldDiffers(kind, f, prev)
    case None => FieldMissed(kind, current, prev)
  }

  ghost predicate MessageReported(kind: DiffKind, part: Part, current: Message, prev: Message) {
    match kind
    case NonInclusiveReservedRange =>
      && part.Numbers? && part.range in prev.reservedRanges
      && !(NumberReserved(current.reservedRanges, part.range.start)
           && NumberReserved(current.reservedRanges, part.range.end - 1))
    case NonInclusiveReservedNames =>
      part.Named? && part.name in prev.reservedNames && part.name !in current.reservedNames
    case _ => exists f :: f in prev.fields && part == Named(f.name) && FieldReported(kind, current, f)
  }

  ghost predicate ValueReported(kind: DiffKind, current: Enum, prev: EnumValue) {
    match ValueByName(current.values, prev.name)
    case Some(v) => kind == EnumValueNumberChange && v.number != prev.number
    case None =>
      || kind == EnumValueDelete
      || (kind == EnumValueDeleteWithoutReservedNumber && !EnumNumberReserved(current.reservedRanges, prev.number))
      || (kind == EnumValueDeleteWithoutReservedName && prev.name !in current.reservedNames)
  }

  ghost predicate EnumReported(kind: DiffKind, part: Part, current: Enum, prev: Enum) {
    match kind
    case NonInclusiveReservedRange =>
      && part.Numbers? && part.range in prev.reservedRanges
      && !(EnumNumberReserved(current.reservedRanges, part.range.start)
           && EnumNumberReserved(current.reservedRanges, part.range.end))
    case NonInclusiveReservedNames =>
      part.Named? && part.name in prev.reservedNames && part.name !in current.reservedNames
    case _ => exists v :: v in prev.values && part == Named(v.name) && ValueReported(kind, current, v)
  }

  /** Some message of `prev` shows this difference: it is gone, its syntax changed, or one of its parts is
      reported. */
  ghost predicate SomeMessageReported(diff: Diff, current: seq<File>, d: MessageDecl) {
    && diff.owner == d.fullName
    && match FindMessage(current, d.fullName)
       case None => diff.kind == MessageDelete && diff.part == Whole
       case Some(c) =>
         || (diff.kind == SyntaxChange && diff.part == Whole && c.syntax != d.syntax)
         || MessageReported(diff.kind, diff.part, c.message, d.message)
  }

  ghost predicate SomeEnumReported(diff: Diff, current: seq<File>, d: EnumDecl) {
    && diff.owner == d.fullName
    && match FindEnum(current, d.fullName)
       case None => diff.kind == EnumDelete && diff.part == Whole
       case Some(c) => EnumReported(diff.kind, diff.part, c.enum, d.enum)
  }

  /** The difference is a listed one of this owner. */
  predicate Listed(na: seq<DiffKind>, owner: string, diff: Diff) {
    diff.kind in na && diff.owner == owner
  }

  lemma FieldPairExactly(na: seq<DiffKind>, owner: string, current: Field, prev: Field, diff: Diff)
    ensures diff in FieldPairDiffs(na, owner, current, prev) <==>
            Listed(na, owner, diff) && diff.part == Named(prev.name) && FieldDiffers(diff.kind, current, prev)
  {
    assert diff in FieldTypeDiffs(na, owner, current, prev) <==>
      Listed(na, owner, diff) && diff.part == Named(prev.name) && FieldDiffers(diff.kind, current, prev)
      && (diff.kind == FieldKindChange || diff.kind == FieldTypeChange);
  }

  lemma FieldDropExactly(na: seq<DiffKind>, owner: string, current: Message, prev: Field, diff: Diff)
    ensures diff in FieldDropDiffs(na, owner, current, prev) <==>
            Listed(na, owner, diff) && diff.part == Named(prev.name) && FieldMissed(diff.kind, current, prev)
  {
    assert MessageReserves(current, prev.number) <==> NumberReserved(current.reservedRanges, prev.number);
  }

  lemma FieldDiffsExactly(na: seq<DiffKind>, owner: string, current: Message, prev: Field, diff: Diff)
    ensures diff in FieldDiffs(na, owner, current)(prev) <==>
            Listed(na, owner, diff) && diff.part == Named(prev.name) && FieldReported(diff.kind, current, prev)
  {
    match FieldByNumber(current.fields, prev.number)
    case None => FieldDropExactly(na, owner, current, prev, diff);
    case Some(f) => FieldPairExactly(na, owner, f, prev, diff);
  }

  lemma FieldListExactly(na: seq<DiffKind>, owner: string, current: Message, prevs: seq<Field>, diff: Diff)
    ensures diff in FlatMap(FieldDiffs(na, owner, current), prevs) <==>
            Listed(na, owner, diff)
            && exists f :: f in prevs && diff.part == Named(f.name) && FieldReported(diff.kind, current, f)
  {
    var diffs := FieldDiffs(na, owner, current);
    FlatMapMember(diffs, prevs, diff);
    forall f | f in prevs
      ensures diff in diffs(f) <==>
              Listed(na, owner, diff) && diff.part == Named(f.name) && FieldReported(diff.kind, current, f)
    {
      FieldDiffsExactly(na, owner, current, f, diff);
    }
  }

  lemma NameDiffsExactly(na: seq<DiffKind>, owner: string, names: seq<string>, prevs: seq<string>, diff: Diff)
    ensures diff in FlatMap(NameDiffs(na, owner, names), prevs) <==>
            Listed(na, owner, diff) && diff.kind == NonInclusiveReservedNames
            && diff.part.Named? && diff.part.name in prevs && diff.part.name !in names
  {
    FlatMapMember(NameDiffs(na, owner, names), prevs, diff);
  }

  lemma RangeDiffsExactly(na: seq<DiffKind>, owner: string, current: Message, prevs: seq<Range>, diff: Diff)
    ensures diff in FlatMap(MessageRangeDiffs(na, owner, current), prevs) <==>
            Listed(na, owner, diff) && diff.kind == NonInclusiveReservedRange
            && diff.part.Numbers? && diff.part.range in prevs
            && !(NumberReserved(current.reservedRanges, diff.part.range.start)
                 && NumberReserved(current.reservedRanges, diff.part.range.end - 1))
  {
    FlatMapMember(MessageRangeDiffs(na, owner, current), prevs, diff);
    assert forall n :: MessageReserves(current, n) <==> NumberReserved(current.reservedRanges, n);
  }

  lemma EnumRangeDiffsExactly(na: seq<DiffKind>, owner: string, current: Enum, prevs: seq<Range>, diff: Diff)
    ensures diff in FlatMap(EnumRangeDiffs(na, owner, current), prevs) <==>
            Listed(na, owner, diff) && diff.kind == NonInclusiveReservedRange
            && diff.part.Numbers? && diff.part.range in prevs
            && !(EnumNumberReserved(current.reservedRanges, diff.part.range.start)
                 && EnumNumberReserved(current.reservedRanges, diff.part.range.end))
  {
    FlatMapMember(EnumRangeDiffs(na, owner, current), prevs, diff);
    assert forall n :: EnumReserves(current, n) <==> EnumNumberReserved(current.reservedRanges, n);
  }

  lemma InThree<T>(a: seq<T>, b: seq<T>, c: seq<T>, x: T)
    ensures x in a + b + c <==> x in a || x in b || x in c
  {}

  /** Ranges and names have kinds of their own. */
  lemma MessageReportedInParts(kind: DiffKind, part: Part, current: Message, prev: Message)
    ensures MessageReported(kind, part, current, prev) <==>
            || (kind == NonInclusiveReservedRange && part.Numbers? && part.range in prev.reservedRanges
                && !(NumberReserved(current.reservedRanges, part.range.start)
                     && NumberReserved(current.reservedRanges, part.range.end - 1)))
            || (kind == NonInclusiveReservedNames && part.Named? && part.name in prev.reservedNames
                && part.name !in current.reservedNames)
            || exists f :: f in prev.fields && part == Named(f.name) && FieldReported(kind, current, f)
  {
    if kind == NonInclusiveReservedRange || kind == NonInclusiveReservedNames {
      assert forall f :: !FieldReported(kind, current, f);
    }
  }

  lemma EnumReportedInParts(kind: DiffKind, part: Part, current: Enum, prev: Enum)
    ensures EnumReported(kind, part, current, prev) <==>
            || (kind == NonInclusiveReservedRange && part.Numbers? && part.range in prev.reservedRanges
                && !(EnumNumberReserved(current.reservedRanges, part.range.start)
                     && EnumNumberReserved(current.reservedRanges, part.range.end)))
            || (kind == NonInclusiveReservedNames && part.Named? && part.name in prev.reservedNames
                && part.name !in current.reservedNames)
            || exists v :: v in prev.values && part == Named(v.name) && ValueReported(kind, current, v)
  {
    if kind == NonInclusiveReservedRange || kind == NonInclusiveReservedNames {
      assert forall v :: !ValueReported(kind, current, v);
    }
  }

  lemma MessagePairDiffsExactly(na: seq<DiffKind>, owner: string, current: Message, prev: Message, diff: Diff)
    ensures diff in MessagePairDiffs(na, owner, current, prev) <==>
            Listed(na, owner, diff) && MessageReported(diff.kind, diff.part, current, prev)
  {
    RangeDiffsExactly(na, owner, current, prev.reservedRanges, diff);
    NameDiffsExactly(na, owner, current.reservedNames, prev.reservedNames, diff);
    FieldListExactly(na, owner, current, prev.fields, diff);
    MessageReportedInParts(diff.kind, diff.part, current, prev);
    InThree(FlatMap(MessageRangeDiffs(na, owner, current), prev.reservedRanges),
            FlatMap(NameDiffs(na, owner, current.reservedNames), prev.reservedNames),
            FlatMap(FieldDiffs(na, owner, current), prev.fields), diff);
  }

  lemma ValueDiffsExactly(na: seq<DiffKind>, owner: string, current: Enum, prev: EnumValue, diff: Diff)
    ensures diff in ValueDiffs(na, owner, current)(prev) <==>
            Listed(na, owner, diff) && diff.part == Named(prev.name) && ValueReported(diff.kind, current, prev)
  {
    if ValueByName(current.values, prev.name).None? {
      assert ValueDiffs(na, owner, current)(prev) == ValueDropDiffs(na, owner, current, prev);
      assert EnumReserves(current, prev.number) <==> EnumNumberReserved(current.reservedRanges, prev.number);
    }
  }

  lemma ValueListExactly(na: seq<DiffKind>, owner: string, current: Enum, prevs: seq<EnumValue>, diff: Diff)
    ensures diff in FlatMap(ValueDiffs(na, owner, current), prevs) <==>
            Listed(na, owner, diff)
            && exists v :: v in prevs && diff.part == Named(v.name) && ValueReported(diff.kind, current, v)
  {
    var diffs := ValueDiffs(na, owner, current);
    FlatMapMember(diffs, prevs, diff);
    forall v | v in prevs
      ensures diff in diffs(v) <==>
              Listed(na, owner, diff) && diff.part == Named(v.name) && ValueReported(diff.kind, current, v)
    {
      ValueDiffsExactly(na, owner, current, v, diff);
    }
  }

  lemma EnumPairDiffsExactly(na: seq<DiffKind>, owner: string, current: Enum, prev: Enum, diff: Diff)
    ensures diff in EnumPairDiffs(na, owner, current, prev) <==>
            Listed(na, owner, diff) && EnumReported(diff.kind, diff.part, current, prev)
  {
    EnumRangeDiffsExactly(na, owner, current, prev.reservedRanges, diff);
    NameDiffsExactly(na, owner, current.reservedNames, prev.reservedNames, diff);
    ValueListExactly(na, owner, current, prev.values, diff);
    EnumReportedInParts(diff.kind, diff.part, current, prev);
    InThree(FlatMap(EnumRangeDiffs(na, owner, current), prev.reservedRanges),
            FlatMap(NameDiffs(na, owner, current.reservedNames), prev.reservedNames),
            FlatMap(ValueDiffs(na, owner, current), prev.values), diff);
  }

  lemma MessageDiffsExactly(na: seq<DiffKind>, current: seq<File>, d: MessageDecl, diff: Diff)
    ensures diff in MessageDiffs(na, current)(d) <==> diff.kind in na && SomeMessageReported(diff, current, d)
  {
    var found := FindMessage(current, d.fullName);
    if found.Some? {
      MessagePairDiffsExactly(na, d.fullName, found.value.message, d.message, diff);
    }
  }

  lemma EnumDiffsExactly(na: seq<DiffKind>, current: seq<File>, d: EnumDecl, diff: Diff)
    ensures diff in EnumDiffs(na, current)(d) <==> diff.kind in na && SomeEnumReported(diff, current, d)
  {
    var found := FindEnum(current, d.fullName);
    if found.Some? {
      EnumPairDiffsExactly(na, d.fullName, found.value.enum, d.enum, diff);
    }
  }

  /** Whatever the mode list, exactly those differences are collected whose kind is listed and that some
      declared message or enum of `prev`, at any depth, shows. */
  lemma CollectedExactly(na: seq<DiffKind>, current: seq<File>, prev: seq<File>, diff: Diff)
    ensures diff in FlatMap(FileDiffs(na, current), prev) <==>
            && diff.kind in na
            && ((exists d :: d in AllMessages(prev) && SomeMessageReported(diff, current, d))
                || exists d :: d in AllEnums(prev) && SomeEnumReported(diff, current, d))
  {
    CollectedFromFiles(na, current, prev);
    var collected := FlatMap(FileDiffs(na, current), prev);
    var messages := FlatMap(MessageDiffs(na, current), AllMessages(prev));
    var enums := FlatMap(EnumDiffs(na, current), AllEnums(prev));
    assert diff in collected <==> diff in multiset(collected);
    assert diff in messages <==> diff in multiset(messages);
    assert diff in enums <==> diff in multiset(enums);
    FlatMapMember(MessageDiffs(na, current), AllMessages(prev), diff);
    FlatMapMember(EnumDiffs(na, current), AllEnums(prev), diff);
    forall d | d in AllMessages(prev)
      ensures diff in MessageDiffs(na, current)(d) <==> diff.kind in na && SomeMessageReported(diff, current, d)
    {
      MessageDiffsExactly(na, current, d, diff);
    }
    forall d | d in AllEnums(prev)
      ensures diff in EnumDiffs(na, current)(d) <==> diff.kind in na && SomeEnumReported(diff, current, d)
    {
      EnumDiffsExactly(na, current, d, diff);
    }
  }
}

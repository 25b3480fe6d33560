/** When a verdict against the latest version carries over to the versions before it. */
module Transitivity {
  import opened Sequences
  import opened Descriptors
  import opened Compatibility
  import opened Verdicts

  predicate IsMessageEnd(m: Message, n: int) {
    exists r | r in m.reservedRanges :: n == r.start || n == r.end - 1
  }

  predicate IsEnumEnd(e: Enum, n: int) {
    exists r | r in e.reservedRanges :: n == r.start || n == r.end
  }

  /** What `b` must still hold of the old field for every successor of `b` to keep it: a dropped
      number is an end of a reserved range, and a renamed field keeps its old name reserved. */
  predicate StableField(b: Message, f: Field) {
    match FieldByNumber(b.fields, f.number)
    case Some(g) => g.name == f.name || f.name in b.reservedNames
    case None => IsMessageEnd(b, f.number)
  }

  predicate StableMessage(strict: bool, a: Message, b: Message) {
    && (forall r | r in a.reservedRanges :: IsMessageEnd(b, r.start) && IsMessageEnd(b, r.end - 1))
    && (!strict ==> forall f | f in a.fields :: StableField(b, f))
  }

  predicate StableEnum(strict: bool, a: Enum, b: Enum) {
    && (forall r | r in a.reservedRanges :: IsEnumEnd(b, r.start) && IsEnumEnd(b, r.end))
    && (!strict ==> forall v | v in a.values ::
          ValueByName(b.values, v.name).None? ==> IsEnumEnd(b, v.number))
  }

  predicate StableMessageDecl(strict: bool, b: seq<File>, d: MessageDecl) {
    match FindMessage(b, d.fullName)
    case None => true
    case Some(e) => StableMessage(strict, d.message, e.message)
  }

  predicate StableEnumDecl(strict: bool, b: seq<File>, d: EnumDecl) {
    match FindEnum(b, d.fullName)
    case None => true
    case Some(e) => StableEnum(strict, d.enum, e.enum)
  }

  /** A check on the two schemas alone. */
  predicate Stable(strict: bool, a: seq<File>, b: seq<File>) {
    && (forall d | d in AllMessages(a) :: StableMessageDecl(strict, b, d))
    && (forall d | d in AllEnums(a) :: StableEnumDecl(strict, b, d))
  }

  // ---------- stable is enough ----------

  lemma MessageTransitive(strict: bool, files: seq<File>, c: Message, b: Message, a: Message)
    requires WellFormedMessage(files, c)
    requires MessageKept(strict, b, a) && MessageKept(strict, c, b) && StableMessage(strict, a, b)
    ensures MessageKept(strict, c, a)
  {
    EndsStayReserved(strict, c, b);
    forall r | r in a.reservedRanges ensures MessageRangeKept(c, r) {
      assert IsMessageEnd(b, r.start) && IsMessageEnd(b, r.end - 1);
    }
    forall f | f in a.fields ensures FieldKept(strict, c, f) {
      assert FieldKept(strict, b, f);
      match FieldByNumber(b.fields, f.number)
      case Some(g) =>
        assert FieldKept(strict, c, g);
      case None =>
        assert StableField(b, f);
        assert MessageReserves(c, f.number);
        assert forall h | h in c.fields :: WellFormedField(files, c, h);
    }
  }

  lemma EndsStayReserved(strict: bool, c: Message, b: Message)
    requires MessageKept(strict, c, b)
    ensures forall n | IsMessageEnd(b, n) :: MessageReserves(c, n)
  {
    forall n | IsMessageEnd(b, n) ensures MessageReserves(c, n) {
      var r :| r in b.reservedRanges && (n == r.start || n == r.end - 1);
      assert MessageRangeKept(c, r);
    }
  }

  lemma EnumEndsStayReserved(strict: bool, c: Enum, b: Enum)
    requires EnumKept(strict, c, b)
    ensures forall n | IsEnumEnd(b, n) :: EnumReserves(c, n)
  {
    forall n | IsEnumEnd(b, n) ensures EnumReserves(c, n) {
      var r :| r in b.reservedRanges && (n == r.start || n == r.end);
      assert EnumRangeKept(c, r);
    }
  }

  lemma EnumTransitive(strict: bool, c: Enum, b: Enum, a: Enum)
    requires WellFormedEnum(c)
    requires EnumKept(strict, b, a) && EnumKept(strict, c, b) && StableEnum(strict, a, b)
    ensures EnumKept(strict, c, a)
  {
    EnumEndsStayReserved(strict, c, b);
    forall r | r in a.reservedRanges ensures EnumRangeKept(c, r) {
      assert IsEnumEnd(b, r.start) && IsEnumEnd(b, r.end);
    }
    forall v | v in a.values ensures ValueKept(strict, c, v) {
      assert ValueKept(strict, b, v);
      match ValueByName(b.values, v.name)
      case Some(w) => assert ValueKept(strict, c, w);
      case None => assert v.name in b.reservedNames;
    }
  }

  lemma StableIsEnough(strict: bool, c: seq<File>, b: seq<File>, a: seq<File>)
    requires WellFormed(c)
    requires Compatible(strict, b, a) && Compatible(strict, c, b) && Stable(strict, a, b)
    ensures Compatible(strict, c, a)
  {
    forall d | d in AllMessages(a) ensures MessageDeclKept(strict, c, d) {
      assert MessageDeclKept(strict, b, d) && StableMessageDecl(strict, b, d);
      var e := FindMessage(b, d.fullName).value;
      assert MessageDeclKept(strict, c, e);
      var g := FindMessage(c, d.fullName).value;
      MessageTransitive(strict, c, g.message, e.message, d.message);
    }
    forall d | d in AllEnums(a) ensures EnumDeclKept(strict, c, d) {
      assert EnumDeclKept(strict, b, d) && StableEnumDecl(strict, b, d);
      var e := FindEnum(b, d.fullName).value;
      assert EnumDeclKept(strict, c, e);
      var g := FindEnum(c, d.fullName).value;
      EnumTransitive(strict, g.enum, e.enum, d.enum);
    }
  }

  // ---------- stable is necessary: the least a successor may keep ----------

  /** The two ends of a range, as one range if they are the same number. */
  function MessageEnds(r: Range): seq<Range> {
    if r.end - r.start == 1 then [r] else [Range(r.start, r.start + 1), Range(r.end - 1, r.end)]
  }

  function EnumEnds(r: Range): seq<Range> {
    if r.start == r.end then [r] else [Range(r.start, r.start), Range(r.end, r.end)]
  }

  function WithoutNumber(fields: seq<Field>, n: int): (r: seq<Field>)
    ensures forall f :: f in r <==> f in fields && f.number != n
    ensures UniqueNumbers(fields) ==> UniqueNumbers(r)
    ensures UniqueFieldNames(fields) ==> UniqueFieldNames(r)
  {
    if fields == [] then []
    else
      var rest := WithoutNumber(fields[1..], n);
      if fields[0].number == n then rest else [fields[0]] + rest
  }

  /** Possibly one field to drop, of one message. */
  datatype Drop = Nothing | DropField(owner: string, number: int)

  function Dropped(drop: Drop, fullName: string, m: Message): (r: Option<Field>)
    ensures r.Some? ==> drop == DropField(fullName, r.value.number) && r.value in m.fields
  {
    if drop.DropField? && drop.owner == fullName then FieldByNumber(m.fields, drop.number) else None
  }

  /** `m` with each reserved range cut down to its two ends and, if it is the one `drop` names, its
      field dropped and reserved. */
  function Shrink(drop: Drop, fullName: string, m: Message): (r: Message)
    ensures r.name == m.name
    decreases m
  {
    var ends := FlatMap(MessageEnds, m.reservedRanges);
    var nested := seq(|m.messages|, i requires 0 <= i < |m.messages| =>
      Shrink(drop, Join(fullName, m.messages[i].name), m.messages[i]));
    var m' := m.(reservedRanges := ends, messages := nested, enums := Map(ShrinkEnum, m.enums));
    match Dropped(drop, fullName, m)
    case None => m'
    case Some(g) =>
      m'.(fields := WithoutNumber(m.fields, g.number), reservedRanges := ends + [Range(g.number, g.number + 1)],
          reservedNames := m.reservedNames + [g.name])
  }

  function ShrinkEnum(e: Enum): Enum {
    e.(reservedRanges := FlatMap(EnumEnds, e.reservedRanges))
  }

  function ShrinkFile(drop: Drop): File -> File {
    (file: File) =>
      file.(messages := Map((m: Message) => Shrink(drop, Join(file.package, m.name), m), file.messages),
            enums := Map(ShrinkEnum, file.enums))
  }

  function ShrinkFiles(drop: Drop, files: seq<File>): seq<File> {
    Map(ShrinkFile(drop), files)
  }

  function ShrinkDecl(drop: Drop): MessageDecl -> MessageDecl {
    (d: MessageDecl) => d.(message := Shrink(drop, d.fullName, d.message))
  }

  function ShrinkEnumDecl(): EnumDecl -> EnumDecl {
    (d: EnumDecl) => d.(enum := ShrinkEnum(d.enum))
  }

  lemma {:induction false} ShrinkMessagesIn(drop: Drop, parent: string, syntax: Syntax, msgs: seq<Message>,
                                            msgs': seq<Message>)
    requires |msgs'| == |msgs| && forall i | 0 <= i < |msgs| ::
             msgs'[i] == Shrink(drop, Join(parent, msgs[i].name), msgs[i])
    ensures MessagesIn(parent, syntax, msgs') == Map(ShrinkDecl(drop), MessagesIn(parent, syntax, msgs))
    decreases msgs
  {
    if msgs != [] {
      var last, last' := msgs[|msgs| - 1], msgs'[|msgs'| - 1];
      var decl := MessageDecl(Join(parent, last.name), syntax, last);
      ShrinkMessagesIn(drop, parent, syntax, msgs[..|msgs| - 1], msgs'[..|msgs'| - 1]);
      ShrinkMessagesIn(drop, decl.fullName, syntax, last.messages, last'.messages);
      MapAppend(ShrinkDecl(drop), MessagesIn(parent, syntax, msgs[..|msgs| - 1]), decl,
                MessagesIn(decl.fullName, syntax, last.messages));
    }
  }

  lemma ShrinkAllMessages(drop: Drop, files: seq<File>)
    ensures AllMessages(ShrinkFiles(drop, files)) == Map(ShrinkDecl(drop), AllMessages(files))
  {
    forall file | file in files
      ensures FileMessages(ShrinkFile(drop)(file)) == Map(ShrinkDecl(drop), FileMessages(file))
    {
      ShrinkMessagesIn(drop, file.package, file.syntax, file.messages, ShrinkFile(drop)(file).messages);
    }
    FlatMapOfMap(FileMessages, ShrinkFile(drop), ShrinkDecl(drop), files);
  }

  lemma ShrinkAllEnums(drop: Drop, files: seq<File>)
    ensures AllEnums(ShrinkFiles(drop, files)) == Map(ShrinkEnumDecl(), AllEnums(files))
  {
    forall file | file in files
      ensures FileEnums(ShrinkFile(drop)(file)) == Map(ShrinkEnumDecl(), FileEnums(file))
    {
      ShrinkFileEnums(drop, file);
    }
    FlatMapOfMap(FileEnums, ShrinkFile(drop), ShrinkEnumDecl(), files);
  }

  lemma OwnEnumsOfShrunk(parent: string, enums: seq<Enum>)
    ensures EnumsIn(parent, Map(ShrinkEnum, enums)) == Map(ShrinkEnumDecl(), EnumsIn(parent, enums))
  {}

  lemma ShrinkFileEnums(drop: Drop, file: File)
    ensures FileEnums(ShrinkFile(drop)(file)) == Map(ShrinkEnumDecl(), FileEnums(file))
  {
    var file', msgs := ShrinkFile(drop)(file), FileMessages(file);
    ShrinkMessagesIn(drop, file.package, file.syntax, file.messages, file'.messages);
    NestedOfShrunk(drop, msgs);
    OwnEnumsOfShrunk(file.package, file.enums);
    MapConcat(ShrinkEnumDecl(), EnumsIn(file.package, file.enums), FlatMap(NestedEnums, msgs));
  }

  lemma {:induction false} NestedOfShrunk(drop: Drop, msgs: seq<MessageDecl>)
    ensures FlatMap(NestedEnums, Map(ShrinkDecl(drop), msgs)) == Map(ShrinkEnumDecl(), FlatMap(NestedEnums, msgs))
  {
    forall d | d in msgs
      ensures NestedEnums(ShrinkDecl(drop)(d)) == Map(ShrinkEnumDecl(), NestedEnums(d))
    {}
    FlatMapOfMap(NestedEnums, ShrinkDecl(drop), ShrinkEnumDecl(), msgs);
  }

  lemma {:induction false} MessageNamedShrunk(drop: Drop, decls: seq<MessageDecl>, name: string)
    ensures MessageNamed(Map(ShrinkDecl(drop), decls), name) ==
            match MessageNamed(decls, name) case None => None case Some(d) => Some(ShrinkDecl(drop)(d))
  {
    if decls != [] {
      MessageNamedShrunk(drop, decls[1..], name);
      assert Map(ShrinkDecl(drop), decls)[1..] == Map(ShrinkDecl(drop), decls[1..]);
    }
  }

  lemma {:induction false} EnumNamedShrunk(decls: seq<EnumDecl>, name: string)
    ensures EnumNamed(Map(ShrinkEnumDecl(), decls), name) ==
            match EnumNamed(decls, name) case None => None case Some(d) => Some(ShrinkEnumDecl()(d))
  {
    if decls != [] {
      EnumNamedShrunk(decls[1..], name);
      assert Map(ShrinkEnumDecl(), decls)[1..] == Map(ShrinkEnumDecl(), decls[1..]);
    }
  }

  lemma FindShrunk(drop: Drop, files: seq<File>, name: string)
    ensures FindMessage(ShrinkFiles(drop, files), name) ==
            match FindMessage(files, name) case None => None case Some(d) => Some(ShrinkDecl(drop)(d))
    ensures FindEnum(ShrinkFiles(drop, files), name) ==
            match FindEnum(files, name) case None => None case Some(d) => Some(ShrinkEnumDecl()(d))
  {
    ShrinkAllMessages(drop, files);
    ShrinkAllEnums(drop, files);
    MessageNamedShrunk(drop, AllMessages(files), name);
    EnumNamedShrunk(AllEnums(files), name);
  }

  // ---------- the shrunk schema is an accepted successor ----------

  lemma ShrunkReserves(drop: Drop, fullName: string, m: Message, n: int)
    ensures MessageReserves(Shrink(drop, fullName, m), n)
            <==> IsMessageEnd(m, n) || (Dropped(drop, fullName, m).Some? && drop.number == n)
  {
    var ends, ranges := FlatMap(MessageEnds, m.reservedRanges), Shrink(drop, fullName, m).reservedRanges;
    var dropped := Dropped(drop, fullName, m).Some?;
    assert ranges == ends + if dropped then [Range(drop.number, drop.number + 1)] else [];
    EndsHold(m, n);
    if dropped && drop.number == n {
      assert ranges[|ends|].start <= n < ranges[|ends|].end;
    }
    if q :| q in ends && q.start <= n < q.end {
      var i :| 0 <= i < |ends| && ends[i] == q;
      assert ranges[i].start <= n < ranges[i].end;
    }
    if MessageReserves(Shrink(drop, fullName, m), n) {
      var i :| 0 <= i < |ranges| && ranges[i].start <= n < ranges[i].end;
      assert i < |ends| ==> ends[i] in ends;
    }
  }

  lemma EndsHold(m: Message, n: int)
    ensures IsMessageEnd(m, n) <==> exists q :: q in FlatMap(MessageEnds, m.reservedRanges) && q.start <= n < q.end
  {
    forall q: Range
      ensures q in FlatMap(MessageEnds, m.reservedRanges) <==> exists r :: r in m.reservedRanges && q in MessageEnds(r)
    {
      FlatMapMember(MessageEnds, m.reservedRanges, q);
    }
    if IsMessageEnd(m, n) {
      var r :| r in m.reservedRanges && (n == r.start || n == r.end - 1);
      assert Range(n, n + 1) in MessageEnds(r);
    }
  }

  lemma ShrunkEnumReserves(e: Enum, n: int)
    ensures EnumReserves(ShrinkEnum(e), n) <==> IsEnumEnd(e, n)
  {
    var ends := FlatMap(EnumEnds, e.reservedRanges);
    forall q: Range
      ensures q in ends <==> exists r :: r in e.reservedRanges && q in EnumEnds(r)
    {
      FlatMapMember(EnumEnds, e.reservedRanges, q);
    }
    if IsEnumEnd(e, n) {
      var r :| r in e.reservedRanges && (n == r.start || n == r.end);
      assert Range(n, n) in EnumEnds(r) && Range(n, n) in ends;
      var i :| 0 <= i < |ends| && ends[i] == Range(n, n);
      assert ends[i].start <= n <= ends[i].end;
    }
    if EnumReserves(ShrinkEnum(e), n) {
      var i :| 0 <= i < |ends| && ends[i].start <= n <= ends[i].end;
      assert ends[i] in ends;
    }
  }

  lemma EndsAreReserved(m: Message, n: int)
    requires forall r | r in m.reservedRanges :: r.start < r.end
    requires IsMessageEnd(m, n)
    ensures MessageReserves(m, n)
  {
    var r :| r in m.reservedRanges && (n == r.start || n == r.end - 1);
    var i :| 0 <= i < |m.reservedRanges| && m.reservedRanges[i] == r;
    assert m.reservedRanges[i].start <= n < m.reservedRanges[i].end;
  }

  lemma EnumEndsAreReserved(e: Enum, n: int)
    requires forall r | r in e.reservedRanges :: r.start <= r.end
    requires IsEnumEnd(e, n)
    ensures EnumReserves(e, n)
  {
    var r :| r in e.reservedRanges && (n == r.start || n == r.end);
    var i :| 0 <= i < |e.reservedRanges| && e.reservedRanges[i] == r;
    assert e.reservedRanges[i].start <= n <= e.reservedRanges[i].end;
  }

  /** The ends of disjoint ranges are disjoint ranges inside them. */
  lemma EndsAreDisjoint(ranges: seq<Range>)
    requires Pairwise(Apart(), ranges) && forall r | r in ranges :: r.start < r.end
    ensures Pairwise(Apart(), FlatMap(MessageEnds, ranges))
  {
    forall x | x in ranges ensures forall p | p in MessageEnds(x) :: x.start <= p.start < p.end <= x.end {}
    forall x, y, p, q | x in ranges && y in ranges && Apart()(x, y) && p in MessageEnds(x) && q in MessageEnds(y)
      ensures Apart()(p, q)
    {}
    PairwiseParts(Apart(), MessageEnds, ranges);
  }

  lemma EndIsInside(ranges: seq<Range>, q: Range)
    requires (forall r | r in ranges :: r.start < r.end) && q in FlatMap(MessageEnds, ranges)
    ensures EndInside(q, ranges)
  {
    FlatMapMember(MessageEnds, ranges, q);
    var r :| r in ranges && q in MessageEnds(r);
    var i :| 0 <= i < |ranges| && ranges[i] == r;
    assert ranges[i].start <= q.start < q.end <= ranges[i].end;
  }

  ghost predicate EndInside(q: Range, ranges: seq<Range>) {
    exists i :: 0 <= i < |ranges| && ranges[i].start <= q.start < q.end <= ranges[i].end
  }

  lemma ShrunkRanges(drop: Drop, fullName: string, files: seq<File>, m: Message)
    requires WellFormedMessage(files, m)
    ensures var ranges := Shrink(drop, fullName, m).reservedRanges;
            Pairwise(Apart(), ranges) && forall r | r in ranges :: 1 <= r.start < r.end <= MAX_FIELD_NUMBER + 1
  {
    var ends := FlatMap(MessageEnds, m.reservedRanges);
    EndsAreDisjoint(m.reservedRanges);
    forall q | q in ends ensures 1 <= q.start < q.end <= MAX_FIELD_NUMBER + 1 {
      EndIsInside(m.reservedRanges, q);
    }
    var g := Dropped(drop, fullName, m);
    if g.Some? {
      var own := Range(g.value.number, g.value.number + 1);
      assert WellFormedField(files, m, g.value);
      forall q | q in ends ensures Apart()(q, own) {
        EndIsInside(m.reservedRanges, q);
      }
      PairwiseAppend(Apart(), ends, [own]);
      assert Shrink(drop, fullName, m).reservedRanges == ends + [own];
    }
  }

  lemma ShrunkMessageWellFormed(drop: Drop, fullName: string, files: seq<File>, m: Message)
    requires WellFormedMessage(files, m)
    ensures WellFormedMessage(ShrinkFiles(drop, files), Shrink(drop, fullName, m))
  {
    var m', files' := Shrink(drop, fullName, m), ShrinkFiles(drop, files);
    ShrunkRanges(drop, fullName, files, m);
    forall f | f in m'.fields ensures WellFormedField(files', m', f) {
      ShrunkFieldWellFormed(drop, fullName, files, m, f);
    }
    var g := Dropped(drop, fullName, m);
    if g.Some? {
      assert WellFormedField(files, m, g.value);
      DistinctAppend(m.reservedNames, [g.value.name]);
    }
  }

  lemma ShrunkFieldWellFormed(drop: Drop, fullName: string, files: seq<File>, m: Message, f: Field)
    requires WellFormedMessage(files, m) && f in Shrink(drop, fullName, m).fields
    ensures WellFormedField(ShrinkFiles(drop, files), Shrink(drop, fullName, m), f)
  {
    assert f in m.fields && WellFormedField(files, m, f);
    ShrunkReserves(drop, fullName, m, f.number);
    if IsMessageEnd(m, f.number) { EndsAreReserved(m, f.number); }
    FindShrunk(drop, files, f.TypeFullName());
  }

  lemma ShrunkEnumWellFormed(e: Enum)
    requires WellFormedEnum(e)
    ensures WellFormedEnum(ShrinkEnum(e))
  {
    forall v | v in e.values ensures !EnumReserves(ShrinkEnum(e), v.number) {
      ShrunkEnumReserves(e, v.number);
      if IsEnumEnd(e, v.number) { EnumEndsAreReserved(e, v.number); }
    }
    forall r | r in ShrinkEnum(e).reservedRanges ensures r.start <= r.end {
      FlatMapMember(EnumEnds, e.reservedRanges, r);
    }
    PairwiseParts(EnumApart(), EnumEnds, e.reservedRanges);
  }

  lemma ShrunkFollowsSyntax(drop: Drop, d: MessageDecl)
    requires FollowsSyntax(d)
    ensures FollowsSyntax(ShrinkDecl(drop)(d))
  {
    var d' := ShrinkDecl(drop)(d);
    forall f | f in d'.message.fields && f.kind.GroupKind? ensures exists i :: DeclaresGroup(d', f, i) {
      assert f in d.message.fields;
      var i :| DeclaresGroup(d, f, i);
      assert d'.message.messages[i].name == d.message.messages[i].name;
      assert DeclaresGroup(d', f, i);
    }
  }

  lemma ShrunkDeclWellFormed(drop: Drop, files: seq<File>, d: MessageDecl)
    requires WellFormed(files) && d in AllMessages(ShrinkFiles(drop, files))
    ensures FindEnum(ShrinkFiles(drop, files), d.fullName).None?
    ensures WellFormedMessage(ShrinkFiles(drop, files), d.message) && FollowsSyntax(d)
  {
    ShrinkAllMessages(drop, files);
    var msgs, msgs' := AllMessages(files), AllMessages(ShrinkFiles(drop, files));
    var i :| 0 <= i < |msgs'| && msgs'[i] == d;
    assert d == ShrinkDecl(drop)(msgs[i]) && msgs[i] in msgs;
    FindShrunk(drop, files, d.fullName);
    ShrunkMessageWellFormed(drop, d.fullName, files, msgs[i].message);
    ShrunkFollowsSyntax(drop, msgs[i]);
  }

  lemma ShrunkEnumDeclWellFormed(drop: Drop, files: seq<File>, d: EnumDecl)
    requires WellFormed(files) && d in AllEnums(ShrinkFiles(drop, files))
    ensures WellFormedEnum(d.enum)
  {
    ShrinkAllEnums(drop, files);
    var enums, enums' := AllEnums(files), AllEnums(ShrinkFiles(drop, files));
    var i :| 0 <= i < |enums'| && enums'[i] == d;
    assert d == ShrinkEnumDecl()(enums[i]) && enums[i] in enums;
    ShrunkEnumWellFormed(enums[i].enum);
  }

  lemma ShrunkWellFormed(drop: Drop, files: seq<File>)
    requires WellFormed(files)
    ensures WellFormed(ShrinkFiles(drop, files))
  {
    var files' := ShrinkFiles(drop, files);
    ShrinkAllMessages(drop, files);
    ShrinkAllEnums(drop, files);
    var msgs, msgs' := AllMessages(files), AllMessages(files');
    var enums, enums' := AllEnums(files), AllEnums(files');
    forall d | d in msgs'
      ensures FindEnum(files', d.fullName).None? && WellFormedMessage(files', d.message) && FollowsSyntax(d)
    {
      ShrunkDeclWellFormed(drop, files, d);
    }
    forall d | d in enums' ensures WellFormedEnum(d.enum) {
      ShrunkEnumDeclWellFormed(drop, files, d);
    }
  }

  lemma ShrunkMessageKept(strict: bool, drop: Drop, fullName: string, files: seq<File>, m: Message)
    requires WellFormedMessage(files, m) && (strict ==> drop.Nothing?)
    ensures MessageKept(strict, Shrink(drop, fullName, m), m)
  {
    var m' := Shrink(drop, fullName, m);
    forall f | f in m.fields ensures FieldKept(strict, m', f) {
      DeclaredFieldIsFound(m.fields, f);
      if drop == DropField(fullName, f.number) {
        ShrunkReserves(drop, fullName, m, f.number);
        assert m'.reservedNames[|m.reservedNames|] == f.name;
      } else {
        assert f in m'.fields;
        DeclaredFieldIsFound(m'.fields, f);
      }
    }
    forall r | r in m.reservedRanges ensures MessageRangeKept(m', r) {
      ShrunkReserves(drop, fullName, m, r.start);
      ShrunkReserves(drop, fullName, m, r.end - 1);
    }
  }

  lemma ShrunkIsAccepted(strict: bool, drop: Drop, files: seq<File>)
    requires WellFormed(files) && (strict ==> drop.Nothing?)
    ensures Compatible(strict, ShrinkFiles(drop, files), files)
  {
    var files' := ShrinkFiles(drop, files);
    forall d | d in AllMessages(files) ensures MessageDeclKept(strict, files', d) {
      DeclaredMessageIsNamed(AllMessages(files), d);
      FindShrunk(drop, files, d.fullName);
      ShrunkMessageKept(strict, drop, d.fullName, files, d.message);
    }
    forall d | d in AllEnums(files) ensures EnumDeclKept(strict, files', d) {
      DeclaredEnumIsNamed(AllEnums(files), d);
      FindShrunk(drop, files, d.fullName);
      forall v | v in d.enum.values ensures ValueKept(strict, ShrinkEnum(d.enum), v) {
        DeclaredValueIsFound(d.enum.values, v);
      }
      forall r | r in d.enum.reservedRanges ensures EnumRangeKept(ShrinkEnum(d.enum), r) {
        ShrunkEnumReserves(d.enum, r.start);
        ShrunkEnumReserves(d.enum, r.end);
      }
    }
  }

  // ---------- the exact condition ----------

  /** Every accepted, well-formed successor of `b` is accepted against `a` too. */
  ghost predicate Inherited(strict: bool, a: seq<File>, b: seq<File>) {
    forall c: seq<File> | WellFormed(c) && Compatible(strict, c, b) :: Compatible(strict, c, a)
  }

  /** The successor that drops a renamed field keeps the old one only if its old name is reserved. */
  lemma DroppedTells(fullName: string, m: Message, f: Field, g: Field)
    requires FieldByNumber(m.fields, f.number) == Some(g)
    requires FieldKept(false, Shrink(DropField(fullName, f.number), fullName, m), f)
    ensures f.name in m.reservedNames + [g.name]
  {
    var m' := Shrink(DropField(fullName, f.number), fullName, m);
    assert m'.fields == WithoutNumber(m.fields, f.number);
    assert FieldByNumber(m'.fields, f.number).None?;
  }

  lemma DropIsAccepted(a: seq<File>, b: seq<File>, d: MessageDecl, e: MessageDecl, n: int)
    requires WellFormed(b) && Inherited(false, a, b) && d in AllMessages(a) && FindMessage(b, d.fullName) == Some(e)
    ensures MessageKept(false, Shrink(DropField(e.fullName, n), e.fullName, e.message), d.message)
  {
    var drop := DropField(e.fullName, n);
    ShrunkWellFormed(drop, b);
    ShrunkIsAccepted(false, drop, b);
    FindShrunk(drop, b, d.fullName);
    assert MessageDeclKept(false, ShrinkFiles(drop, b), d);
  }

  lemma InheritedField(a: seq<File>, b: seq<File>, d: MessageDecl, e: MessageDecl, f: Field)
    requires WellFormed(b) && Inherited(false, a, b)
    requires d in AllMessages(a) && f in d.message.fields && FindMessage(b, d.fullName) == Some(e)
    requires FieldByNumber(e.message.fields, f.number).Some?
    ensures StableField(e.message, f)
  {
    var g := FieldByNumber(e.message.fields, f.number).value;
    if g.name != f.name {
      DropIsAccepted(a, b, d, e, f.number);
      DroppedTells(e.fullName, e.message, f, g);
    }
  }

  lemma InheritedMessage(strict: bool, a: seq<File>, b: seq<File>, d: MessageDecl)
    requires WellFormed(b) && Compatible(strict, b, a) && Inherited(strict, a, b)
    requires d in AllMessages(a)
    ensures StableMessageDecl(strict, b, d)
  {
    var c := ShrinkFiles(Nothing, b);
    ShrunkWellFormed(Nothing, b);
    ShrunkIsAccepted(strict, Nothing, b);
    FindShrunk(Nothing, b, d.fullName);
    assert MessageDeclKept(strict, b, d) && MessageDeclKept(strict, c, d);
    var e := FindMessage(b, d.fullName).value;
    forall r | r in d.message.reservedRanges
      ensures IsMessageEnd(e.message, r.start) && IsMessageEnd(e.message, r.end - 1) {
      assert MessageRangeKept(Shrink(Nothing, e.fullName, e.message), r);
      ShrunkReserves(Nothing, e.fullName, e.message, r.start);
      ShrunkReserves(Nothing, e.fullName, e.message, r.end - 1);
    }
    if !strict {
      forall f | f in d.message.fields ensures StableField(e.message, f) {
        if FieldByNumber(e.message.fields, f.number).Some? {
          InheritedField(a, b, d, e, f);
        } else {
          assert FieldKept(strict, Shrink(Nothing, e.fullName, e.message), f);
          ShrunkReserves(Nothing, e.fullName, e.message, f.number);
        }
      }
    }
  }

  lemma InheritedEnum(strict: bool, a: seq<File>, b: seq<File>, d: EnumDecl)
    requires WellFormed(b) && Compatible(strict, b, a) && Inherited(strict, a, b)
    requires d in AllEnums(a)
    ensures StableEnumDecl(strict, b, d)
  {
    var c := ShrinkFiles(Nothing, b);
    ShrunkWellFormed(Nothing, b);
    ShrunkIsAccepted(strict, Nothing, b);
    FindShrunk(Nothing, b, d.fullName);
    assert EnumDeclKept(strict, b, d) && EnumDeclKept(strict, c, d);
    var e := FindEnum(b, d.fullName).value.enum;
    forall r | r in d.enum.reservedRanges ensures IsEnumEnd(e, r.start) && IsEnumEnd(e, r.end) {
      assert EnumRangeKept(ShrinkEnum(e), r);
      ShrunkEnumReserves(e, r.start);
      ShrunkEnumReserves(e, r.end);
    }
    if !strict {
      forall v | v in d.enum.values && ValueByName(e.values, v.name).None? ensures IsEnumEnd(e, v.number) {
        assert ValueKept(strict, ShrinkEnum(e), v);
        ShrunkEnumReserves(e, v.number);
      }
    }
  }

  /** Acceptance of `b` against `a` carries over to everything later accepted against `b` exactly
      when the two schemas pass the stability check. */
  lemma TransitiveExactly(strict: bool, a: seq<File>, b: seq<File>)
    requires WellFormed(b) && Compatible(strict, b, a)
    ensures Stable(strict, a, b) <==> Inherited(strict, a, b)
  {
    if Stable(strict, a, b) {
      forall c: seq<File> | WellFormed(c) && Compatible(strict, c, b) ensures Compatible(strict, c, a) {
        StableIsEnough(strict, c, b, a);
      }
    }
    if Inherited(strict, a, b) {
      forall d | d in AllMessages(a) ensures StableMessageDecl(strict, b, d) {
        InheritedMessage(strict, a, b, d);
      }
      forall d | d in AllEnums(a) ensures StableEnumDecl(strict, b, d) {
        InheritedEnum(strict, a, b, d);
      }
    }
  }

  // ---------- a condition on the middle schema alone ----------

  /** No reserved range spans more than two numbers. */
  predicate Narrow(files: seq<File>) {
    && (forall d | d in AllMessages(files) :: forall r | r in d.message.reservedRanges :: r.end - r.start <= 2)
    && (forall d | d in AllEnums(files) :: forall r | r in d.enum.reservedRanges :: r.end - r.start <= 1)
  }

  /** A field that `b` carries over keeps its name, or the old name is reserved. */
  predicate NamesKept(a: seq<File>, b: seq<File>) {
    forall d | d in AllMessages(a) ::
      match FindMessage(b, d.fullName)
      case None => true
      case Some(e) => forall f | f in d.message.fields ::
        match FieldByNumber(e.message.fields, f.number)
        case None => true
        case Some(g) => g.name == f.name || f.name in e.message.reservedNames
  }

  lemma NarrowIsStable(strict: bool, a: seq<File>, b: seq<File>)
    requires Compatible(strict, b, a) && Narrow(b) && (strict || NamesKept(a, b))
    ensures Stable(strict, a, b)
  {
    forall d | d in AllMessages(a) ensures StableMessageDecl(strict, b, d) {
      assert MessageDeclKept(strict, b, d);
      var e := FindMessage(b, d.fullName).value;
      assert forall n | MessageReserves(e.message, n) :: IsMessageEnd(e.message, n) by {
        forall n | MessageReserves(e.message, n) ensures IsMessageEnd(e.message, n) {
          var i :| 0 <= i < |e.message.reservedRanges|
              && e.message.reservedRanges[i].start <= n < e.message.reservedRanges[i].end;
          assert e.message.reservedRanges[i] in e.message.reservedRanges;
        }
      }
      forall r | r in d.message.reservedRanges
        ensures IsMessageEnd(e.message, r.start) && IsMessageEnd(e.message, r.end - 1)
      {
        assert MessageRangeKept(e.message, r);
      }
      forall f | f in d.message.fields && !strict ensures StableField(e.message, f) {
        assert FieldKept(strict, e.message, f);
      }
    }
    forall d | d in AllEnums(a) ensures StableEnumDecl(strict, b, d) {
      assert EnumDeclKept(strict, b, d);
      var e := FindEnum(b, d.fullName).value;
      assert forall n | EnumReserves(e.enum, n) :: IsEnumEnd(e.enum, n) by {
        forall n | EnumReserves(e.enum, n) ensures IsEnumEnd(e.enum, n) {
          var i :| 0 <= i < |e.enum.reservedRanges|
              && e.enum.reservedRanges[i].start <= n <= e.enum.reservedRanges[i].end;
          assert e.enum.reservedRanges[i] in e.enum.reservedRanges;
        }
      }
      forall r | r in d.enum.reservedRanges ensures IsEnumEnd(e.enum, r.start) && IsEnumEnd(e.enum, r.end) {
        assert EnumRangeKept(e.enum, r);
      }
      forall v | v in d.enum.values && !strict && ValueByName(e.enum.values, v.name).None?
        ensures IsEnumEnd(e.enum, v.number)
      {
        assert ValueKept(strict, e.enum, v);
      }
    }
  }
}

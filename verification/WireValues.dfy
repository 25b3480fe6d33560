/** What the verdicts mean for data: a typing judgment for decoded message values and a reader that
    skips what its schema does not know. */
module WireValues {
  import opened Descriptors
  import opened Verdicts

  datatype Value =
    | Scalar(kind: Kind, payload: string)
    | EnumNumber(number: int)
    | MessageValue(entries: Entries)
    | GroupValue(entries: Entries)

  /** The entries of a message value in the order they were encoded; a repeated field has several. */
  datatype Entries = Empty | Entry(number: int, value: Value, rest: Entries)

  predicate Carries(es: Entries, n: int) {
    match es
    case Empty => false
    case Entry(m, _, rest) => m == n || Carries(rest, n)
  }

  predicate IsScalarKind(k: Kind) {
    !k.MessageKind? && !k.GroupKind? && !k.EnumKind?
  }

  predicate HasNumber(e: Enum, n: int) {
    exists v | v in e.values :: v.number == n
  }

  // ---------- the typing judgment ----------

  /** `es` is a value of the message `name`: it carries declared fields only, each value has the type
      of its field at every depth, and only repeated fields occur more than once. */
  predicate Typed(files: seq<File>, name: string, es: Entries)
    decreases es, 1
  {
    match FindMessage(files, name)
    case None => false
    case Some(d) => TypedEntries(files, d.message, es)
  }

  predicate TypedEntries(files: seq<File>, m: Message, es: Entries)
    decreases es, 0
  {
    match es
    case Empty => true
    case Entry(n, v, rest) =>
      && TypedEntries(files, m, rest)
      && match FieldByNumber(m.fields, n)
         case None => false
         case Some(f) => TypedValue(files, f, v) && (f.cardinality.Repeated? || !Carries(rest, n))
  }

  predicate TypedValue(files: seq<File>, f: Field, v: Value)
    decreases v, 0
  {
    match v
    case Scalar(k, _) => f.kind == k && IsScalarKind(k)
    case EnumNumber(n) =>
      && f.kind.EnumKind?
      && (match FindEnum(files, f.TypeFullName()) case None => false case Some(e) => HasNumber(e.enum, n))
    case MessageValue(es) => f.kind.MessageKind? && Typed(files, f.TypeFullName(), es)
    case GroupValue(es) => f.kind.GroupKind? && Typed(files, f.TypeFullName(), es)
  }

  predicate GroupFree(es: Entries) {
    match es
    case Empty => true
    case Entry(_, v, rest) => GroupFreeValue(v) && GroupFree(rest)
  }

  predicate GroupFreeValue(v: Value) {
    match v
    case Scalar(_, _) => true
    case EnumNumber(_) => true
    case MessageValue(es) => GroupFree(es)
    case GroupValue(_) => false
  }

  // ---------- backward: old data stays well typed ----------

  /** Every value of the message `before` in `prev` is a value of the message `after` in `current`. */
  ghost predicate AllTyped(current: seq<File>, prev: seq<File>, before: string, after: string) {
    forall es: Entries | Typed(prev, before, es) :: Typed(current, after, es)
  }

  /** The groups that `es` holds under a changed type, at any depth, have the type they changed to:
      the one thing the comparison does not look at. */
  predicate GroupsFollow(current: seq<File>, prev: seq<File>, name: string, es: Entries)
    decreases es, 1
  {
    match (FindMessage(prev, name), FindMessage(current, name))
    case (Some(p), Some(c)) => GroupsFollowIn(current, prev, p.message, c.message, es)
    case _ => false
  }

  predicate GroupsFollowIn(current: seq<File>, prev: seq<File>, p: Message, c: Message, es: Entries)
    decreases es, 0
  {
    match es
    case Empty => true
    case Entry(n, v, rest) =>
      && GroupsFollowIn(current, prev, p, c, rest)
      && match (FieldByNumber(p.fields, n), FieldByNumber(c.fields, n))
         case (Some(f), Some(g)) => GroupFollows(current, prev, f, g, v)
         case _ => false
  }

  predicate GroupFollows(current: seq<File>, prev: seq<File>, f: Field, g: Field, v: Value)
    decreases v, 0
  {
    match v
    case Scalar(_, _) => true
    case EnumNumber(_) => true
    case MessageValue(es) => GroupsFollow(current, prev, f.TypeFullName(), es)
    case GroupValue(es) =>
      if g.TypeFullName() == f.TypeFullName() then GroupsFollow(current, prev, f.TypeFullName(), es)
      else Typed(current, g.TypeFullName(), es)
  }

  /** If `current` is accepted against `prev` in backward mode, a value that is well typed at a message
      of `prev` is well typed at the same message of `current` exactly when its groups follow. */
  lemma {:induction false} OldDataTypedExactly(current: seq<File>, prev: seq<File>, name: string, es: Entries)
    requires WellFormed(prev) && Compatible(true, current, prev) && Typed(prev, name, es)
    ensures Typed(current, name, es) <==> GroupsFollow(current, prev, name, es)
    decreases es, 2
  {
    var d := FindMessage(prev, name).value;
    assert MessageDeclKept(true, current, d);
    OldEntriesTypedExactly(current, prev, d, FindMessage(current, name).value, es);
  }

  lemma {:induction false} OldEntriesTypedExactly(current: seq<File>, prev: seq<File>, d: MessageDecl, c: MessageDecl,
                                                  es: Entries)
    requires WellFormed(prev) && Compatible(true, current, prev)
    requires d in AllMessages(prev) && MessageKept(true, c.message, d.message) && TypedEntries(prev, d.message, es)
    ensures TypedEntries(current, c.message, es) <==> GroupsFollowIn(current, prev, d.message, c.message, es)
    decreases es, 1
  {
    match es
    case Empty =>
    case Entry(n, v, rest) =>
      OldEntriesTypedExactly(current, prev, d, c, rest);
      var f := FieldByNumber(d.message.fields, n).value;
      assert FieldKept(true, c.message, f) && WellFormedMessage(prev, d.message);
      assert WellFormedField(prev, d.message, f);
      OldValueTypedExactly(current, prev, f, FieldByNumber(c.message.fields, n).value, v);
  }

  lemma {:induction false} OldValueTypedExactly(current: seq<File>, prev: seq<File>, f: Field, g: Field, v: Value)
    requires WellFormed(prev) && Compatible(true, current, prev)
    requires FieldMatches(g, f) && TypedValue(prev, f, v)
    ensures TypedValue(current, g, v) <==> GroupFollows(current, prev, f, g, v)
    decreases v, 1
  {
    match v
    case Scalar(_, _) =>
    case EnumNumber(n) =>
      var e := FindEnum(prev, f.TypeFullName()).value;
      assert EnumDeclKept(true, current, e);
      var w :| w in e.enum.values && w.number == n;
      assert ValueKept(true, FindEnum(current, e.fullName).value.enum, w);
    case MessageValue(es) => OldDataTypedExactly(current, prev, f.TypeFullName(), es);
    case GroupValue(es) => OldDataTypedExactly(current, prev, f.TypeFullName(), es);
  }

  /** `field` says what holds of each group field of `prev` and the field that carries its number. */
  ghost predicate EachGroup(current: seq<File>, prev: seq<File>, field: (Field, Field) -> bool) {
    forall d | d in AllMessages(prev) :: forall f | f in d.message.fields && f.kind.GroupKind? ::
      match FindMessage(current, d.fullName)
      case None => true
      case Some(c) =>
        match FieldByNumber(c.message.fields, f.number)
        case None => true
        case Some(g) => field(f, g)
  }

  /** Group fields keep their type name. */
  ghost predicate GroupTypesKept(current: seq<File>, prev: seq<File>) {
    EachGroup(current, prev, (f: Field, g: Field) => g.TypeFullName() == f.TypeFullName())
  }

  /** Group fields change their type only to one that takes all the old values. */
  ghost predicate GroupTypesGrow(current: seq<File>, prev: seq<File>) {
    EachGroup(current, prev, (f: Field, g: Field) =>
      g.TypeFullName() == f.TypeFullName() || AllTyped(current, prev, f.TypeFullName(), g.TypeFullName()))
  }

  lemma {:induction false} DataFollows(current: seq<File>, prev: seq<File>, name: string, es: Entries)
    requires Compatible(true, current, prev) && Typed(prev, name, es)
    requires GroupFree(es) || GroupTypesGrow(current, prev)
    ensures GroupsFollow(current, prev, name, es)
    decreases es, 2
  {
    var d := FindMessage(prev, name).value;
    assert MessageDeclKept(true, current, d);
    EntriesFollow(current, prev, d, FindMessage(current, name).value, es);
  }

  lemma {:induction false} EntriesFollow(current: seq<File>, prev: seq<File>, d: MessageDecl, c: MessageDecl,
                                         es: Entries)
    requires Compatible(true, current, prev)
    requires GroupFree(es) || GroupTypesGrow(current, prev)
    requires d in AllMessages(prev) && FindMessage(current, d.fullName) == Some(c)
    requires MessageKept(true, c.message, d.message) && TypedEntries(prev, d.message, es)
    ensures GroupsFollowIn(current, prev, d.message, c.message, es)
    decreases es, 1
  {
    match es
    case Empty =>
    case Entry(n, v, rest) =>
      EntriesFollow(current, prev, d, c, rest);
      var f := FieldByNumber(d.message.fields, n).value;
      assert FieldKept(true, c.message, f);
      var g := FieldByNumber(c.message.fields, n).value;
      if f.kind.GroupKind? && GroupTypesGrow(current, prev) { GroupGrows(current, prev, d, c, f, g); }
      ValueFollows(current, prev, f, g, v);
  }

  lemma GroupGrows(current: seq<File>, prev: seq<File>, d: MessageDecl, c: MessageDecl, f: Field, g: Field)
    requires GroupTypesGrow(current, prev) && d in AllMessages(prev) && f in d.message.fields && f.kind.GroupKind?
    requires FindMessage(current, d.fullName) == Some(c) && FieldByNumber(c.message.fields, f.number) == Some(g)
    ensures g.TypeFullName() == f.TypeFullName() || AllTyped(current, prev, f.TypeFullName(), g.TypeFullName())
  {}

  lemma {:induction false} ValueFollows(current: seq<File>, prev: seq<File>, f: Field, g: Field, v: Value)
    requires Compatible(true, current, prev) && TypedValue(prev, f, v)
    requires GroupFreeValue(v) || GroupTypesGrow(current, prev)
    requires f.kind.GroupKind? && GroupTypesGrow(current, prev) ==>
               g.TypeFullName() == f.TypeFullName() || AllTyped(current, prev, f.TypeFullName(), g.TypeFullName())
    ensures GroupFollows(current, prev, f, g, v)
    decreases v, 1
  {
    match v
    case Scalar(_, _) =>
    case EnumNumber(_) =>
    case MessageValue(es) => DataFollows(current, prev, f.TypeFullName(), es);
    case GroupValue(es) =>
      if g.TypeFullName() == f.TypeFullName() {
        DataFollows(current, prev, f.TypeFullName(), es);
      }
  }

  /** Backward mode: values without groups stay well typed, at every depth; so do all values if the
      group types are kept. */
  lemma OldDataStaysTyped(current: seq<File>, prev: seq<File>, name: string, es: Entries)
    requires WellFormed(prev) && Compatible(true, current, prev)
    requires GroupFree(es) || GroupTypesKept(current, prev)
    requires Typed(prev, name, es)
    ensures Typed(current, name, es)
  {
    DataFollows(current, prev, name, es);
    OldDataTypedExactly(current, prev, name, es);
  }

  // ---------- required fields ----------

  /** Every required field is carried, at every depth, in messages and groups alike. */
  predicate Initialised(files: seq<File>, name: string, es: Entries)
    decreases es, 1
  {
    match FindMessage(files, name)
    case None => false
    case Some(d) => CarriesRequired(d.message, es) && InitialisedEntries(files, d.message, es)
  }

  predicate CarriesRequired(m: Message, es: Entries) {
    forall f | f in m.fields && f.cardinality.Required? :: Carries(es, f.number)
  }

  predicate InitialisedEntries(files: seq<File>, m: Message, es: Entries)
    decreases es, 0
  {
    match es
    case Empty => true
    case Entry(n, v, rest) =>
      && InitialisedEntries(files, m, rest)
      && match FieldByNumber(m.fields, n)
         case None => true
         case Some(f) => v.MessageValue? || v.GroupValue? ==> Initialised(files, f.TypeFullName(), v.entries)
  }

  /** `current` requires no field of the message that `prev` does not have. */
  predicate GainsNone(p: Message, c: Message) {
    forall f | f in c.fields && f.cardinality.Required? :: FieldByNumber(p.fields, f.number).Some?
  }

  /** No message that the value goes through gained a required field; a group that changed its type is
      initialised in the new one. */
  predicate GainsNoRequired(current: seq<File>, prev: seq<File>, name: string, es: Entries)
    decreases es, 1
  {
    match (FindMessage(current, name), FindMessage(prev, name))
    case (Some(c), Some(p)) => GainsNone(p.message, c.message)
        && GainsNoRequiredIn(current, prev, p.message, c.message, es)
    case _ => false
  }

  predicate GainsNoRequiredIn(current: seq<File>, prev: seq<File>, p: Message, c: Message, es: Entries)
    decreases es, 0
  {
    match es
    case Empty => true
    case Entry(n, v, rest) =>
      && GainsNoRequiredIn(current, prev, p, c, rest)
      && match (FieldByNumber(p.fields, n), FieldByNumber(c.fields, n))
         case (Some(f), Some(g)) => ValueGainsNone(current, prev, f, g, v)
         case _ => false
  }

  predicate ValueGainsNone(current: seq<File>, prev: seq<File>, f: Field, g: Field, v: Value)
    decreases v, 0
  {
    match v
    case Scalar(_, _) => true
    case EnumNumber(_) => true
    case MessageValue(es) => GainsNoRequired(current, prev, f.TypeFullName(), es)
    case GroupValue(es) =>
      if g.TypeFullName() == f.TypeFullName() then GainsNoRequired(current, prev, f.TypeFullName(), es)
      else Initialised(current, g.TypeFullName(), es)
  }

  lemma {:induction false} TypedCarriesKnown(files: seq<File>, m: Message, es: Entries, n: int)
    requires TypedEntries(files, m, es) && Carries(es, n)
    ensures FieldByNumber(m.fields, n).Some?
  {
    if es.number != n {
      TypedCarriesKnown(files, m, es.rest, n);
    }
  }

  /** An old value carries what the new message requires exactly when no required field was gained. */
  lemma RequiredCarried(current: seq<File>, prev: seq<File>, p: MessageDecl, c: MessageDecl, es: Entries)
    requires WellFormed(prev) && WellFormed(current) && p in AllMessages(prev) && c in AllMessages(current)
    requires MessageKept(true, c.message, p.message) && TypedEntries(prev, p.message, es)
             && CarriesRequired(p.message, es)
    ensures CarriesRequired(c.message, es) <==> GainsNone(p.message, c.message)
  {
    assert WellFormedMessage(prev, p.message) && WellFormedMessage(current, c.message);
    forall f | f in c.message.fields && f.cardinality.Required?
      ensures Carries(es, f.number) <==> FieldByNumber(p.message.fields, f.number).Some?
    {
      if Carries(es, f.number) {
        TypedCarriesKnown(prev, p.message, es, f.number);
      }
      var q := FieldByNumber(p.message.fields, f.number);
      if q.Some? {
        assert WellFormedField(prev, p.message, q.value) && FieldKept(true, c.message, q.value);
        DeclaredFieldIsFound(c.message.fields, f);
      }
    }
  }

  /** Added required fields are not reported, so an old value, groups included, stays initialised exactly
      when none of the messages it goes through gained one. */
  lemma {:induction false} OldDataStaysInitialised(current: seq<File>, prev: seq<File>, name: string, es: Entries)
    requires WellFormed(prev) && WellFormed(current) && Compatible(true, current, prev)
    requires Typed(prev, name, es) && Initialised(prev, name, es)
    ensures Initialised(current, name, es) <==> GainsNoRequired(current, prev, name, es)
    decreases es, 1
  {
    var p := FindMessage(prev, name).value;
    assert MessageDeclKept(true, current, p);
    var c := FindMessage(current, name).value;
    OldEntriesStayInitialised(current, prev, p, c, es);
    RequiredCarried(current, prev, p, c, es);
  }

  lemma {:induction false} OldEntriesStayInitialised(current: seq<File>, prev: seq<File>, p: MessageDecl,
                                                     c: MessageDecl, es: Entries)
    requires WellFormed(prev) && WellFormed(current) && Compatible(true, current, prev)
    requires p in AllMessages(prev) && MessageKept(true, c.message, p.message)
    requires TypedEntries(prev, p.message, es) && InitialisedEntries(prev, p.message, es)
    ensures InitialisedEntries(current, c.message, es) <==> GainsNoRequiredIn(current, prev, p.message, c.message, es)
    decreases es, 0
  {
    match es
    case Empty =>
    case Entry(n, v, rest) =>
      OldEntriesStayInitialised(current, prev, p, c, rest);
      var f := FieldByNumber(p.message.fields, n).value;
      assert FieldKept(true, c.message, f);
      var g := FieldByNumber(c.message.fields, n).value;
      if v.MessageValue? || (v.GroupValue? && g.TypeFullName() == f.TypeFullName()) {
        OldDataStaysInitialised(current, prev, f.TypeFullName(), v.entries);
      }
  }

  // ---------- required fields, for all values ----------

  /** Some value of the message is initialised; a message that requires itself has none. */
  ghost predicate Inhabited(files: seq<File>, name: string) {
    exists es: Entries :: Typed(files, name, es) && Initialised(files, name, es)
  }

  /** Messages that have initialised values gained no required field. */
  ghost predicate InhabitedGainNone(current: seq<File>, prev: seq<File>) {
    forall name: string | Inhabited(prev, name) ::
      match (FindMessage(current, name), FindMessage(prev, name))
      case (Some(c), Some(p)) => GainsNone(p.message, c.message)
      case _ => false
  }

  ghost predicate AllStayInitialised(current: seq<File>, prev: seq<File>) {
    forall name: string, es: Entries | Typed(prev, name, es) && Initialised(prev, name, es) ::
        Initialised(current, name, es)
  }

  lemma {:induction false} NothingGained(current: seq<File>, prev: seq<File>, name: string, es: Entries)
    requires Compatible(true, current, prev) && GroupTypesKept(current, prev) && InhabitedGainNone(current, prev)
    requires Typed(prev, name, es) && Initialised(prev, name, es)
    ensures GainsNoRequired(current, prev, name, es)
    decreases es, 1
  {
    assert Inhabited(prev, name);
    var p := FindMessage(prev, name).value;
    assert MessageDeclKept(true, current, p);
    NothingGainedIn(current, prev, p, FindMessage(current, name).value, es);
  }

  lemma {:induction false} NothingGainedIn(current: seq<File>, prev: seq<File>, p: MessageDecl, c: MessageDecl,
                                           es: Entries)
    requires Compatible(true, current, prev) && GroupTypesKept(current, prev) && InhabitedGainNone(current, prev)
    requires p in AllMessages(prev) && FindMessage(current, p.fullName) == Some(c)
             && MessageKept(true, c.message, p.message)
    requires TypedEntries(prev, p.message, es) && InitialisedEntries(prev, p.message, es)
    ensures GainsNoRequiredIn(current, prev, p.message, c.message, es)
    decreases es, 0
  {
    match es
    case Empty =>
    case Entry(n, v, rest) =>
      NothingGainedIn(current, prev, p, c, rest);
      var f := FieldByNumber(p.message.fields, n).value;
      assert FieldKept(true, c.message, f);
      if v.MessageValue? || v.GroupValue? {
        NothingGained(current, prev, f.TypeFullName(), v.entries);
      }
  }

  /** While group types are kept, every initialised old value stays initialised exactly when no message
      that has one gained a required field. */
  lemma AllStayInitialisedExactly(current: seq<File>, prev: seq<File>)
    requires WellFormed(prev) && WellFormed(current) && Compatible(true, current, prev) && GroupTypesKept(current, prev)
    ensures AllStayInitialised(current, prev) <==> InhabitedGainNone(current, prev)
  {
    if InhabitedGainNone(current, prev) {
      forall name: string, es: Entries | Typed(prev, name, es) && Initialised(prev, name, es)
        ensures Initialised(current, name, es) {
        NothingGained(current, prev, name, es);
        OldDataStaysInitialised(current, prev, name, es);
      }
    }
    if AllStayInitialised(current, prev) {
      forall name: string | Inhabited(prev, name)
        ensures FindMessage(current, name).Some? && FindMessage(prev, name).Some?
        ensures GainsNone(FindMessage(prev, name).value.message, FindMessage(current, name).value.message)
      {
        var es: Entries :| Typed(prev, name, es) && Initialised(prev, name, es);
        OldDataStaysInitialised(current, prev, name, es);
      }
    }
  }

  // ---------- reading with another schema ----------

  datatype Outcome = Clash | Skipped | Read(value: Value)

  /** Decodes `es` with the message `m`: numbers it does not declare and enum numbers it does not know
      are skipped, a value of another kind than its field's is a clash. */
  function ReadEntries(files: seq<File>, m: Message, es: Entries): Option<Entries>
    decreases es, 0
  {
    match es
    case Empty => Some(Empty)
    case Entry(n, v, rest) =>
      match ReadEntries(files, m, rest)
      case None => None
      case Some(rest') =>
        match FieldByNumber(m.fields, n)
        case None => Some(rest')
        case Some(f) =>
          match ReadValue(files, f, v)
          case Clash => None
          case Skipped => Some(rest')
          case Read(v') => Some(Entry(n, v', rest'))
  }

  function ReadValue(files: seq<File>, f: Field, v: Value): Outcome
    decreases v, 0
  {
    match v
    case Scalar(k, _) => if f.kind == k && IsScalarKind(k) then Read(v) else Clash
    case EnumNumber(n) =>
      if !f.kind.EnumKind? then Clash
      else (match FindEnum(files, f.TypeFullName())
            case None => Clash
            case Some(e) => if HasNumber(e.enum, n) then Read(v) else Skipped)
    case MessageValue(es) =>
      if !f.kind.MessageKind? then Clash
      else (match ReadAs(files, f.TypeFullName(), es) case None => Clash case Some(es') => Read(MessageValue(es')))
    case GroupValue(es) =>
      if !f.kind.GroupKind? then Clash
      else (match ReadAs(files, f.TypeFullName(), es) case None => Clash case Some(es') => Read(GroupValue(es')))
  }

  function ReadAs(files: seq<File>, name: string, es: Entries): Option<Entries>
    decreases es, 1
  {
    match FindMessage(files, name)
    case None => None
    case Some(d) => ReadEntries(files, d.message, es)
  }

  /** Well-typed data is read back whole. */
  lemma {:induction false} TypedIsReadWhole(files: seq<File>, name: string, es: Entries)
    requires Typed(files, name, es)
    ensures ReadAs(files, name, es) == Some(es)
    decreases es, 1
  {
    TypedEntriesReadWhole(files, FindMessage(files, name).value.message, es);
  }

  lemma {:induction false} TypedEntriesReadWhole(files: seq<File>, m: Message, es: Entries)
    requires TypedEntries(files, m, es)
    ensures ReadEntries(files, m, es) == Some(es)
    decreases es, 0
  {
    match es
    case Empty =>
    case Entry(n, v, rest) =>
      TypedEntriesReadWhole(files, m, rest);
      var f := FieldByNumber(m.fields, n).value;
      if v.MessageValue? || v.GroupValue? {
        TypedIsReadWhole(files, f.TypeFullName(), v.entries);
      }
  }

  /** Backward mode end to end: a reader with the new schema loses nothing of old data. */
  lemma OldDataIsReadWhole(current: seq<File>, prev: seq<File>, name: string, es: Entries)
    requires WellFormed(prev) && Compatible(true, current, prev) && GroupFree(es)
    requires Typed(prev, name, es)
    ensures ReadAs(current, name, es) == Some(es)
  {
    OldDataStaysTyped(current, prev, name, es);
    TypedIsReadWhole(current, name, es);
  }

  // ---------- forward: either side reads the other, skipping only what is new or reserved ----------

  /** The two fields of one number agree on everything a reader looks at. */
  predicate SameShape(f: Field, g: Field) {
    && f.kind == g.kind && f.cardinality == g.cardinality
    && (f.kind.MessageKind? || f.kind.EnumKind? ==> f.TypeFullName() == g.TypeFullName())
  }

  /** Wherever both schemas declare a message, equal numbers mean the same thing, and what `reader`
      refers to it declares. */
  ghost predicate Agree(writer: seq<File>, reader: seq<File>) {
    forall name: string | FindMessage(writer, name).Some? && FindMessage(reader, name).Some? ::
      var w, r := FindMessage(writer, name).value.message, FindMessage(reader, name).value.message;
      forall n: int | FieldByNumber(w.fields, n).Some? && FieldByNumber(r.fields, n).Some? ::
        SameShape(FieldByNumber(w.fields, n).value, FieldByNumber(r.fields, n).value)
  }

  lemma ForwardAgrees(current: seq<File>, prev: seq<File>)
    requires WellFormed(prev) && Compatible(false, current, prev)
    ensures Agree(current, prev) && Agree(prev, current)
  {
    forall name: string | FindMessage(current, name).Some? && FindMessage(prev, name).Some?
      ensures var c, p := FindMessage(current, name).value.message, FindMessage(prev, name).value.message;
              forall n: int | FieldByNumber(c.fields, n).Some? && FieldByNumber(p.fields, n).Some? ::
                SameShape(FieldByNumber(c.fields, n).value, FieldByNumber(p.fields, n).value)
                && SameShape(FieldByNumber(p.fields, n).value, FieldByNumber(c.fields, n).value)
    {
      var d := FindMessage(prev, name).value;
      assert MessageDeclKept(false, current, d) && WellFormedMessage(prev, d.message);
      forall n: int | FieldByNumber(d.message.fields, n).Some?
        ensures FieldKept(false, FindMessage(current, name).value.message, FieldByNumber(d.message.fields, n).value)
        ensures WellFormedField(prev, d.message, FieldByNumber(d.message.fields, n).value)
      {}
    }
  }

  lemma {:induction false} ReadCarriesLess(files: seq<File>, m: Message, es: Entries, n: int)
    requires ReadEntries(files, m, es).Some? && Carries(ReadEntries(files, m, es).value, n)
    ensures Carries(es, n)
  {
    if es.number != n {
      ReadCarriesLess(files, m, es.rest, n);
    }
  }

  /** The types that fields refer to are declared. */
  ghost predicate TypesPresent(files: seq<File>) {
    forall d | d in AllMessages(files) :: forall f | f in d.message.fields ::
      && (f.kind.MessageKind? ==> FindMessage(files, f.TypeFullName()).Some?)
      && (f.kind.EnumKind? ==> FindEnum(files, f.TypeFullName()).Some?)
  }

  lemma RegistryHasTypes(files: seq<File>)
    requires WellFormed(files)
    ensures TypesPresent(files)
  {
    forall d, f | d in AllMessages(files) && f in d.message.fields ensures WellFormedField(files, d.message, f) {
      assert WellFormedMessage(files, d.message);
    }
  }

  /** A reader whose schema agrees with the writer's decodes the writer's data without a clash, and
      what it gets is well typed for it. */
  lemma {:induction false} AgreeingReader(writer: seq<File>, reader: seq<File>, name: string, es: Entries)
    requires TypesPresent(reader) && Agree(writer, reader) && GroupFree(es)
    requires Typed(writer, name, es) && FindMessage(reader, name).Some?
    ensures ReadAs(reader, name, es).Some? && Typed(reader, name, ReadAs(reader, name, es).value)
    decreases es, 1
  {
    AgreeingEntries(writer, reader, name, FindMessage(writer, name).value, FindMessage(reader, name).value, es);
  }

  lemma {:induction false} AgreeingEntries(writer: seq<File>, reader: seq<File>, name: string, w: MessageDecl,
                                           r: MessageDecl, es: Entries)
    requires TypesPresent(reader) && Agree(writer, reader) && GroupFree(es)
    requires FindMessage(writer, name) == Some(w) && FindMessage(reader, name) == Some(r)
    requires TypedEntries(writer, w.message, es)
    ensures var out := ReadEntries(reader, r.message, es);
            out.Some? && TypedEntries(reader, r.message, out.value)
    decreases es, 0
  {
    match es
    case Empty =>
    case Entry(n, v, rest) =>
      AgreeingEntries(writer, reader, name, w, r, rest);
      var f := FieldByNumber(w.message.fields, n).value;
      var found := FieldByNumber(r.message.fields, n);
      if found.Some? {
        var g := found.value;
        assert SameShape(f, g) && r in AllMessages(reader);
        AgreeingValue(writer, reader, f, g, v);
        var rest' := ReadEntries(reader, r.message, rest).value;
        if Carries(rest', n) {
          ReadCarriesLess(reader, r.message, rest, n);
        }
      }
  }

  lemma {:induction false} AgreeingValue(writer: seq<File>, reader: seq<File>, f: Field, g: Field, v: Value)
    requires TypesPresent(reader) && Agree(writer, reader) && GroupFreeValue(v)
    requires SameShape(f, g) && TypedValue(writer, f, v)
    requires g.kind.MessageKind? ==> FindMessage(reader, g.TypeFullName()).Some?
    requires g.kind.EnumKind? ==> FindEnum(reader, g.TypeFullName()).Some?
    ensures var out := ReadValue(reader, g, v);
            !out.Clash? && (out.Read? ==> TypedValue(reader, g, out.value))
    decreases v, 0
  {
    if v.MessageValue? {
      AgreeingReader(writer, reader, f.TypeFullName(), v.entries);
    }
  }

  /** Forward mode, new data at an old reader: no clash, and what is read is well typed for it. */
  lemma NewDataAtOldReader(current: seq<File>, prev: seq<File>, name: string, es: Entries)
    requires WellFormed(prev) && Compatible(false, current, prev) && GroupFree(es)
    requires FindMessage(prev, name).Some? && Typed(current, name, es)
    ensures ReadAs(prev, name, es).Some? && Typed(prev, name, ReadAs(prev, name, es).value)
  {
    ForwardAgrees(current, prev);
    RegistryHasTypes(prev);
    AgreeingReader(current, prev, name, es);
  }

  /** Everything the reader skips in `es` is reserved in its schema: field numbers in the message,
      enum numbers in the enum. */
  predicate SkipsOnlyReserved(files: seq<File>, m: Message, es: Entries)
    decreases es, 0
  {
    match es
    case Empty => true
    case Entry(n, v, rest) =>
      && SkipsOnlyReserved(files, m, rest)
      && match FieldByNumber(m.fields, n)
         case None => MessageReserves(m, n)
         case Some(f) => SkipsOnlyReservedIn(files, f, v)
  }

  predicate SkipsOnlyReservedIn(files: seq<File>, f: Field, v: Value)
    decreases v, 0
  {
    match v
    case Scalar(_, _) => true
    case EnumNumber(n) =>
      (match FindEnum(files, f.TypeFullName())
       case None => false
       case Some(e) => HasNumber(e.enum, n) || EnumReserves(e.enum, n))
    case MessageValue(es) =>
      (match FindMessage(files, f.TypeFullName())
       case None => false
       case Some(d) => SkipsOnlyReserved(files, d.message, es))
    case GroupValue(_) => true
  }

  /** Forward mode, old data at a new reader: no clash, the result is well typed, and everything
      skipped is reserved, so no later field can be mistaken for it. */
  lemma OldDataAtForwardReader(current: seq<File>, prev: seq<File>, name: string, es: Entries)
    requires WellFormed(current) && WellFormed(prev) && Compatible(false, current, prev) && GroupFree(es)
    requires Typed(prev, name, es)
    ensures ReadAs(current, name, es).Some? && Typed(current, name, ReadAs(current, name, es).value)
    ensures SkipsOnlyReserved(current, FindMessage(current, name).value.message, es)
  {
    ForwardAgrees(current, prev);
    var p := FindMessage(prev, name).value;
    assert MessageDeclKept(false, current, p);
    RegistryHasTypes(current);
    AgreeingReader(prev, current, name, es);
    SkippedIsReserved(current, prev, p, FindMessage(current, name).value, es);
  }

  lemma {:induction false} SkippedIsReserved(current: seq<File>, prev: seq<File>, p: MessageDecl, c: MessageDecl,
                                             es: Entries)
    requires WellFormed(prev) && Compatible(false, current, prev) && GroupFree(es)
    requires p in AllMessages(prev) && MessageKept(false, c.message, p.message)
    requires TypedEntries(prev, p.message, es)
    ensures SkipsOnlyReserved(current, c.message, es)
    decreases es, 0
  {
    match es
    case Empty =>
    case Entry(n, v, rest) =>
      SkippedIsReserved(current, prev, p, c, rest);
      var f := FieldByNumber(p.message.fields, n).value;
      assert FieldKept(false, c.message, f);
      var g := FieldByNumber(c.message.fields, n);
      if g.Some? {
        SkippedValueIsReserved(current, prev, f, g.value, v);
      }
  }

  lemma {:induction false} SkippedValueIsReserved(current: seq<File>, prev: seq<File>, f: Field, g: Field, v: Value)
    requires WellFormed(prev) && Compatible(false, current, prev) && GroupFreeValue(v)
    requires FieldMatches(g, f) && TypedValue(prev, f, v)
    ensures SkipsOnlyReservedIn(current, g, v)
    decreases v, 0
  {
    match v
    case Scalar(_, _) =>
    case EnumNumber(k) =>
      var e := FindEnum(prev, f.TypeFullName()).value;
      assert EnumDeclKept(false, current, e);
      var w :| w in e.enum.values && w.number == k;
      assert ValueKept(false, FindEnum(current, e.fullName).value.enum, w);
    case MessageValue(inner) =>
      var d := FindMessage(prev, f.TypeFullName()).value;
      assert MessageDeclKept(false, current, d);
      SkippedIsReserved(current, prev, d, FindMessage(current, d.fullName).value, inner);
  }

  // ---------- one entry ----------

  /** A scalar is typed by a field of its kind; a reader skips it under an unknown number and fails on it
      under a field of another kind. */
  lemma OneScalar(files: seq<File>, d: MessageDecl, n: int, k: Kind, payload: string)
    requires FindMessage(files, d.fullName) == Some(d) && !k.MessageKind? && !k.GroupKind? && !k.EnumKind?
    ensures var es := Entry(n, Scalar(k, payload), Empty);
            match FieldByNumber(d.message.fields, n)
            case None => !Typed(files, d.fullName, es) && ReadAs(files, d.fullName, es) == Some(Empty)
            case Some(f) =>
              && (Typed(files, d.fullName, es) <==> f.kind == k)
              && ReadAs(files, d.fullName, es) == if f.kind == k then Some(es) else None
  {
    var v := Scalar(k, payload);
    SingleEntry(files, d, n, v);
    if f :| FieldByNumber(d.message.fields, n) == Some(f) {
      assert TypedValue(files, f, v) <==> f.kind == k;
      assert ReadValue(files, f, v) == if f.kind == k then Read(v) else Clash;
    }
  }

  lemma SingleEntry(files: seq<File>, d: MessageDecl, n: int, v: Value)
    requires FindMessage(files, d.fullName) == Some(d)
    ensures var es := Entry(n, v, Empty);
            match FieldByNumber(d.message.fields, n)
            case None => !Typed(files, d.fullName, es) && ReadAs(files, d.fullName, es) == Some(Empty)
            case Some(f) =>
              && (Typed(files, d.fullName, es) <==> TypedValue(files, f, v))
              && ReadAs(files, d.fullName, es) == match ReadValue(files, f, v)
                                                  case Clash => None
                                                  case Skipped => Some(Empty)
                                                  case Read(v') => Some(Entry(n, v', Empty))
  {
    var es := Entry(n, v, Empty);
    assert TypedEntries(files, d.message, Empty) && ReadEntries(files, d.message, Empty) == Some(Empty);
    assert Typed(files, d.fullName, es) <==> TypedEntries(files, d.message, es);
    assert ReadAs(files, d.fullName, es) == ReadEntries(files, d.message, es);
  }

  /** Under a field of an enum, a number is typed if the enum has it; a reader skips one that it does not
      have. */
  lemma OneEnumNumber(files: seq<File>, d: MessageDecl, f: Field, e: EnumDecl, number: int)
    requires FindMessage(files, d.fullName) == Some(d) && FieldByNumber(d.message.fields, f.number) == Some(f)
    requires f.kind.EnumKind? && FindEnum(files, f.TypeFullName()) == Some(e)
    ensures var es := Entry(f.number, EnumNumber(number), Empty);
            var known := exists v :: v in e.enum.values && v.number == number;
            && (Typed(files, d.fullName, es) <==> known)
            && ReadAs(files, d.fullName, es) == if known then Some(es) else Some(Empty)
  {
    var v := EnumNumber(number);
    SingleEntry(files, d, f.number, v);
    assert TypedValue(files, f, v) <==> HasNumber(e.enum, number);
    assert ReadValue(files, f, v) == if HasNumber(e.enum, number) then Read(v) else Skipped;
  }

  /** A field that is not repeated occurs at most once. */
  lemma TwoEntries(files: seq<File>, d: MessageDecl, f: Field, v: Value, w: Value)
    requires FindMessage(files, d.fullName) == Some(d) && FieldByNumber(d.message.fields, f.number) == Some(f)
    ensures Typed(files, d.fullName, Entry(f.number, v, Entry(f.number, w, Empty))) <==>
            Typed(files, d.fullName, Entry(f.number, v, Empty)) && Typed(files, d.fullName, Entry(f.number, w, Empty))
            && f.cardinality.Repeated?
  {
    var last := Entry(f.number, w, Empty);
    SingleEntry(files, d, f.number, v);
    SingleEntry(files, d, f.number, w);
    var both := Entry(f.number, v, last);
    assert Typed(files, d.fullName, both) <==> TypedEntries(files, d.message, both);
    assert Typed(files, d.fullName, last) <==> TypedEntries(files, d.message, last);
    assert Carries(last, f.number);
  }
}

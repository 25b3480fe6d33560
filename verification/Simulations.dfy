/** Which schema changes keep all data well typed: those for which a simulation between the messages
    of the two schemas exists. */
module Simulations {
  import opened Descriptors
  import opened Verdicts
  import opened WireValues

  /** Pairs of an old and a new message name. */
  type NamePairs = set<(string, string)>

  predicate EnumGrows(current: seq<File>, prev: seq<File>, f: Field, g: Field) {
    match (FindEnum(prev, f.TypeFullName()), FindEnum(current, g.TypeFullName()))
    case (Some(e), Some(e')) => forall v | v in e.enum.values :: HasNumber(e'.enum, v.number)
    case _ => false
  }

  /** The new field `g` takes what the old field `f` holds, provided the paired messages do. */
  predicate Takes(pairs: NamePairs, current: seq<File>, prev: seq<File>, f: Field, g: Field) {
    && g.kind == f.kind
    && (f.cardinality.Repeated? ==> g.cardinality.Repeated?)
    && (f.kind.EnumKind? ==> EnumGrows(current, prev, f, g))
    && (f.kind.MessageKind? || f.kind.GroupKind? ==> (f.TypeFullName(), g.TypeFullName()) in pairs)
  }

  predicate TakesField(pairs: NamePairs, current: seq<File>, prev: seq<File>, c: Message, f: Field) {
    match FieldByNumber(c.fields, f.number)
    case None => false
    case Some(g) => Takes(pairs, current, prev, f, g)
  }

  predicate TakesMessage(pairs: NamePairs, current: seq<File>, prev: seq<File>, before: string, after: string) {
    match (FindMessage(prev, before), FindMessage(current, after))
    case (Some(p), Some(c)) => forall f | f in p.message.fields :: TakesField(pairs, current, prev, c.message, f)
    case _ => false
  }

  predicate IsSimulation(pairs: NamePairs, current: seq<File>, prev: seq<File>) {
    forall pair | pair in pairs :: TakesMessage(pairs, current, prev, pair.0, pair.1)
  }

  ghost predicate Simulated(current: seq<File>, prev: seq<File>, before: string, after: string) {
    exists pairs: NamePairs :: (before, after) in pairs && IsSimulation(pairs, current, prev)
  }

  // ---------- a simulation carries every value over ----------

  lemma {:induction false} SimulationCarries(pairs: NamePairs, current: seq<File>, prev: seq<File>, before: string,
                                             after: string, es: Entries)
    requires IsSimulation(pairs, current, prev) && (before, after) in pairs && Typed(prev, before, es)
    ensures Typed(current, after, es)
    decreases es, 1
  {
    assert TakesMessage(pairs, current, prev, before, after);
    SimulationCarriesEntries(pairs, current, prev, FindMessage(prev, before).value.message,
                             FindMessage(current, after).value.message, es);
  }

  lemma {:induction false} SimulationCarriesEntries(pairs: NamePairs, current: seq<File>, prev: seq<File>, p: Message,
                                                    c: Message, es: Entries)
    requires IsSimulation(pairs, current, prev)
    requires forall f | f in p.fields :: TakesField(pairs, current, prev, c, f)
    requires TypedEntries(prev, p, es)
    ensures TypedEntries(current, c, es)
    decreases es, 0
  {
    match es
    case Empty =>
    case Entry(n, v, rest) =>
      SimulationCarriesEntries(pairs, current, prev, p, c, rest);
      var f := FieldByNumber(p.fields, n).value;
      assert TakesField(pairs, current, prev, c, f);
      var g := FieldByNumber(c.fields, n).value;
      if v.MessageValue? || v.GroupValue? {
        SimulationCarries(pairs, current, prev, f.TypeFullName(), g.TypeFullName(), v.entries);
      }
  }

  // ---------- if every value is carried over, there is a simulation ----------

  function Names(files: seq<File>): set<string> {
    set d | d in AllMessages(files) :: d.fullName
  }

  /** All pairs of declared names between which every value is carried over. */
  ghost function Largest(current: seq<File>, prev: seq<File>): NamePairs {
    set a, b | a in Names(prev) && b in Names(current) && AllTyped(current, prev, a, b) :: (a, b)
  }

  lemma OneEntry(prev: seq<File>, name: string, p: MessageDecl, f: Field, v: Value)
    requires WellFormed(prev) && FindMessage(prev, name) == Some(p) && f in p.message.fields && TypedValue(prev, f, v)
    ensures Typed(prev, name, Entry(f.number, v, Empty))
    ensures f.cardinality.Repeated? ==> Typed(prev, name, Entry(f.number, v, Entry(f.number, v, Empty)))
  {
    assert WellFormedMessage(prev, p.message);
    DeclaredFieldIsFound(p.message.fields, f);
    assert TypedEntries(prev, p.message, Empty);
    assert TypedEntries(prev, p.message, Entry(f.number, v, Empty));
  }

  /** Every field has a value. */
  lemma SomeValue(prev: seq<File>, p: MessageDecl, f: Field) returns (v: Value)
    requires WellFormed(prev) && p in AllMessages(prev) && f in p.message.fields
    ensures TypedValue(prev, f, v)
  {
    assert WellFormedMessage(prev, p.message) && WellFormedField(prev, p.message, f);
    if f.kind.EnumKind? {
      var e := FindEnum(prev, f.TypeFullName()).value;
      assert WellFormedEnum(e.enum) && e.enum.values[0] in e.enum.values;
      v := EnumNumber(e.enum.values[0].number);
    } else if f.kind.MessageKind? {
      v := MessageValue(Empty);
    } else if f.kind.GroupKind? {
      v := GroupValue(Empty);
    } else {
      v := Scalar(f.kind, "");
    }
  }

  /** What a new message that takes all old values does with one value of one field. */
  lemma TakenValue(current: seq<File>, prev: seq<File>, before: string, after: string, f: Field, v: Value)
    requires WellFormed(prev) && AllTyped(current, prev, before, after) && FindMessage(prev, before).Some?
    requires f in FindMessage(prev, before).value.message.fields && TypedValue(prev, f, v)
    ensures FindMessage(current, after).Some?
    ensures var g := FieldByNumber(FindMessage(current, after).value.message.fields, f.number);
            g.Some? && TypedValue(current, g.value, v) && (f.cardinality.Repeated? ==> g.value.cardinality.Repeated?)
  {
    OneEntry(prev, before, FindMessage(prev, before).value, f, v);
    var one := Entry(f.number, v, Empty);
    assert Typed(current, after, one);
    var c := FindMessage(current, after).value.message;
    assert TypedEntries(current, c, one) && Carries(one, f.number);
    if f.cardinality.Repeated? {
      assert Typed(current, after, Entry(f.number, v, one));
      assert TypedEntries(current, c, Entry(f.number, v, one));
    }
  }

  lemma TakesAll(current: seq<File>, prev: seq<File>, before: string, after: string, f: Field) returns (g: Field)
    requires WellFormed(prev) && AllTyped(current, prev, before, after) && FindMessage(prev, before).Some?
    requires f in FindMessage(prev, before).value.message.fields
    ensures FindMessage(current, after).Some?
    ensures FieldByNumber(FindMessage(current, after).value.message.fields, f.number) == Some(g)
    ensures g.kind == f.kind && (f.cardinality.Repeated? ==> g.cardinality.Repeated?)
    ensures forall v | TypedValue(prev, f, v) :: TypedValue(current, g, v)
  {
    var v := SomeValue(prev, FindMessage(prev, before).value, f);
    TakenValue(current, prev, before, after, f, v);
    g := FieldByNumber(FindMessage(current, after).value.message.fields, f.number).value;
    forall w | TypedValue(prev, f, w) ensures TypedValue(current, g, w) {
      TakenValue(current, prev, before, after, f, w);
    }
  }

  lemma EnumGrowsIfTaken(current: seq<File>, prev: seq<File>, f: Field, g: Field)
    requires f.kind.EnumKind? && FindEnum(prev, f.TypeFullName()).Some?
    requires FindEnum(prev, f.TypeFullName()).value.enum.values != []
    requires forall v | TypedValue(prev, f, v) :: TypedValue(current, g, v)
    ensures EnumGrows(current, prev, f, g)
  {
    var e := FindEnum(prev, f.TypeFullName()).value.enum;
    forall w | w in e.values ensures TypedValue(current, g, EnumNumber(w.number)) {
      assert TypedValue(prev, f, EnumNumber(w.number));
    }
    assert e.values[0] in e.values;
  }

  lemma MessageGrowsIfTaken(current: seq<File>, prev: seq<File>, f: Field, g: Field)
    requires f.kind.MessageKind? || f.kind.GroupKind?
    requires forall v | TypedValue(prev, f, v) :: TypedValue(current, g, v)
    ensures AllTyped(current, prev, f.TypeFullName(), g.TypeFullName())
  {
    forall es: Entries | Typed(prev, f.TypeFullName(), es) ensures Typed(current, g.TypeFullName(), es) {
      var v := if f.kind.MessageKind? then MessageValue(es) else GroupValue(es);
      assert TypedValue(prev, f, v) && TypedValue(current, g, v);
    }
  }

  lemma DeclaredIsNamed(current: seq<File>, prev: seq<File>, before: string, after: string)
    requires FindMessage(prev, before).Some? && AllTyped(current, prev, before, after)
    ensures (before, after) in Largest(current, prev)
  {
    assert Typed(prev, before, Empty);
    assert FindMessage(prev, before).value in AllMessages(prev);
    assert FindMessage(current, after).value in AllMessages(current);
  }

  lemma LargestTakesField(current: seq<File>, prev: seq<File>, before: string, after: string, f: Field)
    requires WellFormed(prev) && AllTyped(current, prev, before, after) && FindMessage(prev, before).Some?
    requires f in FindMessage(prev, before).value.message.fields
    ensures FindMessage(current, after).Some?
    ensures TakesField(Largest(current, prev), current, prev, FindMessage(current, after).value.message, f)
  {
    var g := TakesAll(current, prev, before, after, f);
    var p := FindMessage(prev, before).value;
    assert WellFormedMessage(prev, p.message) && WellFormedField(prev, p.message, f);
    if f.kind.EnumKind? {
      assert WellFormedEnum(FindEnum(prev, f.TypeFullName()).value.enum);
      EnumGrowsIfTaken(current, prev, f, g);
    }
    if f.kind.MessageKind? || f.kind.GroupKind? {
      MessageGrowsIfTaken(current, prev, f, g);
      DeclaredIsNamed(current, prev, f.TypeFullName(), g.TypeFullName());
    }
  }

  lemma LargestIsSimulation(current: seq<File>, prev: seq<File>)
    requires WellFormed(prev)
    ensures IsSimulation(Largest(current, prev), current, prev)
  {
    forall pair | pair in Largest(current, prev)
      ensures TakesMessage(Largest(current, prev), current, prev, pair.0, pair.1) {
      assert AllTyped(current, prev, pair.0, pair.1);
      assert FindMessage(prev, pair.0).Some? && FindMessage(current, pair.1).Some?;
      forall f | f in FindMessage(prev, pair.0).value.message.fields
        ensures TakesField(Largest(current, prev), current, prev, FindMessage(current, pair.1).value.message, f)
      {
        LargestTakesField(current, prev, pair.0, pair.1, f);
      }
    }
  }

  /** For any two schemas: all values of one message are values of another exactly when a simulation
      pairs the two. */
  lemma AllTypedExactly(current: seq<File>, prev: seq<File>, before: string, after: string)
    requires WellFormed(prev) && FindMessage(prev, before).Some?
    ensures AllTyped(current, prev, before, after) <==> Simulated(current, prev, before, after)
  {
    if AllTyped(current, prev, before, after) {
      LargestIsSimulation(current, prev);
      DeclaredIsNamed(current, prev, before, after);
    }
    if pairs: NamePairs :| (before, after) in pairs && IsSimulation(pairs, current, prev) {
      forall es: Entries | Typed(prev, before, es) ensures Typed(current, after, es) {
        SimulationCarries(pairs, current, prev, before, after, es);
      }
    }
  }

  // ---------- backward mode ----------

  /** Each group field's old type is simulated by its new one. */
  ghost predicate GroupsSimulated(current: seq<File>, prev: seq<File>) {
    EachGroup(current, prev, (f: Field, g: Field) => Simulated(current, prev, f.TypeFullName(), g.TypeFullName()))
  }

  /** A schema accepted in backward mode keeps all old data well typed, groups included, exactly when
      each group type is simulated by the type that takes its place. */
  lemma BackwardKeepsAllExactly(current: seq<File>, prev: seq<File>)
    requires WellFormed(prev) && Compatible(true, current, prev)
    ensures (forall name | FindMessage(prev, name).Some? :: AllTyped(current, prev, name, name))
            <==> GroupsSimulated(current, prev)
  {
    if forall name | FindMessage(prev, name).Some? :: AllTyped(current, prev, name, name) {
      forall d, f | d in AllMessages(prev) && f in d.message.fields && f.kind.GroupKind?
        ensures MessageDeclKept(true, current, d) && FieldKept(true, FindMessage(current, d.fullName).value.message, f)
        ensures Simulated(current, prev, f.TypeFullName(),
                          FieldByNumber(FindMessage(current, d.fullName).value.message.fields,
                                        f.number).value.TypeFullName())
      {
        assert MessageDeclKept(true, current, d) && FieldKept(true, FindMessage(current, d.fullName).value.message, f);
        GroupIsSimulated(current, prev, d, f);
      }
    }
    if GroupsSimulated(current, prev) {
      SimulatedGroupsGrow(current, prev);
      forall name, es: Entries | FindMessage(prev, name).Some? && Typed(prev, name, es)
        ensures Typed(current, name, es) {
        DataFollows(current, prev, name, es);
        OldDataTypedExactly(current, prev, name, es);
      }
    }
  }

  lemma GroupIsSimulated(current: seq<File>, prev: seq<File>, d: MessageDecl, f: Field)
    requires WellFormed(prev) && d in AllMessages(prev) && f in d.message.fields && f.kind.GroupKind?
    requires AllTyped(current, prev, d.fullName, d.fullName)
    ensures FindMessage(current, d.fullName).Some?
    ensures var g := FieldByNumber(FindMessage(current, d.fullName).value.message.fields, f.number);
            g.Some? && Simulated(current, prev, f.TypeFullName(), g.value.TypeFullName())
  {
    DeclaredMessageIsNamed(AllMessages(prev), d);
    var g := TakesAll(current, prev, d.fullName, d.fullName, f);
    MessageGrowsIfTaken(current, prev, f, g);
    assert WellFormedMessage(prev, d.message) && WellFormedField(prev, d.message, f);
    AllTypedExactly(current, prev, f.TypeFullName(), g.TypeFullName());
  }

  lemma SimulatedGroupsGrow(current: seq<File>, prev: seq<File>)
    requires WellFormed(prev) && GroupsSimulated(current, prev)
    ensures GroupTypesGrow(current, prev)
  {
    forall d, f | d in AllMessages(prev) && f in d.message.fields && f.kind.GroupKind?
      ensures FindMessage(prev, f.TypeFullName()).Some?
    {
      assert WellFormedMessage(prev, d.message) && WellFormedField(prev, d.message, f);
    }
    forall f: Field, g: Field | FindMessage(prev, f.TypeFullName()).Some?
        && Simulated(current, prev, f.TypeFullName(), g.TypeFullName())
      ensures AllTyped(current, prev, f.TypeFullName(), g.TypeFullName())
    {
      AllTypedExactly(current, prev, f.TypeFullName(), g.TypeFullName());
    }
  }
}

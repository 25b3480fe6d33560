/** The change event: which declarations of the current schema are new or changed, which of their
    fields, and which schemas they impact. */
module ChangeEvents {
  import opened Sequences
  import opened Descriptors
  import opened Graphs
  import opened Lineage
  import opened Impact

  // ---------- changed parts of one declaration ----------

  predicate IsMessageFieldChanged(f: Field, g: Field) {
    f.kind != g.kind || f.name != g.name || f.deprecated != g.deprecated
  }

  predicate IsEnumFieldChanged(f: EnumValue, g: EnumValue) {
    f.name != g.name || f.deprecated != g.deprecated
  }

  /** The last part of that name. */
  function LastNamed<T>(nameOf: T -> string, parts: seq<T>, name: string): (r: Option<T>)
    ensures r.Some? ==> r.value in parts && nameOf(r.value) == name
    ensures r.None? <==> forall p | p in parts :: nameOf(p) != name
  {
    if parts == [] then None
    else if nameOf(parts[|parts| - 1]) == name then Some(parts[|parts| - 1])
    else LastNamed(nameOf, parts[..|parts| - 1], name)
  }

  ghost function NamesOf<T(!new)>(nameOf: T -> string, parts: seq<T>): set<string> {
    set p | p in parts :: nameOf(p)
  }

  /** The names of old parts whose new namesake is a changed part, in the old order; of several parts of
      one name the first old and the last new one count. */
  ghost function ChangedNames<T(!new)>(nameOf: T -> string, changed: (T, T) -> bool, before: seq<T>,
                                       after: seq<T>): seq<string>
  {
    if before == [] then []
    else
      var init, last := before[..|before| - 1], before[|before| - 1];
      var name := nameOf(last);
      ChangedNames(nameOf, changed, init, after)
      + match LastNamed(nameOf, after, name)
        case None => []
        case Some(g) => if name !in NamesOf(nameOf, init) && changed(last, g) then [name] else []
  }

  function Prefixed(prefix: string, names: seq<string>): seq<string> {
    Map((name: string) => prefix + name, names)
  }

  /** `out` lists each of the names once. */
  ghost predicate Lists(out: seq<string>, names: set<string>) {
    Distinct(out) && forall x :: x in out <==> x in names
  }

  lemma NamesSnoc<T(!new)>(nameOf: T -> string, parts: seq<T>, i: nat)
    requires i < |parts|
    ensures NamesOf(nameOf, parts[..i + 1]) == NamesOf(nameOf, parts[..i]) + {nameOf(parts[i])}
  {
    assert parts[..i + 1] == parts[..i] + [parts[i]];
  }

  lemma NamedIff<T(!new)>(nameOf: T -> string, parts: seq<T>, name: string)
    ensures LastNamed(nameOf, parts, name).Some? <==> name in NamesOf(nameOf, parts)
  {}

  /** The parts by name, a later one in place of an earlier one. */
  method ByName<T(!new)>(nameOf: T -> string, parts: seq<T>) returns (byName: map<string, T>)
    ensures byName.Keys == NamesOf(nameOf, parts)
    ensures forall x | x in byName :: LastNamed(nameOf, parts, x) == Some(byName[x])
  {
    byName := map[];
    for i := 0 to |parts|
      invariant byName.Keys == NamesOf(nameOf, parts[..i])
      invariant forall x | x in byName :: LastNamed(nameOf, parts[..i], x) == Some(byName[x])
    {
      assert parts[..i + 1][..i] == parts[..i];
      NamesSnoc(nameOf, parts, i);
      byName := byName[nameOf(parts[i]) := parts[i]];
    }
    assert parts[..|parts|] == parts;
  }

  /** `out` is `start` and then the prefixed names, once each. */
  ghost predicate Appends(out: seq<string>, start: seq<string>, names: set<string>, prefix: string) {
    exists listed :: Lists(listed, names) && out == start + Prefixed(prefix, listed)
  }

  /** Changed parts in the order of the old declaration, then added parts in an arbitrary order. */
  method ChangedParts<T(!new)>(nameOf: T -> string, changed: (T, T) -> bool, before: seq<T>, after: seq<T>,
                               oldPrefix: string, newPrefix: string)
    returns (impacted: seq<string>)
    ensures Appends(impacted, Prefixed(oldPrefix, ChangedNames(nameOf, changed, before, after)),
                    NamesOf(nameOf, after) - NamesOf(nameOf, before), newPrefix)
  {
    var byName := ByName(nameOf, after);
    impacted := [];
    for i := 0 to |before|
      invariant byName.Keys == NamesOf(nameOf, after) - NamesOf(nameOf, before[..i])
      invariant forall x | x in byName :: LastNamed(nameOf, after, x) == Some(byName[x])
      invariant impacted == Prefixed(oldPrefix, ChangedNames(nameOf, changed, before[..i], after))
    {
      var name := nameOf(before[i]);
      ChangedStep(nameOf, changed, before, after, i, oldPrefix);
      NamesSnoc(nameOf, before, i);
      NamedIff(nameOf, after, name);
      if name in byName {
        if changed(before[i], byName[name]) {
          impacted := impacted + [oldPrefix + name];
        }
        byName := byName - {name};
      }
    }
    assert before[..|before|] == before;
    impacted := AppendKeys(impacted, byName.Keys, newPrefix);
  }

  /** One round of that loop. */
  lemma ChangedStep<T(!new)>(nameOf: T -> string, changed: (T, T) -> bool, before: seq<T>, after: seq<T>, i: nat,
                             prefix: string)
    requires i < |before|
    ensures var name, g := nameOf(before[i]), LastNamed(nameOf, after, nameOf(before[i]));
            Prefixed(prefix, ChangedNames(nameOf, changed, before[..i + 1], after))
            == Prefixed(prefix, ChangedNames(nameOf, changed, before[..i], after))
               + if g.Some? && name !in NamesOf(nameOf, before[..i])
                   && changed(before[i], g.value) then [prefix + name] else []
  {
    assert before[..i + 1][..i] == before[..i];
  }

  /** Appends every key, prefixed, in an arbitrary order. */
  method AppendKeys(start: seq<string>, keys: set<string>, prefix: string) returns (out: seq<string>)
    ensures Appends(out, start, keys, prefix)
  {
    out := start;
    ghost var names: seq<string> := [];
    var rest := keys;
    while rest != {}
      invariant rest <= keys && Lists(names, keys - rest)
      invariant out == start + Prefixed(prefix, names)
    {
      var k :| k in rest;
      rest := rest - {k};
      out := out + [prefix + k];
      names := names + [k];
    }
  }

  // ---------- what the changed and added names are ----------

  ghost predicate UniqueBy<T>(nameOf: T -> string, parts: seq<T>) {
    forall i, j | 0 <= i < j < |parts| :: nameOf(parts[i]) != nameOf(parts[j])
  }

  /** A part of the new declaration without an unchanged namesake in the old one. */
  ghost predicate PartImpacted<T(!new)>(nameOf: T -> string, changed: (T, T) -> bool, before: seq<T>, after: seq<T>,
                                        name: string)
  {
    exists g :: g in after && nameOf(g) == name && forall f | f in before && nameOf(f) == name :: changed(f, g)
  }

  /** Whatever the names, none is listed twice. */
  lemma {:induction false} ChangedNamesAreDistinct<T(!new)>(nameOf: T -> string, changed: (T, T) -> bool,
                                                            before: seq<T>, after: seq<T>)
    ensures Distinct(ChangedNames(nameOf, changed, before, after))
    ensures forall x | x in ChangedNames(nameOf, changed, before, after) ::
              x in NamesOf(nameOf, before) && x in NamesOf(nameOf, after)
  {
    if before != [] {
      var init, last := before[..|before| - 1], before[|before| - 1];
      ChangedNamesAreDistinct(nameOf, changed, init, after);
      assert before == init + [last];
    }
  }

  lemma LastChanged<T(!new)>(nameOf: T -> string, changed: (T, T) -> bool, before: seq<T>, after: seq<T>)
      returns (more: seq<string>)
    requires before != []
    ensures more == [] || more == [nameOf(before[|before| - 1])]
    ensures ChangedNames(nameOf, changed, before, after)
         == ChangedNames(nameOf, changed, before[..|before| - 1], after) + more
  {
    var init, last := before[..|before| - 1], before[|before| - 1];
    match LastNamed(nameOf, after, nameOf(last))
    case None => more := [];
    case Some(g) => more := if nameOf(last) !in NamesOf(nameOf, init) && changed(last, g) then [nameOf(last)] else [];
  }

  /** They come in the order of the old parts. */
  lemma {:induction false} ChangedInOrder<T(!new)>(nameOf: T -> string, changed: (T, T) -> bool, before: seq<T>,
                                                   after: seq<T>)
    ensures IsSubsequence(ChangedNames(nameOf, changed, before, after), Map(nameOf, before))
  {
    if before == [] {
      SubsequenceOfOne("");
      assert Map(nameOf, before) == [];
    } else {
      var init, last := before[..|before| - 1], before[|before| - 1];
      var more := LastChanged(nameOf, changed, before, after);
      ChangedInOrder(nameOf, changed, init, after);
      MapSnoc(nameOf, before);
      SubsequenceSnoc(ChangedNames(nameOf, changed, init, after), Map(nameOf, init), more, nameOf(last));
    }
  }

  lemma {:induction false} ChangedNamesUnique<T(!new)>(nameOf: T -> string, changed: (T, T) -> bool, before: seq<T>,
                                                       after: seq<T>, x: string)
    requires UniqueBy(nameOf, before)
    ensures x in ChangedNames(nameOf, changed, before, after) <==>
            exists f :: f in before && nameOf(f) == x && LastNamed(nameOf, after, x).Some?
                && changed(f, LastNamed(nameOf, after, x).value)
  {
    if before != [] {
      var init, last := before[..|before| - 1], before[|before| - 1];
      ChangedNamesUnique(nameOf, changed, init, after, x);
      assert before == init + [last];
    }
  }

  /** With unique names, the changed and the added names together are exactly those of the parts without
      an unchanged namesake. */
  lemma ImpactedExactly<T(!new)>(nameOf: T -> string, changed: (T, T) -> bool, before: seq<T>, after: seq<T>, x: string)
    requires UniqueBy(nameOf, before) && UniqueBy(nameOf, after)
    ensures x in ChangedNames(nameOf, changed, before, after) || x in NamesOf(nameOf, after) - NamesOf(nameOf, before)
            <==> PartImpacted(nameOf, changed, before, after, x)
  {
    ChangedNamesUnique(nameOf, changed, before, after, x);
    var found := LastNamed(nameOf, after, x);
    if found.Some? {
      assert forall h | h in after && nameOf(h) == x :: h == found.value;
      assert forall f, h | f in before && h in before && nameOf(f) == x && nameOf(h) == x :: f == h;
    }
  }

  // ---------- the parts of messages and enums ----------

  function FieldName(): Field -> string {
    (f: Field) => f.name
  }

  function FieldChange(): (Field, Field) -> bool {
    (f: Field, g: Field) => IsMessageFieldChanged(f, g)
  }

  function ValueName(): EnumValue -> string {
    (v: EnumValue) => v.name
  }

  function ValueChange(): (EnumValue, EnumValue) -> bool {
    (v: EnumValue, w: EnumValue) => IsEnumFieldChanged(v, w)
  }

  function MessageName(): Message -> string {
    (m: Message) => m.name
  }

  function EnumName(): Enum -> string {
    (e: Enum) => e.name
  }

  // An absent old declaration has no name, no parts and is not deprecated.
  function OldFields(former: Option<Message>): seq<Field> {
    if former.None? then [] else former.value.fields
  }

  function OldEnums(former: Option<Message>): seq<Enum> {
    if former.None? then [] else former.value.enums
  }

  function OldValues(former: Option<Enum>): seq<EnumValue> {
    if former.None? then [] else former.value.values
  }

  function OldEnumName(former: Option<Enum>): string {
    if former.None? then "" else former.value.name
  }

  /** The names of old enums whose new namesake differs, in the old order and once each. */
  function ChangedEnums(before: seq<Enum>, after: seq<Enum>): seq<string> {
    if before == [] then []
    else
      var found, last := ChangedEnums(before[..|before| - 1], after), before[|before| - 1];
      match LastNamed(EnumName(), after, last.name)
      case None => found
      case Some(e) => if last != e && last.name !in found then found + [last.name] else found
  }

  /** The changed fields, the added fields, and then, changed or not, every enum nested in the message;
      a change of the deprecation flag lists the old message name instead. */
  ghost predicate MessageFieldsListed(former: Option<Message>, m: Message, fields: seq<string>) {
    if (former.Some? && former.value.deprecated) != m.deprecated
    then fields == [if former.None? then "" else former.value.name]
    else exists added, enums :: MessageParts(former, m, fields, added, enums)
  }

  ghost predicate MessageParts(former: Option<Message>, m: Message, fields: seq<string>, added: seq<string>,
                               enums: seq<string>)
  {
    && Lists(added, NamesOf(FieldName(), m.fields) - NamesOf(FieldName(), OldFields(former)))
    && Lists(enums, NamesOf(EnumName(), m.enums)) && ChangedEnums(OldEnums(former), m.enums) <= enums
    && fields == ChangedNames(FieldName(), FieldChange(), OldFields(former), m.fields) + added + enums
  }

  /** The changed values, under the old enum name, and then the added ones, under the new. */
  ghost predicate EnumFieldsListed(former: Option<Enum>, e: Enum, fields: seq<string>) {
    if (former.Some? && former.value.deprecated) != e.deprecated
    then fields == [OldEnumName(former)]
    else exists added :: EnumParts(former, e, fields, added)
  }

  ghost predicate EnumParts(former: Option<Enum>, e: Enum, fields: seq<string>, added: seq<string>) {
    && Lists(added, NamesOf(ValueName(), e.values) - NamesOf(ValueName(), OldValues(former)))
    && fields == Prefixed(OldEnumName(former) + ".",
                          ChangedNames(ValueName(), ValueChange(), OldValues(former), e.values))
                 + Prefixed(e.name + ".", added)
  }

  lemma NoPrefix(names: seq<string>)
    ensures Prefixed("", names) == names
  {
    forall i | 0 <= i < |names| ensures Prefixed("", names)[i] == names[i] {
      assert "" + names[i] == names[i];
    }
  }

  method GetImpactedMessageFields(former: Option<Message>, m: Message) returns (fields: seq<string>)
    ensures MessageFieldsListed(former, m, fields)
  {
    if (former.Some? && former.value.deprecated) != m.deprecated {
      return [if former.None? then "" else former.value.name];
    }
    var changed := ChangedParts(FieldName(), FieldChange(), OldFields(former), m.fields, "", "");
    var enums := GetImpactedEnumsInside(former, m);
    ghost var names := ChangedNames(FieldName(), FieldChange(), OldFields(former), m.fields);
    ghost var added :| Lists(added, NamesOf(FieldName(), m.fields) - NamesOf(FieldName(), OldFields(former)))
                       && changed == Prefixed("", names) + Prefixed("", added);
    NoPrefix(names);
    NoPrefix(added);
    fields := changed + enums;
    assert MessageParts(former, m, fields, added, enums);
  }

  /** Every enum of the new message, once: changed ones first, in the old order, then all that were not
      deleted from the map, in an arbitrary order. */
  method GetImpactedEnumsInside(former: Option<Message>, m: Message) returns (impacted: seq<string>)
    ensures Lists(impacted, NamesOf(EnumName(), m.enums))
    ensures ChangedEnums(OldEnums(former), m.enums) <= impacted
  {
    var byName := ByName(EnumName(), m.enums);
    ghost var all := byName.Keys;
    impacted := [];
    var oldEnums := if former.None? then [] else former.value.enums;
    for i := 0 to |oldEnums|
      invariant byName.Keys <= all && Lists(impacted, all - byName.Keys)
      invariant forall x | x in byName :: LastNamed(EnumName(), m.enums, x) == Some(byName[x])
      invariant impacted == ChangedEnums(oldEnums[..i], m.enums)
    {
      var name := oldEnums[i].name;
      assert oldEnums[..i + 1][..i] == oldEnums[..i];
      NamedIff(EnumName(), m.enums, name);
      if name in byName && oldEnums[i] != byName[name] {
        impacted := impacted + [name];
        byName := byName - {name};
      }
    }
    assert oldEnums[..|oldEnums|] == oldEnums;
    ghost var before := impacted;
    impacted := AppendKeys(impacted, byName.Keys, "");
    ghost var rest :| Lists(rest, byName.Keys) && impacted == before + Prefixed("", rest);
    NoPrefix(rest);
    DistinctAppend(before, rest);
  }

  method GetImpactedEnumFields(former: Option<Enum>, e: Enum) returns (fields: seq<string>)
    ensures EnumFieldsListed(former, e, fields)
  {
    var oldName := if former.None? then "" else former.value.name;
    if (former.Some? && former.value.deprecated) != e.deprecated {
      return [oldName];
    }
    fields := ChangedParts(ValueName(), ValueChange(), OldValues(former), e.values, oldName + ".", e.name + ".");
    ghost var added :| Lists(added, NamesOf(ValueName(), e.values) - NamesOf(ValueName(), OldValues(former)))
                       && fields == Prefixed(oldName + ".", ChangedNames(ValueName(), ValueChange(), OldValues(former),
                           e.values))
                                    + Prefixed(e.name + ".", added);
    assert EnumParts(former, e, fields, added);
  }

  // ---------- what the lists hold beyond the changes ----------

  /** A nested enum of that name is new or changed. */
  ghost predicate EnumImpacted(former: Option<Message>, m: Message, x: string) {
    exists e :: e in m.enums && e.name == x && e !in OldEnums(former)
  }

  ghost predicate NoEnumUnchanged(former: Option<Message>, m: Message) {
    forall e | e in m.enums :: e !in OldEnums(former)
  }

  /** Of the nested enums, only changed and added ones are listed exactly when no other exists. */
  lemma EnumsListedExactly(former: Option<Message>, m: Message, enums: seq<string>)
    requires Lists(enums, NamesOf(EnumName(), m.enums)) && UniqueBy(EnumName(), m.enums)
    ensures (forall x | x in enums :: EnumImpacted(former, m, x)) <==> NoEnumUnchanged(former, m)
  {
    forall e | e in m.enums ensures EnumImpacted(former, m, e.name) <==> e !in OldEnums(former) {
      assert EnumName()(e) == e.name;
    }
    forall e | e in m.enums ensures e.name in enums {
      assert EnumName()(e) in NamesOf(EnumName(), m.enums);
    }
  }

  ghost predicate PartsNamed(former: Option<Message>, m: Message) {
    && "" !in NamesOf(FieldName(), m.fields) && "" !in NamesOf(EnumName(), m.enums)
    && (former.Some? ==> former.value.name != "")
  }

  /** The empty name is listed exactly for a new deprecated message. */
  lemma MessageListsEmptyNameExactly(former: Option<Message>, m: Message, fields: seq<string>)
    requires MessageFieldsListed(former, m, fields) && PartsNamed(former, m)
    ensures "" in fields <==> former.None? && m.deprecated
  {
    if (former.Some? && former.value.deprecated) == m.deprecated {
      var added, enums :| MessageParts(former, m, fields, added, enums);
      ChangedNamesAreDistinct(FieldName(), FieldChange(), OldFields(former), m.fields);
      assert forall x :: x in fields <==>
        x in ChangedNames(FieldName(), FieldChange(), OldFields(former), m.fields) || x in added || x in enums;
    }
  }

  /** Likewise for an enum. */
  lemma EnumListsEmptyNameExactly(former: Option<Enum>, e: Enum, fields: seq<string>)
    requires EnumFieldsListed(former, e, fields) && (former.Some? ==> former.value.name != "")
    ensures "" in fields <==> former.None? && e.deprecated
  {
    if (former.Some? && former.value.deprecated) == e.deprecated {
      var added :| EnumParts(former, e, fields, added);
      assert forall x: string :: |OldEnumName(former) + "." + x| > 0 && |e.name + "." + x| > 0;
    }
  }

  // ---------- what the lists hold, field by field ----------

  /** The two forms of field `x` differ in kind or deprecation. */
  ghost predicate FieldAltered(before: seq<Field>, after: seq<Field>, x: string) {
    exists f, g :: f in before && g in after && f.name == x == g.name
        && (f.kind != g.kind || f.deprecated != g.deprecated)
  }

  ghost predicate FieldAdded(before: seq<Field>, after: seq<Field>, x: string) {
    (exists g :: g in after && g.name == x) && forall f | f in before :: f.name != x
  }

  lemma LastIsTheOne<T(!new)>(nameOf: T -> string, parts: seq<T>, g: T)
    requires UniqueBy(nameOf, parts) && g in parts
    ensures LastNamed(nameOf, parts, nameOf(g)) == Some(g)
  {}

  lemma ChangedFieldsExactly(before: seq<Field>, after: seq<Field>, x: string)
    requires UniqueFieldNames(before) && UniqueFieldNames(after)
    ensures x in ChangedNames(FieldName(), FieldChange(), before, after) <==> FieldAltered(before, after, x)
  {
    ChangedNamesUnique(FieldName(), FieldChange(), before, after, x);
    forall g | g in after ensures LastNamed(FieldName(), after, g.name) == Some(g) {
      LastIsTheOne(FieldName(), after, g);
    }
  }

  lemma AddedFieldsExactly(before: seq<Field>, after: seq<Field>, x: string)
    ensures x in NamesOf(FieldName(), after) - NamesOf(FieldName(), before) <==> FieldAdded(before, after, x)
  {
    assert forall f: Field :: FieldName()(f) == f.name;
  }

  /** What is listed for a message that was there before, with unique field names: its old name alone if its
      deprecation flag changes, and otherwise its fields that changed kind or deprecation, its added
      fields, and its nested enums. */
  lemma FieldsListedExactly(former: Message, m: Message, fields: seq<string>)
    requires MessageFieldsListed(Some(former), m, fields)
    requires UniqueFieldNames(former.fields) && UniqueFieldNames(m.fields)
    ensures former.deprecated != m.deprecated ==> fields == [former.name]
    ensures former.deprecated == m.deprecated ==>
              forall x :: x in fields <==>
                          || FieldAltered(former.fields, m.fields, x)
                          || FieldAdded(former.fields, m.fields, x)
                          || exists e :: e in m.enums && e.name == x
  {
    if former.deprecated == m.deprecated {
      var added, enums :| MessageParts(Some(former), m, fields, added, enums);
      forall x ensures x in fields <==>
                       || FieldAltered(former.fields, m.fields, x)
                       || FieldAdded(former.fields, m.fields, x)
                       || exists e :: e in m.enums && e.name == x
      {
        ChangedFieldsExactly(former.fields, m.fields, x);
        AddedFieldsExactly(former.fields, m.fields, x);
        NestedEnumNames(m.enums, x);
      }
    }
  }

  lemma NestedEnumNames(enums: seq<Enum>, x: string)
    ensures x in NamesOf(EnumName(), enums) <==> exists e :: e in enums && e.name == x
  {
    assert forall e: Enum :: EnumName()(e) == e.name;
  }

  lemma {:induction false} ChangedEnumsInOrder(before: seq<Enum>, after: seq<Enum>)
    ensures IsSubsequence(ChangedEnums(before, after), Map(EnumName(), before))
  {
    if before == [] {
      SubsequenceOfOne("");
      assert Map(EnumName(), before) == [];
    } else {
      var init, last := before[..|before| - 1], before[|before| - 1];
      var found := ChangedEnums(init, after);
      var more := if ChangedEnums(before, after) == found then [] else [last.name];
      ChangedEnumsInOrder(init, after);
      MapSnoc(EnumName(), before);
      SubsequenceSnoc(found, Map(EnumName(), init), more, last.name);
      assert ChangedEnums(before, after) == found + more;
    }
  }

  lemma {:induction false} ChangedEnumsExactly(before: seq<Enum>, after: seq<Enum>, x: string)
    requires UniqueBy(EnumName(), after)
    ensures x in ChangedEnums(before, after) <==> EnumAltered(before, after, x)
  {
    if before != [] {
      var init, last := before[..|before| - 1], before[|before| - 1];
      ChangedEnumsExactly(init, after, x);
      assert before == init + [last];
      forall e | e in after ensures LastNamed(EnumName(), after, e.name) == Some(e) {
        LastIsTheOne(EnumName(), after, e);
      }
    }
  }

  ghost predicate EnumAltered(before: seq<Enum>, after: seq<Enum>, x: string) {
    exists d, e :: d in before && e in after && d.name == x == e.name && d != e
  }

  /** First come the changed fields in their old order, then the added ones, then the nested enums, those
      that changed before the others and in their old order. */
  lemma FieldsInOrder(former: Message, m: Message, fields: seq<string>) returns (changed: seq<string>,
        added: seq<string>, enums: seq<string>, changedEnums: seq<string>)
    requires MessageFieldsListed(Some(former), m, fields) && former.deprecated == m.deprecated
    requires UniqueFieldNames(former.fields) && UniqueFieldNames(m.fields)
    ensures fields == changed + added + enums && Distinct(changed) && Distinct(added) && Distinct(enums)
    ensures IsSubsequence(changed, Map((f: Field) => f.name, former.fields))
    ensures forall x | x in changed :: FieldAltered(former.fields, m.fields, x)
    ensures forall x | x in added :: FieldAdded(former.fields, m.fields, x)
    ensures forall x | x in enums :: exists e :: e in m.enums && e.name == x
    ensures changedEnums <= enums && IsSubsequence(changedEnums, Map((e: Enum) => e.name, former.enums))
    ensures UniqueBy(EnumName(), m.enums) ==>
              forall x :: x in changedEnums <==> EnumAltered(former.enums, m.enums, x)
  {
    added, enums :| MessageParts(Some(former), m, fields, added, enums);
    changed := ChangedNames(FieldName(), FieldChange(), former.fields, m.fields);
    changedEnums := ChangedEnums(former.enums, m.enums);
    ChangedEnumsInOrder(former.enums, m.enums);
    assert Map(EnumName(), former.enums) == Map((e: Enum) => e.name, former.enums);
    if UniqueBy(EnumName(), m.enums) {
      forall x ensures x in changedEnums <==> EnumAltered(former.enums, m.enums, x) {
        ChangedEnumsExactly(former.enums, m.enums, x);
      }
    }
    ChangedInOrder(FieldName(), FieldChange(), former.fields, m.fields);
    ChangedNamesAreDistinct(FieldName(), FieldChange(), former.fields, m.fields);
    assert Map(FieldName(), former.fields) == Map((f: Field) => f.name, former.fields);
    forall x ensures (x in changed ==> FieldAltered(former.fields, m.fields, x))
        && (x in added ==> FieldAdded(former.fields, m.fields, x))
        && (x in enums ==> exists e :: e in m.enums && e.name == x)
    {
      ChangedFieldsExactly(former.fields, m.fields, x);
      AddedFieldsExactly(former.fields, m.fields, x);
      NestedEnumNames(m.enums, x);
    }
  }

  /** Hence, if no enum shares its name, an old field is listed exactly when the new message has it with
      another kind or deprecation; a changed type name, label or number does not count. */
  lemma OldFieldListedExactly(former: Message, m: Message, fields: seq<string>, f: Field)
    requires MessageFieldsListed(Some(former), m, fields) && former.deprecated == m.deprecated
    requires UniqueFieldNames(former.fields) && UniqueFieldNames(m.fields)
    requires f in former.fields && forall e | e in m.enums :: e.name != f.name
    ensures f.name in fields <==>
            exists g :: g in m.fields && g.name == f.name && (g.kind != f.kind || g.deprecated != f.deprecated)
  {
    FieldsListedExactly(former, m, fields);
    assert forall h | h in former.fields && h.name == f.name :: h == f;
  }

  /** The whole list of a message names changed and added parts only, exactly when no nested enum is
      unchanged. */
  lemma ListsOnlyChangesExactly(former: Option<Message>, m: Message, fields: seq<string>)
    requires MessageFieldsListed(former, m, fields) && (former.Some? && former.value.deprecated) == m.deprecated
    requires UniqueFieldNames(OldFields(former)) && UniqueFieldNames(m.fields) && UniqueBy(EnumName(), m.enums)
    requires forall f, e | f in m.fields && e in m.enums :: f.name != e.name
    ensures (forall x | x in fields ::
               || FieldAltered(OldFields(former), m.fields, x)
               || FieldAdded(OldFields(former), m.fields, x)
               || EnumImpacted(former, m, x))
            <==> NoEnumUnchanged(former, m)
  {
    var added, enums :| MessageParts(former, m, fields, added, enums);
    var changed := ChangedNames(FieldName(), FieldChange(), OldFields(former), m.fields);
    EnumsListedExactly(former, m, enums);
    forall x ensures x in changed <==> FieldAltered(OldFields(former), m.fields, x) {
      ChangedFieldsExactly(OldFields(former), m.fields, x);
    }
    forall x ensures x in added <==> FieldAdded(OldFields(former), m.fields, x) {
      AddedFieldsExactly(OldFields(former), m.fields, x);
    }
    forall x | x in enums
      ensures !FieldAltered(OldFields(former), m.fields, x) && !FieldAdded(OldFields(former), m.fields, x)
    {
      NestedEnumNames(m.enums, x);
    }
    assert forall x :: x in fields <==> x in changed || x in added || x in enums;
  }

  /** A new message lists all its fields and nested enums, unless it is deprecated. */
  lemma NewMessageListsAll(m: Message, fields: seq<string>)
    requires MessageFieldsListed(None, m, fields) && !m.deprecated
    ensures forall x :: x in fields <==>
                        (exists g :: g in m.fields && g.name == x) || exists e :: e in m.enums && e.name == x
  {
    var added, enums :| MessageParts(None, m, fields, added, enums);
    forall x ensures x in fields <==>
                     (exists g :: g in m.fields && g.name == x) || exists e :: e in m.enums && e.name == x
    {
      AddedFieldsExactly([], m.fields, x);
      NestedEnumNames(m.enums, x);
    }
  }

  ghost predicate ValueAltered(before: seq<EnumValue>, after: seq<EnumValue>, x: string) {
    exists v, w :: v in before && w in after && v.name == x == w.name && v.deprecated != w.deprecated
  }

  ghost predicate ValueAdded(before: seq<EnumValue>, after: seq<EnumValue>, x: string) {
    (exists w :: w in after && w.name == x) && forall v | v in before :: v.name != x
  }

  lemma ChangedValuesExactly(before: seq<EnumValue>, after: seq<EnumValue>, x: string)
    requires UniqueValueNames(before) && UniqueValueNames(after)
    ensures x in ChangedNames(ValueName(), ValueChange(), before, after) <==> ValueAltered(before, after, x)
    ensures x in NamesOf(ValueName(), after) - NamesOf(ValueName(), before) <==> ValueAdded(before, after, x)
  {
    ChangedNamesUnique(ValueName(), ValueChange(), before, after, x);
    forall w | w in after ensures LastNamed(ValueName(), after, w.name) == Some(w) {
      LastIsTheOne(ValueName(), after, w);
    }
    assert forall v: EnumValue :: ValueName()(v) == v.name;
  }

  lemma PrefixedMember(prefix: string, names: seq<string>, y: string)
    ensures y in Prefixed(prefix, names) <==> exists x :: x in names && y == prefix + x
  {
    if y in Prefixed(prefix, names) {
      var i :| 0 <= i < |names| && Prefixed(prefix, names)[i] == y;
      assert names[i] in names;
    }
    if x :| x in names && y == prefix + x {
      var i :| 0 <= i < |names| && names[i] == x;
      assert Prefixed(prefix, names)[i] == y;
    }
  }

  /** What is listed for an enum that was there before: its old name alone if its deprecation flag
      changes, and otherwise its values that changed deprecation, under the old name, and its added values,
      under the new. A changed number does not count. */
  lemma ValuesListedExactly(former: Enum, e: Enum, fields: seq<string>)
    requires EnumFieldsListed(Some(former), e, fields)
    requires UniqueValueNames(former.values) && UniqueValueNames(e.values)
    ensures former.deprecated != e.deprecated ==> fields == [former.name]
    ensures former.deprecated == e.deprecated ==>
              forall y :: y in fields <==>
                          || (exists x :: ValueAltered(former.values, e.values, x) && y == former.name + "." + x)
                          || exists x :: ValueAdded(former.values, e.values, x) && y == e.name + "." + x
  {
    if former.deprecated == e.deprecated {
      var added :| EnumParts(Some(former), e, fields, added);
      var changed := ChangedNames(ValueName(), ValueChange(), former.values, e.values);
      forall x ensures (x in changed <==> ValueAltered(former.values, e.values, x))
          && (x in added <==> ValueAdded(former.values, e.values, x)) {
        ChangedValuesExactly(former.values, e.values, x);
      }
      forall y ensures y in fields <==>
                       || (exists x :: ValueAltered(former.values, e.values, x) && y == former.name + "." + x)
                       || exists x :: ValueAdded(former.values, e.values, x) && y == e.name + "." + x
      {
        PrefixedMember(former.name + ".", changed, y);
        PrefixedMember(e.name + ".", added, y);
      }
    }
  }

  /** First come the changed values in their old order, then the added ones. */
  lemma ValuesInOrder(former: Enum, e: Enum, fields: seq<string>) returns (changed: seq<string>, added: seq<string>)
    requires EnumFieldsListed(Some(former), e, fields) && former.deprecated == e.deprecated
    requires UniqueValueNames(former.values) && UniqueValueNames(e.values)
    ensures fields == Map((x: string) => former.name + "." + x, changed) + Map((x: string) => e.name + "." + x, added)
    ensures Distinct(changed) && Distinct(added)
    ensures IsSubsequence(changed, Map((v: EnumValue) => v.name, former.values))
    ensures forall x | x in changed :: ValueAltered(former.values, e.values, x)
    ensures forall x | x in added :: ValueAdded(former.values, e.values, x)
  {
    added :| EnumParts(Some(former), e, fields, added);
    changed := ChangedNames(ValueName(), ValueChange(), former.values, e.values);
    ChangedInOrder(ValueName(), ValueChange(), former.values, e.values);
    ChangedNamesAreDistinct(ValueName(), ValueChange(), former.values, e.values);
    assert Map(ValueName(), former.values) == Map((v: EnumValue) => v.name, former.values);
    assert Prefixed(former.name + ".", changed) == Map((x: string) => former.name + "." + x, changed);
    assert Prefixed(e.name + ".", added) == Map((x: string) => e.name + "." + x, added);
    forall x ensures (x in changed ==> ValueAltered(former.values, e.values, x))
        && (x in added ==> ValueAdded(former.values, e.values, x))
    {
      ChangedValuesExactly(former.values, e.values, x);
    }
  }

  /** A new enum lists all its values, unless it is deprecated. */
  lemma NewEnumListsAll(e: Enum, fields: seq<string>)
    requires EnumFieldsListed(None, e, fields) && !e.deprecated
    ensures forall y :: y in fields <==> exists w :: w in e.values && y == e.name + "." + w.name
  {
    var added :| EnumParts(None, e, fields, added);
    assert Prefixed(OldEnumName(None) + ".", ChangedNames(ValueName(), ValueChange(), [], e.values)) == [];
    assert forall v: EnumValue :: ValueName()(v) == v.name;
    forall y ensures y in fields <==> exists w :: w in e.values && y == e.name + "." + w.name {
      PrefixedMember(e.name + ".", added, y);
    }
  }

  // ---------- lookups in the previous descriptor set ----------

  /** A top-level declaration and the package of its file. */
  datatype Top<+T> = Top(package: string, item: T)

  function MessagesOf(): File -> seq<Message> {
    (file: File) => file.messages
  }

  function EnumsOf(): File -> seq<Enum> {
    (file: File) => file.enums
  }

  function TopsOf<T>(itemsOf: File -> seq<T>): File -> seq<Top<T>> {
    (file: File) => Map((x: T) => Top(file.package, x), itemsOf(file))
  }

  function Tops<T>(itemsOf: File -> seq<T>, files: seq<File>): seq<Top<T>> {
    FlatMap(TopsOf(itemsOf), files)
  }

  /** The last declaration of that package and name. */
  function FindTop<T>(nameOf: T -> string, tops: seq<Top<T>>, package: string, name: string): (r: Option<T>)
    ensures r.Some? ==> Top(package, r.value) in tops && nameOf(r.value) == name
    ensures r.None? ==> forall t | t in tops :: t.package != package || nameOf(t.item) != name
  {
    if tops == [] then None
    else
      var last := tops[|tops| - 1];
      if last.package == package && nameOf(last.item) == name then Some(last.item)
      else FindTop(nameOf, tops[..|tops| - 1], package, name)
  }

  /** The first nested enum of that name. */
  function NestedEnum(enums: seq<Enum>, name: string): (r: Option<Enum>)
    ensures r.Some? ==> r.value in enums && r.value.name == name
    ensures r.None? ==> forall e | e in enums :: e.name != name
  {
    if enums == [] then None
    else if enums[0].name == name then Some(enums[0])
    else NestedEnum(enums[1..], name)
  }

  type ByPackage<T> = map<string, map<string, T>>

  function LookUp<T>(m: ByPackage<T>, package: string, name: string): Option<T> {
    if package in m && name in m[package] then Some(m[package][name]) else None
  }

  /** The declarations of one kind, by package and then by name. */
  method GetPackageMap<T>(itemsOf: File -> seq<T>, nameOf: T -> string, files: seq<File>) returns (m: ByPackage<T>)
    ensures forall p, n :: LookUp(m, p, n) == FindTop(nameOf, Tops(itemsOf, files), p, n)
  {
    m := map[];
    for i := 0 to |files|
      invariant forall p, n :: LookUp(m, p, n) == FindTop(nameOf, Tops(itemsOf, files[..i]), p, n)
    {
      m := AddItems(m, files[i].package, itemsOf(files[i]), nameOf, Tops(itemsOf, files[..i]));
      FlatMapSnoc(TopsOf(itemsOf), files, i);
    }
    assert files[..|files|] == files;
  }

  method AddItems<T>(before: ByPackage<T>, package: string, items: seq<T>, nameOf: T -> string, ghost tops: seq<Top<T>>)
    returns (m: ByPackage<T>)
    requires forall p, n :: LookUp(before, p, n) == FindTop(nameOf, tops, p, n)
    ensures forall p, n :: LookUp(m, p, n) == FindTop(nameOf, tops + Map((x: T) => Top(package, x), items), p, n)
  {
    m := before;
    if package !in m {
      m := m[package := map[]];
    }
    ghost var own := Map((x: T) => Top(package, x), items);
    assert tops + own[..0] == tops;
    for j := 0 to |items|
      invariant package in m
      invariant forall p, n :: LookUp(m, p, n) == FindTop(nameOf, tops + own[..j], p, n)
    {
      assert (tops + own[..j + 1])[..|tops| + j] == tops + own[..j];
      m := m[package := m[package][nameOf(items[j]) := items[j]]];
    }
    assert own[..|items|] == own;
  }

  // ---------- which names are listed as updated ----------

  function NestedUpdate(former: Message, messageName: string): Enum -> seq<string> {
    (e: Enum) => if NestedEnum(former.enums, e.name) == Some(e) then [] else [Dotted(messageName, e.name)]
  }

  function MessageUpdate(prev: seq<Top<Message>>, package: string): Message -> seq<string> {
    (m: Message) =>
      var name := Dotted(package, m.name);
      match FindTop(MessageName(), prev, package, m.name)
      case None => [name]
      case Some(former) => (if former != m then [name] else []) + FlatMap(NestedUpdate(former, name), m.enums)
  }

  function EnumUpdate(prev: seq<Top<Enum>>, package: string): Enum -> seq<string> {
    (e: Enum) => if FindTop(EnumName(), prev, package, e.name) == Some(e) then [] else [Dotted(package, e.name)]
  }

  function FileUpdate(prevMessages: seq<Top<Message>>, prevEnums: seq<Top<Enum>>): File -> seq<string> {
    (file: File) =>
      FlatMap(MessageUpdate(prevMessages, file.package), file.messages)
      + FlatMap(EnumUpdate(prevEnums, file.package), file.enums)
  }

  function Updates(prev: seq<File>, current: seq<File>): seq<string> {
    FlatMap(FileUpdate(Tops(MessagesOf(), prev), Tops(EnumsOf(), prev)), current)
  }

  lemma ExistingUpdate(prev: seq<Top<Message>>, package: string, former: Message, m: Message)
    requires FindTop(MessageName(), prev, package, m.name) == Some(former)
    ensures MessageUpdate(prev, package)(m)
         == (if former != m then [Dotted(package, m.name)] else [])
             + FlatMap(NestedUpdate(former, Dotted(package, m.name)), m.enums)
  {}

  /** Where names repeat, a later field, value or top-level declaration replaces an earlier one, and of
      nested enums the first is found. */
  lemma RepeatedNames<T(!new)>(nameOf: T -> string, parts: seq<T>, x: T, tops: seq<Top<T>>, package: string,
                               enums: seq<Enum>, e: Enum)
    ensures LastNamed(nameOf, parts + [x], nameOf(x)) == Some(x)
    ensures FindTop(nameOf, tops + [Top(package, x)], package, nameOf(x)) == Some(x)
    ensures NestedEnum([e] + enums, e.name) == Some(e)
  {}

  // ---------- building the event ----------

  /** The listed fields are those of the declaration the key names. */
  ghost predicate Explained(prev: seq<File>, current: seq<File>, key: string, fields: seq<string>) {
    || (exists p, m :: Top(p, m) in Tops(MessagesOf(), current) && key == Dotted(p, m.name)
          && MessageFieldsListed(FindTop(MessageName(), Tops(MessagesOf(), prev), p, m.name), m, fields))
    || (exists p, e :: Top(p, e) in Tops(EnumsOf(), current) && key == Dotted(p, e.name)
          && EnumFieldsListed(FindTop(EnumName(), Tops(EnumsOf(), prev), p, e.name), e, fields))
    || (exists p, m, e :: Top(p, m) in Tops(MessagesOf(), current) && e in m.enums
          && key == Dotted(Dotted(p, m.name), e.name)
          && var former := FindTop(MessageName(), Tops(MessagesOf(), prev), p, m.name);
             former.Some? && EnumFieldsListed(NestedEnum(former.value.enums, e.name), e, fields))
  }

  ghost predicate AllExplained(prev: seq<File>, current: seq<File>, fields: map<string, seq<string>>) {
    forall k | k in fields :: Explained(prev, current, k, fields[k])
  }

  lemma ExplainsMessage(prev: seq<File>, current: seq<File>, p: string, m: Message, fields: seq<string>)
    requires Top(p, m) in Tops(MessagesOf(), current)
    requires MessageFieldsListed(FindTop(MessageName(), Tops(MessagesOf(), prev), p, m.name), m, fields)
    ensures Explained(prev, current, Dotted(p, m.name), fields)
  {}

  lemma ExplainsEnum(prev: seq<File>, current: seq<File>, p: string, e: Enum, fields: seq<string>)
    requires Top(p, e) in Tops(EnumsOf(), current)
    requires EnumFieldsListed(FindTop(EnumName(), Tops(EnumsOf(), prev), p, e.name), e, fields)
    ensures Explained(prev, current, Dotted(p, e.name), fields)
  {}

  lemma NameIsNew(names: seq<string>, name: string)
    ensures Distinct(names + [name]) ==> Distinct(names) && name !in names
  {
    if Distinct(names + [name]) { DistinctSnoc(names, name); }
  }

  class SchemaChangedEvent {
    var updatedSchemas: seq<string>
    var updatedFields: map<string, seq<string>>
    var impactedSchemas: map<string, seq<string>>

    constructor ()
      ensures updatedSchemas == [] && updatedFields == map[] && impactedSchemas == map[]
    {
      updatedSchemas, updatedFields, impactedSchemas := [], map[], map[];
    }

    /** The field lists belong to the updated schemas, and explain them if none is listed twice. */
    ghost predicate Consistent(prev: seq<File>, current: seq<File>)
      reads this`updatedSchemas, this`updatedFields
    {
      && (forall k :: k in updatedFields <==> k in updatedSchemas)
      && (Distinct(updatedSchemas) ==> AllExplained(prev, current, updatedFields))
    }

    method AddUpdated(name: string, fields: seq<string>, ghost prev: seq<File>, ghost current: seq<File>)
      requires Consistent(prev, current) && Explained(prev, current, name, fields)
      modifies this`updatedSchemas, this`updatedFields
      ensures updatedSchemas == old(updatedSchemas) + [name]
      ensures updatedFields == old(updatedFields)[
                name := (if name in old(updatedFields) then old(updatedFields)[name] else []) + fields]
      ensures Consistent(prev, current)
    {
      NameIsNew(updatedSchemas, name);
      assert [] + fields == fields;
      updatedSchemas := updatedSchemas + [name];
      if name in updatedFields {
        updatedFields := updatedFields[name := updatedFields[name] + fields];
      } else {
        updatedFields := updatedFields[name := fields];
      }
    }

    method CompareNestedEnums(former: Message, m: Message, messageName: string, ghost p: string, ghost prev: seq<File>,
                              ghost current: seq<File>)
      requires Consistent(prev, current) && Top(p, m) in Tops(MessagesOf(), current) && messageName == Dotted(p, m.name)
      requires FindTop(MessageName(), Tops(MessagesOf(), prev), p, m.name) == Some(former)
      modifies this`updatedSchemas, this`updatedFields
      ensures updatedSchemas == old(updatedSchemas) + FlatMap(NestedUpdate(former, messageName), m.enums)
      ensures Consistent(prev, current)
    {
      ghost var start, update := updatedSchemas, NestedUpdate(former, messageName);
      for i := 0 to |m.enums|
        invariant updatedSchemas == start + FlatMap(update, m.enums[..i])
        invariant Consistent(prev, current)
      {
        var e := m.enums[i];
        var earlier := NestedEnum(former.enums, e.name);
        if earlier.None? || earlier.value != e {
          var fields := GetImpactedEnumFields(earlier, e);
          AddUpdated(Dotted(messageName, e.name), fields, prev, current);
        }
        FlatMapStep(update, m.enums, i, start);
      }
      assert m.enums[..|m.enums|] == m.enums;
    }

    method CompareMessage(packageMessageMap: ByPackage<Message>, package: string, m: Message, ghost prev: seq<File>,
                          ghost current: seq<File>)
      requires Consistent(prev, current) && Top(package, m) in Tops(MessagesOf(), current)
      requires forall p, n :: LookUp(packageMessageMap, p, n) == FindTop(MessageName(), Tops(MessagesOf(), prev), p, n)
      modifies this`updatedSchemas, this`updatedFields
      ensures updatedSchemas == old(updatedSchemas) + MessageUpdate(Tops(MessagesOf(), prev), package)(m)
      ensures Consistent(prev, current)
    {
      var messageName := Dotted(package, m.name);
      var earlier := LookUp(packageMessageMap, package, m.name);
      if earlier.None? {
        var fields := GetImpactedMessageFields(earlier, m);
        ExplainsMessage(prev, current, package, m, fields);
        AddUpdated(messageName, fields, prev, current);
        return;
      }
      CompareExisting(earlier.value, package, m, prev, current);
    }

    method AddMessage(former: Message, package: string, m: Message, ghost prev: seq<File>, ghost current: seq<File>)
      requires Consistent(prev, current) && Top(package, m) in Tops(MessagesOf(), current)
      requires FindTop(MessageName(), Tops(MessagesOf(), prev), package, m.name) == Some(former)
      modifies this`updatedSchemas, this`updatedFields
      ensures updatedSchemas == old(updatedSchemas) + [Dotted(package, m.name)]
      ensures Consistent(prev, current)
    {
      var fields := GetImpactedMessageFields(Some(former), m);
      ExplainsMessage(prev, current, package, m, fields);
      AddUpdated(Dotted(package, m.name), fields, prev, current);
    }

    method CompareExisting(former: Message, package: string, m: Message, ghost prev: seq<File>,
                           ghost current: seq<File>)
      requires Consistent(prev, current) && Top(package, m) in Tops(MessagesOf(), current)
      requires FindTop(MessageName(), Tops(MessagesOf(), prev), package, m.name) == Some(former)
      modifies this`updatedSchemas, this`updatedFields
      ensures updatedSchemas == old(updatedSchemas) + MessageUpdate(Tops(MessagesOf(), prev), package)(m)
      ensures Consistent(prev, current)
    {
      ghost var start := updatedSchemas;
      var messageName := Dotted(package, m.name);
      if former != m {
        AddMessage(former, package, m, prev, current);
      }
      CompareNestedEnums(former, m, messageName, package, prev, current);
      ExistingUpdate(Tops(MessagesOf(), prev), package, former, m);
      Assoc(start, if former != m then [messageName] else [], FlatMap(NestedUpdate(former, messageName), m.enums));
    }

    method CompareEnum(packageEnumMap: ByPackage<Enum>, package: string, e: Enum, ghost prev: seq<File>,
                       ghost current: seq<File>)
      requires Consistent(prev, current) && Top(package, e) in Tops(EnumsOf(), current)
      requires forall p, n :: LookUp(packageEnumMap, p, n) == FindTop(EnumName(), Tops(EnumsOf(), prev), p, n)
      modifies this`updatedSchemas, this`updatedFields
      ensures updatedSchemas == old(updatedSchemas) + EnumUpdate(Tops(EnumsOf(), prev), package)(e)
      ensures Consistent(prev, current)
    {
      var earlier := LookUp(packageEnumMap, package, e.name);
      if earlier.None? || earlier.value != e {
        var fields := GetImpactedEnumFields(earlier, e);
        ExplainsEnum(prev, current, package, e, fields);
        AddUpdated(Dotted(package, e.name), fields, prev, current);
      }
    }

    method CompareEnumDescriptors(packageEnumMap: ByPackage<Enum>, fd: File, ghost prev: seq<File>,
                                  ghost current: seq<File>)
      requires Consistent(prev, current) && forall e | e in fd.enums :: Top(fd.package, e) in Tops(EnumsOf(), current)
      requires forall p, n :: LookUp(packageEnumMap, p, n) == FindTop(EnumName(), Tops(EnumsOf(), prev), p, n)
      modifies this`updatedSchemas, this`updatedFields
      ensures updatedSchemas == old(updatedSchemas) + FlatMap(EnumUpdate(Tops(EnumsOf(), prev), fd.package), fd.enums)
      ensures Consistent(prev, current)
    {
      ghost var start, update := updatedSchemas, EnumUpdate(Tops(EnumsOf(), prev), fd.package);
      for i := 0 to |fd.enums|
        invariant updatedSchemas == start + FlatMap(update, fd.enums[..i])
        invariant Consistent(prev, current)
      {
        CompareEnum(packageEnumMap, fd.package, fd.enums[i], prev, current);
        FlatMapStep(update, fd.enums, i, start);
      }
      assert fd.enums[..|fd.enums|] == fd.enums;
    }

    method CompareFile(packageMessageMap: ByPackage<Message>, packageEnumMap: ByPackage<Enum>, fd: File,
                       ghost prev: seq<File>, ghost current: seq<File>)
      requires Consistent(prev, current) && fd in current
      requires forall p, n :: LookUp(packageMessageMap, p, n) == FindTop(MessageName(), Tops(MessagesOf(), prev), p, n)
      requires forall p, n :: LookUp(packageEnumMap, p, n) == FindTop(EnumName(), Tops(EnumsOf(), prev), p, n)
      modifies this`updatedSchemas, this`updatedFields
      ensures updatedSchemas == old(updatedSchemas) + FileUpdate(Tops(MessagesOf(), prev), Tops(EnumsOf(), prev))(fd)
      ensures Consistent(prev, current)
    {
      ghost var start, update := updatedSchemas, MessageUpdate(Tops(MessagesOf(), prev), fd.package);
      for j := 0 to |fd.messages|
        invariant updatedSchemas == start + FlatMap(update, fd.messages[..j])
        invariant Consistent(prev, current)
      {
        TopIsListed(MessagesOf(), current, fd, fd.messages[j]);
        CompareMessage(packageMessageMap, fd.package, fd.messages[j], prev, current);
        FlatMapStep(update, fd.messages, j, start);
      }
      assert fd.messages[..|fd.messages|] == fd.messages;
      forall e | e in fd.enums ensures Top(fd.package, e) in Tops(EnumsOf(), current) {
        TopIsListed(EnumsOf(), current, fd, e);
      }
      CompareEnumDescriptors(packageEnumMap, fd, prev, current);
      Assoc(start, FlatMap(update, fd.messages), FlatMap(EnumUpdate(Tops(EnumsOf(), prev), fd.package), fd.enums));
    }

    /** For each updated schema, the schemas that depend on it. */
    method AppendImpacted(reverse: Graph, depth: int)
      requires impactedSchemas == map[]
      modifies this`impactedSchemas
      ensures forall k :: k in impactedSchemas <==> k in updatedSchemas
      ensures forall k | k in impactedSchemas :: impactedSchemas[k] == Dependents(reverse, k, depth)
    {
      for i := 0 to |updatedSchemas|
        invariant forall k :: k in impactedSchemas <==> k in updatedSchemas[..i]
        invariant forall k | k in impactedSchemas :: impactedSchemas[k] == Dependents(reverse, k, depth)
      {
        var schema := updatedSchemas[i];
        assert updatedSchemas[..i + 1] == updatedSchemas[..i] + [schema];
        var impacted := GetDependentImpactedSchemas(reverse, schema, depth);
        impactedSchemas := impactedSchemas[schema := impacted];
      }
      assert updatedSchemas[..|updatedSchemas|] == updatedSchemas;
    }

    method SetDirectlyImpactedSchemasAndFields(current: seq<File>, prev: seq<File>)
      requires updatedSchemas == [] && updatedFields == map[]
      modifies this`updatedSchemas, this`updatedFields
      ensures updatedSchemas == Updates(prev, current)
      ensures Consistent(prev, current)
    {
      var packageMessageMap := GetPackageMap(MessagesOf(), MessageName(), prev);
      var packageEnumMap := GetPackageMap(EnumsOf(), EnumName(), prev);
      ghost var update := FileUpdate(Tops(MessagesOf(), prev), Tops(EnumsOf(), prev));
      for i := 0 to |current|
        invariant updatedSchemas == FlatMap(update, current[..i])
        invariant Consistent(prev, current)
      {
        CompareFile(packageMessageMap, packageEnumMap, current[i], prev, current);
        FlatMapSnoc(update, current, i);
      }
      assert current[..|current|] == current;
    }
  }

  lemma {:induction false} UpdateStep(f: Enum -> seq<string>, fqn: string, enums: seq<Enum>)
    requires enums != [] && multiset(f(enums[|enums| - 1])) <= multiset([Dotted(fqn, enums[|enums| - 1].name)])
    requires multiset(FlatMap(f, enums[..|enums| - 1])) <= multiset(EnumFqns(fqn, enums[..|enums| - 1]))
    ensures multiset(FlatMap(f, enums)) <= multiset(EnumFqns(fqn, enums))
  {
    var init, e := enums[..|enums| - 1], enums[|enums| - 1];
    assert EnumFqns(fqn, enums) == EnumFqns(fqn, init) + [Dotted(fqn, e.name)];
    AtMostAppend(FlatMap(f, init), f(e), EnumFqns(fqn, init), [Dotted(fqn, e.name)]);
  }

  lemma TopIsListed<T(!new)>(itemsOf: File -> seq<T>, files: seq<File>, fd: File, item: T)
    requires fd in files && item in itemsOf(fd)
    ensures Top(fd.package, item) in Tops(itemsOf, files)
  {
    var i :| 0 <= i < |itemsOf(fd)| && itemsOf(fd)[i] == item;
    assert TopsOf(itemsOf)(fd)[i] == Top(fd.package, item);
    FlatMapMember(TopsOf(itemsOf), files, Top(fd.package, item));
  }

  /** The whole event: the updated schemas with their fields, and for each of them the schemas it
      impacts, each once: those within `depth` references of it, or for a negative depth within 2^31 - 1,
      which is all of them among at most 2^31 names. There is none when the previous bytes are empty or
      either side does not parse. */
  method IdentifySchemaChange(oldIsEmpty: bool, prev: Option<seq<File>>, current: Option<seq<File>>, depth: int)
    returns (sce: SchemaChangedEvent?)
    ensures sce == null <==> oldIsEmpty || prev.None? || current.None?
    ensures sce != null ==>
      && sce.updatedSchemas == Updates(prev.value, current.value)
      && sce.Consistent(prev.value, current.value)
      && (forall k :: k in sce.impactedSchemas <==> k in sce.updatedSchemas)
      && forall k | k in sce.impactedSchemas ::
           ImpactListed(ReverseDependencies(current.value), k, depth, sce.impactedSchemas[k])
  {
    if oldIsEmpty || prev.None? || current.None? {
      return null;
    }
    var event := new SchemaChangedEvent();
    event.SetDirectlyImpactedSchemasAndFields(current.value, prev.value);
    var reverse := GetReverseDependencies(current.value);
    event.AppendImpacted(reverse, if depth < 0 then MAX_INT32 else depth);
    forall k | k in event.impactedSchemas ensures ImpactListed(reverse, k, depth, event.impactedSchemas[k]) {
      ImpactIsListed(reverse, k, depth);
    }
    return event;
  }

  /** The impacted schemas of `root`, nearest first. */
  ghost predicate ImpactListed(g: Graph, root: string, depth: int, impacted: seq<string>) {
    && impacted == Dependents(g, root, if depth < 0 then 2147483647 else depth)
    && Distinct(impacted)
    && (forall x :: x in impacted <==> Within(g, root, x, if depth < 0 then 2147483647 else depth))
    && (depth < 0 && |Nodes(g)| <= 2147483648 ==>
          forall x :: x in impacted <==> exists k: nat :: Reaches(g, root, x, k))
  }

  lemma ImpactIsListed(g: Graph, root: string, depth: int)
    ensures ImpactListed(g, root, depth, Dependents(g, root, if depth < 0 then MAX_INT32 else depth))
  {
    DependentsAreExact(g, root, if depth < 0 then MAX_INT32 else depth);
    if depth < 0 && |Nodes(g)| <= 2147483648 { NegativeDepthIsClosure(g, root); }
  }

  // ---------- what is listed ----------

  ghost predicate HasMessage(files: seq<File>, package: string, m: Message) {
    exists file :: file in files && file.package == package && m in file.messages
  }

  ghost predicate HasEnum(files: seq<File>, package: string, e: Enum) {
    exists file :: file in files && file.package == package && e in file.enums
  }

  lemma TopsAreDeclared(files: seq<File>)
    ensures forall p, m :: Top(p, m) in Tops(MessagesOf(), files) <==> HasMessage(files, p, m)
    ensures forall p, e :: Top(p, e) in Tops(EnumsOf(), files) <==> HasEnum(files, p, e)
  {
    forall p, m ensures Top(p, m) in Tops(MessagesOf(), files) <==> HasMessage(files, p, m) {
      if Top(p, m) in Tops(MessagesOf(), files) {
        var fd := TopIsFrom(MessagesOf(), files, Top(p, m));
      }
      if file :| file in files && file.package == p && m in file.messages {
        TopIsListed(MessagesOf(), files, file, m);
      }
    }
    forall p, e ensures Top(p, e) in Tops(EnumsOf(), files) <==> HasEnum(files, p, e) {
      if Top(p, e) in Tops(EnumsOf(), files) {
        var fd := TopIsFrom(EnumsOf(), files, Top(p, e));
      }
      if file :| file in files && file.package == p && e in file.enums {
        TopIsListed(EnumsOf(), files, file, e);
      }
    }
  }

  lemma TopIsFrom<T(!new)>(itemsOf: File -> seq<T>, files: seq<File>, t: Top<T>) returns (fd: File)
    requires t in Tops(itemsOf, files)
    ensures fd in files && fd.package == t.package && t.item in itemsOf(fd)
  {
    FlatMapMember(TopsOf(itemsOf), files, t);
    fd :| fd in files && t in TopsOf(itemsOf)(fd);
  }

  ghost predicate UniqueNestedEnums(m: Message) {
    forall d, e | d in m.enums && e in m.enums && d.name == e.name :: d == e
  }

  /** No package declares two messages, or two enums, of one name at top level, and no top-level message
      nests two enums of one name. */
  ghost predicate UniqueDeclarations(files: seq<File>) {
    && (forall p, m, n | HasMessage(files, p, m) && HasMessage(files, p, n) && m.name == n.name :: m == n)
    && (forall p, d, e | HasEnum(files, p, d) && HasEnum(files, p, e) && d.name == e.name :: d == e)
    && (forall p, m | HasMessage(files, p, m) :: UniqueNestedEnums(m))
  }

  /** With unique names, the previous form of a declaration is the one of its package and name. */
  lemma FormerExactly(prev: seq<File>, package: string, name: string)
    requires UniqueDeclarations(prev)
    ensures forall m :: FindTop(MessageName(), Tops(MessagesOf(), prev), package, name) == Some(m)
                        <==> HasMessage(prev, package, m) && m.name == name
    ensures forall e :: FindTop(EnumName(), Tops(EnumsOf(), prev), package, name) == Some(e)
                        <==> HasEnum(prev, package, e) && e.name == name
  {
    TopsAreDeclared(prev);
    assert forall m: Message, p: string :: MessageName()(Top(p, m).item) == m.name;
    assert forall e: Enum, p: string :: EnumName()(Top(p, e).item) == e.name;
  }

  lemma NestedFormerExactly(former: Message, name: string, e: Enum)
    requires UniqueNestedEnums(former)
    ensures NestedEnum(former.enums, name) == Some(e) <==> e in former.enums && e.name == name
  {}

  /** The message is not in the previous schema as it is, or it nests an enum that its previous form
      does not have as it is. */
  ghost predicate MessageListed(prev: seq<File>, package: string, m: Message, x: string) {
    || (!HasMessage(prev, package, m) && x == package + "." + m.name)
    || (exists former, e :: HasMessage(prev, package, former) && former.name == m.name
          && e in m.enums && e !in former.enums && x == package + "." + m.name + "." + e.name)
  }

  ghost predicate IsUpdated(prev: seq<File>, current: seq<File>, x: string) {
    || (exists p, m :: HasMessage(current, p, m) && MessageListed(prev, p, m, x))
    || (exists p, e :: HasEnum(current, p, e) && !HasEnum(prev, p, e) && x == p + "." + e.name)
  }

  lemma NestedUpdateExactly(former: Message, name: string, enums: seq<Enum>, x: string)
    requires UniqueNestedEnums(former)
    ensures x in FlatMap(NestedUpdate(former, name), enums) <==>
            exists e :: e in enums && e !in former.enums && x == name + "." + e.name
  {
    FlatMapMember(NestedUpdate(former, name), enums, x);
    forall e | e in enums
      ensures NestedEnum(former.enums, e.name) == Some(e) <==> e in former.enums
    {
      NestedFormerExactly(former, e.name, e);
    }
  }

  lemma MessageUpdateExactly(prev: seq<File>, package: string, m: Message, x: string)
    requires UniqueDeclarations(prev)
    ensures x in MessageUpdate(Tops(MessagesOf(), prev), package)(m) <==> MessageListed(prev, package, m, x)
  {
    var found := FindTop(MessageName(), Tops(MessagesOf(), prev), package, m.name);
    var name := Dotted(package, m.name);
    FormerExactly(prev, package, m.name);
    if found.Some? {
      var former := found.value;
      assert HasMessage(prev, package, former);
      NestedUpdateExactly(former, name, m.enums, x);
      ExistingUpdate(Tops(MessagesOf(), prev), package, former, m);
      assert forall n | HasMessage(prev, package, n) && n.name == m.name :: n == former;
    } else {
      assert forall n | HasMessage(prev, package, n) && n.name == m.name :: found == Some(n);
    }
  }

  lemma EnumUpdateExactly(prev: seq<File>, package: string, e: Enum, x: string)
    requires UniqueDeclarations(prev)
    ensures x in EnumUpdate(Tops(EnumsOf(), prev), package)(e) <==>
            !HasEnum(prev, package, e) && x == package + "." + e.name
  {
    FormerExactly(prev, package, e.name);
  }

  /** With unique names, exactly the declarations that are new or unequal to their previous form are
      listed: top-level messages and enums, and enums nested directly in messages that existed. */
  lemma UpdatedExactly(prev: seq<File>, current: seq<File>, x: string)
    requires UniqueDeclarations(prev)
    ensures x in Updates(prev, current) <==> IsUpdated(prev, current, x)
  {
    var messages, enums := Tops(MessagesOf(), prev), Tops(EnumsOf(), prev);
    FlatMapMember(FileUpdate(messages, enums), current, x);
    forall fd | fd in current ensures x in FileUpdate(messages, enums)(fd) <==> FileListed(prev, fd, x) {
      FileUpdateExactly(prev, fd, x);
    }
    SomeFileLists(prev, current, x);
  }

  lemma SomeFileLists(prev: seq<File>, current: seq<File>, x: string)
    ensures (exists fd :: fd in current && FileListed(prev, fd, x)) <==> IsUpdated(prev, current, x)
  {
    if fd :| fd in current && FileListed(prev, fd, x) {
      assert forall m | m in fd.messages :: HasMessage(current, fd.package, m);
      assert forall e | e in fd.enums :: HasEnum(current, fd.package, e);
    }
  }

  /** A declaration of this file is listed under the name `x`. */
  ghost predicate FileListed(prev: seq<File>, fd: File, x: string) {
    || (exists m :: m in fd.messages && MessageListed(prev, fd.package, m, x))
    || (exists e :: e in fd.enums && !HasEnum(prev, fd.package, e) && x == fd.package + "." + e.name)
  }

  lemma FileUpdateExactly(prev: seq<File>, fd: File, x: string)
    requires UniqueDeclarations(prev)
    ensures x in FileUpdate(Tops(MessagesOf(), prev), Tops(EnumsOf(), prev))(fd) <==> FileListed(prev, fd, x)
  {
    var messages, enums := Tops(MessagesOf(), prev), Tops(EnumsOf(), prev);
    FlatMapMember(MessageUpdate(messages, fd.package), fd.messages, x);
    FlatMapMember(EnumUpdate(enums, fd.package), fd.enums, x);
    forall m | m in fd.messages
      ensures x in MessageUpdate(messages, fd.package)(m) <==> MessageListed(prev, fd.package, m, x)
    {
      MessageUpdateExactly(prev, fd.package, m, x);
    }
    forall e | e in fd.enums
      ensures x in EnumUpdate(enums, fd.package)(e) <==> !HasEnum(prev, fd.package, e) && x == fd.package + "." + e.name
    {
      EnumUpdateExactly(prev, fd.package, e, x);
    }
  }

  /** Comparing a schema with itself lists nothing. */
  lemma IdenticalSchemasGiveEmptyEvent(files: seq<File>)
    requires UniqueDeclarations(files)
    ensures Updates(files, files) == []
  {
    if Updates(files, files) != [] {
      var x := Updates(files, files)[0];
      UpdatedExactly(files, files, x);
      NothingDiffers(files, x);
    }
  }

  lemma NothingDiffers(files: seq<File>, x: string)
    requires UniqueDeclarations(files)
    ensures !IsUpdated(files, files, x)
  {
    forall p, m | HasMessage(files, p, m) ensures !MessageListed(files, p, m, x) {
      assert forall former | HasMessage(files, p, former) && former.name == m.name :: former == m;
    }
  }

  // ---------- the order of the list ----------

  /** A top-level message, then the enums nested in it. */
  function MessageNames(package: string): Message -> seq<string> {
    (m: Message) => [package + "." + m.name] + Map((e: Enum) => package + "." + m.name + "." + e.name, m.enums)
  }

  /** The messages of a file with their nested enums, then its enums. */
  function DeclaredNames(file: File): seq<string> {
    FlatMap(MessageNames(file.package), file.messages) + Map((e: Enum) => file.package + "." + e.name, file.enums)
  }

  lemma {:induction false} EnumsInOrder(update: Enum -> seq<string>, name: Enum -> string, enums: seq<Enum>)
    requires forall e | e in enums :: update(e) == [] || update(e) == [name(e)]
    ensures IsSubsequence(FlatMap(update, enums), Map(name, enums))
  {
    if enums == [] {
      SubsequenceOfOne("");
      assert FlatMap(update, enums) == [] && Map(name, enums) == [];
    } else {
      var init, last := enums[..|enums| - 1], enums[|enums| - 1];
      EnumsInOrder(update, name, init);
      MapSnoc(name, enums);
      SubsequenceSnoc(FlatMap(update, init), Map(name, init), update(last), name(last));
    }
  }

  lemma MessageInOrder(prev: seq<Top<Message>>, package: string, m: Message)
    ensures IsSubsequence(MessageUpdate(prev, package)(m), MessageNames(package)(m))
  {
    var name := package + "." + m.name;
    var nested := Map((e: Enum) => package + "." + m.name + "." + e.name, m.enums);
    SubsequenceOfOne(name);
    match FindTop(MessageName(), prev, package, m.name)
    case None =>
      assert IsEmbedding([], [], nested);
      SubsequenceAppend([name], [name], [], nested);
      assert [name] + [] == [name];
    case Some(former) =>
      EnumsInOrder(NestedUpdate(former, name), (e: Enum) => package + "." + m.name + "." + e.name, m.enums);
      SubsequenceAppend(if former != m then [name] else [], [name], FlatMap(NestedUpdate(former, name), m.enums),
                        nested);
  }

  /** The updated names come in the order in which the current schema declares them. */
  lemma UpdatedInOrder(prev: seq<File>, current: seq<File>)
    ensures IsSubsequence(Updates(prev, current), FlatMap(DeclaredNames, current))
  {
    var messages, enums := Tops(MessagesOf(), prev), Tops(EnumsOf(), prev);
    forall file | file in current ensures IsSubsequence(FileUpdate(messages, enums)(file), DeclaredNames(file)) {
      var package := file.package;
      forall m | m in file.messages
        ensures IsSubsequence(MessageUpdate(messages, package)(m), MessageNames(package)(m))
      {
        MessageInOrder(messages, package, m);
      }
      FlatMapSubsequence(MessageUpdate(messages, package), MessageNames(package), file.messages);
      EnumsInOrder(EnumUpdate(enums, package), (e: Enum) => package + "." + e.name, file.enums);
      SubsequenceAppend(FlatMap(MessageUpdate(messages, package), file.messages),
                        FlatMap(MessageNames(package), file.messages),
                        FlatMap(EnumUpdate(enums, package), file.enums),
                        Map((e: Enum) => package + "." + e.name, file.enums));
    }
    FlatMapSubsequence(FileUpdate(messages, enums), DeclaredNames, current);
  }

  // ---------- nothing is listed twice ----------

  lemma MessageUpdateAtMost(prev: seq<Top<Message>>, package: string, m: Message)
    ensures var fqn := Dotted(package, m.name);
            multiset(MessageUpdate(prev, package)(m)) <= multiset([fqn] + EnumFqns(fqn, m.enums))
  {
    var fqn := Dotted(package, m.name);
    var found := FindTop(MessageName(), prev, package, m.name);
    if found.Some? {
      var former := found.value;
      NestedUpdateAtMost(former, fqn, m.enums);
    }
  }

  lemma {:induction false} NestedUpdateAtMost(former: Message, fqn: string, enums: seq<Enum>)
    ensures multiset(FlatMap(NestedUpdate(former, fqn), enums)) <= multiset(EnumFqns(fqn, enums))
  {
    if enums != [] {
      var init, e := enums[..|enums| - 1], enums[|enums| - 1];
      NestedUpdateAtMost(former, fqn, init);
      UpdateStep(NestedUpdate(former, fqn), fqn, enums);
    }
  }

  lemma {:induction false} EnumUpdateAtMost(prev: seq<Top<Enum>>, package: string, enums: seq<Enum>)
    ensures multiset(FlatMap(EnumUpdate(prev, package), enums)) <= multiset(EnumFqns(package, enums))
  {
    if enums != [] {
      var init, e := enums[..|enums| - 1], enums[|enums| - 1];
      EnumUpdateAtMost(prev, package, init);
      UpdateStep(EnumUpdate(prev, package), package, enums);
    }
  }

  lemma {:induction false} MessagesUpdateAtMost(prev: seq<Top<Message>>, package: string, msgs: seq<Message>)
    ensures multiset(FlatMap(MessageUpdate(prev, package), msgs)) <= multiset(FqnsIn(package, msgs))
  {
    if msgs != [] {
      var init, m := msgs[..|msgs| - 1], msgs[|msgs| - 1];
      var fqn := Dotted(package, m.name);
      MessagesUpdateAtMost(prev, package, init);
      MessageUpdateAtMost(prev, package, m);
      assert FqnsIn(package, msgs) == FqnsIn(package, init)
             + ([fqn] + EnumFqns(fqn, m.enums) + FqnsIn(fqn, m.messages));
    }
  }

  /** With unique full names in the current schema nothing is listed twice, so each updated name is
      listed exactly once and its field list is that of its own declaration. */
  lemma UpdatedOnce(prev: seq<File>, current: seq<File>)
    requires Distinct(AllFqns(current))
    ensures Distinct(Updates(prev, current))
  {
    var update := FileUpdate(Tops(MessagesOf(), prev), Tops(EnumsOf(), prev));
    forall file | file in current
      ensures multiset(update(file)) <= multiset(FileFqns(file))
    {
      MessagesUpdateAtMost(Tops(MessagesOf(), prev), file.package, file.messages);
      EnumUpdateAtMost(Tops(EnumsOf(), prev), file.package, file.enums);
    }
    FlatMapAtMost(update, FileFqns, current);
    forall x | x in Updates(prev, current) ensures multiset(Updates(prev, current))[x] <= 1 {
      DistinctCount(AllFqns(current), x);
    }
    CountsAreDistinct(Updates(prev, current));
  }
}

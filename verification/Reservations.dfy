/** What becomes of reserved numbers: when one upload keeps them, and when a whole line of uploads does. */
module Reservations {
  import opened Sequences
  import opened Descriptors
  import opened Compatibility
  import opened Verdicts
  import opened Transitivity

  /** The message (enum) of that name still reserves the number. */
  predicate ReservedIn(files: seq<File>, fullName: string, n: int) {
    match FindMessage(files, fullName)
    case None => false
    case Some(d) => MessageReserves(d.message, n)
  }

  predicate EnumReservedIn(files: seq<File>, fullName: string, n: int) {
    match FindEnum(files, fullName)
    case None => false
    case Some(d) => EnumReserves(d.enum, n)
  }

  // ---------- one upload ----------

  /** Every accepted successor reserves the number. */
  ghost predicate StaysReserved(strict: bool, b: seq<File>, fullName: string, n: int) {
    forall c: seq<File> | WellFormed(c) && Compatible(strict, c, b) :: ReservedIn(c, fullName, n)
  }

  ghost predicate EnumStaysReserved(strict: bool, b: seq<File>, fullName: string, n: int) {
    forall c: seq<File> | WellFormed(c) && Compatible(strict, c, b) :: EnumReservedIn(c, fullName, n)
  }

  /** An accepted upload may release a reserved number unless it is an end of a reserved range. */
  lemma NumberStaysReservedExactly(strict: bool, b: seq<File>, d: MessageDecl, n: int)
    requires WellFormed(b) && d in AllMessages(b)
    ensures StaysReserved(strict, b, d.fullName, n) <==> IsMessageEnd(d.message, n)
  {
    DeclaredMessageIsNamed(AllMessages(b), d);
    if IsMessageEnd(d.message, n) {
      forall c: seq<File> | WellFormed(c) && Compatible(strict, c, b) ensures ReservedIn(c, d.fullName, n) {
        assert MessageDeclKept(strict, c, d);
        EndsStayReserved(strict, FindMessage(c, d.fullName).value.message, d.message);
      }
    }
    if StaysReserved(strict, b, d.fullName, n) {
      ShrunkWellFormed(Nothing, b);
      ShrunkIsAccepted(strict, Nothing, b);
      assert ReservedIn(ShrinkFiles(Nothing, b), d.fullName, n);
      FindShrunk(Nothing, b, d.fullName);
      ShrunkReserves(Nothing, d.fullName, d.message, n);
    }
  }

  lemma EnumNumberStaysReservedExactly(strict: bool, b: seq<File>, d: EnumDecl, n: int)
    requires WellFormed(b) && d in AllEnums(b)
    ensures EnumStaysReserved(strict, b, d.fullName, n) <==> IsEnumEnd(d.enum, n)
  {
    DeclaredEnumIsNamed(AllEnums(b), d);
    if IsEnumEnd(d.enum, n) {
      forall c: seq<File> | WellFormed(c) && Compatible(strict, c, b) ensures EnumReservedIn(c, d.fullName, n) {
        assert EnumDeclKept(strict, c, d);
        EnumEndsStayReserved(strict, FindEnum(c, d.fullName).value.enum, d.enum);
      }
    }
    if EnumStaysReserved(strict, b, d.fullName, n) {
      ShrunkWellFormed(Nothing, b);
      ShrunkIsAccepted(strict, Nothing, b);
      assert EnumReservedIn(ShrinkFiles(Nothing, b), d.fullName, n);
      FindShrunk(Nothing, b, d.fullName);
      ShrunkEnumReserves(d.enum, n);
    }
  }

  /** Everything `b` reserves is reserved by `c`. */
  ghost predicate KeepsReserved(c: seq<File>, b: seq<File>) {
    && (forall d, n: int | d in AllMessages(b) && MessageReserves(d.message, n) :: ReservedIn(c, d.fullName, n))
    && (forall d, n: int | d in AllEnums(b) && EnumReserves(d.enum, n) :: EnumReservedIn(c, d.fullName, n))
  }

  lemma NarrowRangesAreEnds(files: seq<File>, m: Message)
    requires WellFormedMessage(files, m)
    ensures (forall r | r in m.reservedRanges :: r.end - r.start <= 2) <==>
            forall n | MessageReserves(m, n) :: IsMessageEnd(m, n)
  {
    var ranges := m.reservedRanges;
    if forall r | r in ranges :: r.end - r.start <= 2 {
      forall n | MessageReserves(m, n) ensures IsMessageEnd(m, n) {
        var i :| 0 <= i < |ranges| && ranges[i].start <= n < ranges[i].end;
        assert ranges[i] in ranges;
      }
    }
    forall r | r in ranges && r.end - r.start > 2
      ensures MessageReserves(m, r.start + 1) && !IsMessageEnd(m, r.start + 1) {
      var i :| 0 <= i < |ranges| && ranges[i] == r;
      assert ranges[i].start <= r.start + 1 < ranges[i].end;
      forall q | q in ranges ensures r.start + 1 != q.start && r.start + 1 != q.end - 1 {
        var j :| 0 <= j < |ranges| && ranges[j] == q;
      }
    }
  }

  lemma NarrowEnumRangesAreEnds(e: Enum)
    requires WellFormedEnum(e)
    ensures (forall r | r in e.reservedRanges :: r.end - r.start <= 1) <==>
            forall n | EnumReserves(e, n) :: IsEnumEnd(e, n)
  {
    var ranges := e.reservedRanges;
    if forall r | r in ranges :: r.end - r.start <= 1 {
      forall n | EnumReserves(e, n) ensures IsEnumEnd(e, n) {
        var i :| 0 <= i < |ranges| && ranges[i].start <= n <= ranges[i].end;
        assert ranges[i] in ranges;
      }
    }
    forall r | r in ranges && r.end - r.start > 1 ensures EnumReserves(e, r.start + 1) && !IsEnumEnd(e, r.start + 1) {
      var i :| 0 <= i < |ranges| && ranges[i] == r;
      assert ranges[i].start <= r.start + 1 <= ranges[i].end;
      forall q | q in ranges ensures r.start + 1 != q.start && r.start + 1 != q.end {
        var j :| 0 <= j < |ranges| && ranges[j] == q;
      }
    }
  }

  ghost predicate AlwaysKeepsReserved(strict: bool, b: seq<File>) {
    forall c: seq<File> | WellFormed(c) && Compatible(strict, c, b) :: KeepsReserved(c, b)
  }

  /** Every accepted upload keeps everything that is reserved exactly when no reserved range of the
      schema it replaces spans more than two numbers. */
  lemma ReservedNumbersStayExactly(strict: bool, b: seq<File>)
    requires WellFormed(b)
    ensures AlwaysKeepsReserved(strict, b) <==> Narrow(b)
  {
    if Narrow(b) {
      forall c: seq<File> | WellFormed(c) && Compatible(strict, c, b) ensures KeepsReserved(c, b) {
        NarrowKeepsReserved(strict, c, b);
      }
    }
    if AlwaysKeepsReserved(strict, b) {
      forall d | d in AllMessages(b) ensures forall r | r in d.message.reservedRanges :: r.end - r.start <= 2 {
        forall n | MessageReserves(d.message, n) ensures IsMessageEnd(d.message, n) {
          assert StaysReserved(strict, b, d.fullName, n);
          NumberStaysReservedExactly(strict, b, d, n);
        }
        NarrowRangesAreEnds(b, d.message);
      }
      forall d | d in AllEnums(b) ensures forall r | r in d.enum.reservedRanges :: r.end - r.start <= 1 {
        forall n | EnumReserves(d.enum, n) ensures IsEnumEnd(d.enum, n) {
          assert EnumStaysReserved(strict, b, d.fullName, n);
          EnumNumberStaysReservedExactly(strict, b, d, n);
        }
        NarrowEnumRangesAreEnds(d.enum);
      }
    }
  }

  lemma NarrowKeepsReserved(strict: bool, c: seq<File>, b: seq<File>)
    requires WellFormed(b) && WellFormed(c) && Compatible(strict, c, b) && Narrow(b)
    ensures KeepsReserved(c, b)
  {
    forall d, n: int | d in AllMessages(b) && MessageReserves(d.message, n) ensures ReservedIn(c, d.fullName, n) {
      NarrowRangesAreEnds(b, d.message);
      assert MessageDeclKept(strict, c, d);
      EndsStayReserved(strict, FindMessage(c, d.fullName).value.message, d.message);
    }
    forall d, n: int | d in AllEnums(b) && EnumReserves(d.enum, n) ensures EnumReservedIn(c, d.fullName, n) {
      NarrowEnumRangesAreEnds(d.enum);
      assert EnumDeclKept(strict, c, d);
      EnumEndsStayReserved(strict, FindEnum(c, d.fullName).value.enum, d.enum);
    }
  }

  // ---------- a line of uploads, each accepted against the one before ----------

  ghost predicate Line(strict: bool, versions: seq<seq<File>>) {
    && (forall i | 0 <= i < |versions| :: IsRegistry(versions, i))
    && (forall i | 0 < i < |versions| :: Succeeds(strict, versions, i))
  }

  ghost predicate IsRegistry(versions: seq<seq<File>>, i: int)
    requires 0 <= i < |versions|
  {
    WellFormed(versions[i])
  }

  /** A version is accepted against the one before, whose ranges are narrow. */
  ghost predicate Succeeds(strict: bool, versions: seq<seq<File>>, i: int)
    requires 0 < i < |versions|
  {
    Narrow(versions[i - 1]) && Compatible(strict, versions[i], versions[i - 1])
  }

  lemma LineAt(strict: bool, versions: seq<seq<File>>, i: int)
    requires Line(strict, versions) && 0 <= i < |versions|
    ensures WellFormed(versions[i])
  {
    assert IsRegistry(versions, i);
  }

  lemma LineStep(strict: bool, versions: seq<seq<File>>, i: int)
    requires Line(strict, versions) && 0 < i < |versions|
    ensures WellFormed(versions[i]) && WellFormed(versions[i - 1])
    ensures Narrow(versions[i - 1]) && Compatible(strict, versions[i], versions[i - 1])
  {
    assert Succeeds(strict, versions, i) && IsRegistry(versions, i) && IsRegistry(versions, i - 1);
  }

  /** No field of the message of that name has the number. */
  predicate UnusedIn(files: seq<File>, fullName: string, n: int) {
    match FindMessage(files, fullName)
    case None => true
    case Some(d) => FieldByNumber(d.message.fields, n).None?
  }

  lemma ReservedIsUnused(files: seq<File>, fullName: string, n: int)
    requires WellFormed(files) && ReservedIn(files, fullName, n)
    ensures UnusedIn(files, fullName, n)
  {
    var d := FindMessage(files, fullName).value;
    assert WellFormedMessage(files, d.message);
    forall f | f in d.message.fields ensures f.number != n {
      assert WellFormedField(files, d.message, f);
    }
  }

  lemma StepKeepsReserved(strict: bool, c: seq<File>, b: seq<File>, fullName: string, n: int)
    requires WellFormed(b) && WellFormed(c) && Compatible(strict, c, b) && Narrow(b) && ReservedIn(b, fullName, n)
    ensures ReservedIn(c, fullName, n)
  {
    NarrowKeepsReserved(strict, c, b);
    assert FindMessage(b, fullName).value in AllMessages(b);
  }

  lemma ReservedStep(strict: bool, versions: seq<seq<File>>, i: int, fullName: string, n: int)
    requires Line(strict, versions) && 0 < i < |versions| && ReservedIn(versions[i - 1], fullName, n)
    ensures ReservedIn(versions[i], fullName, n)
  {
    LineStep(strict, versions, i);
    StepKeepsReserved(strict, versions[i], versions[i - 1], fullName, n);
  }

  lemma UnusedAt(strict: bool, versions: seq<seq<File>>, i: int, fullName: string, n: int)
    requires Line(strict, versions) && 0 <= i < |versions| && ReservedIn(versions[i], fullName, n)
    ensures UnusedIn(versions[i], fullName, n)
  {
    LineAt(strict, versions, i);
    ReservedIsUnused(versions[i], fullName, n);
  }

  /** Along a line of narrow schemas a reserved number stays reserved, and so unused, for ever. */
  lemma {:induction false} ReservedForever(strict: bool, versions: seq<seq<File>>, j: int, i: int, fullName: string,
                                           n: int)
    requires Line(strict, versions) && 0 <= j <= i < |versions| && ReservedIn(versions[j], fullName, n)
    ensures ReservedIn(versions[i], fullName, n) && UnusedIn(versions[i], fullName, n)
    decreases i
  {
    if j < i {
      ReservedForever(strict, versions, j, i - 1, fullName, n);
      ReservedStep(strict, versions, i, fullName, n);
    }
    UnusedAt(strict, versions, i, fullName, n);
  }

  /** The field of that number, if there is one, matches `f`. */
  predicate CarriedIn(files: seq<File>, fullName: string, f: Field) {
    match FindMessage(files, fullName)
    case None => false
    case Some(d) =>
      match FieldByNumber(d.message.fields, f.number)
      case None => false
      case Some(g) => FieldMatches(g, f) && g.cardinality.IsValid()
  }

  /** The field is carried on, or its number is reserved and unused. */
  predicate CarriedOrKept(files: seq<File>, fullName: string, f: Field) {
    CarriedIn(files, fullName, f) || (ReservedIn(files, fullName, f.number) && UnusedIn(files, fullName, f.number))
  }

  lemma CarriesItself(files: seq<File>, d: MessageDecl, f: Field)
    requires WellFormed(files) && d in AllMessages(files) && f in d.message.fields
    ensures CarriedOrKept(files, d.fullName, f)
  {
    DeclaredMessageIsNamed(AllMessages(files), d);
    assert WellFormedMessage(files, d.message) && WellFormedField(files, d.message, f);
    DeclaredFieldIsFound(d.message.fields, f);
  }

  lemma KeptStep(versions: seq<seq<File>>, i: int, fullName: string, f: Field)
    requires Line(false, versions) && 0 < i < |versions| && CarriedOrKept(versions[i - 1], fullName, f)
    ensures CarriedOrKept(versions[i], fullName, f)
  {
    LineStep(false, versions, i);
    StepKeepsCarried(versions[i], versions[i - 1], fullName, f);
  }

  lemma {:induction false} KeptForever(versions: seq<seq<File>>, j: int, i: int, fullName: string, f: Field)
    requires Line(false, versions) && 0 <= j <= i < |versions| && CarriedOrKept(versions[j], fullName, f)
    ensures CarriedOrKept(versions[i], fullName, f)
    decreases i
  {
    if j < i {
      KeptForever(versions, j, i - 1, fullName, f);
      KeptStep(versions, i, fullName, f);
    }
  }

  /** In forward mode the field number of a schema never comes back with another meaning: in every later
      schema of the line its field matches the first one, or the number is reserved and unused. */
  lemma DroppedNumbersNeverReturn(versions: seq<seq<File>>, j: int, i: int, d: MessageDecl, f: Field)
    requires Line(false, versions) && 0 <= j <= i < |versions| && d in AllMessages(versions[j]) && f in d.message.fields
    ensures CarriedOrKept(versions[i], d.fullName, f)
  {
    LineAt(false, versions, j);
    CarriesItself(versions[j], d, f);
    KeptForever(versions, j, i, d.fullName, f);
  }

  lemma StepKeepsCarried(c: seq<File>, b: seq<File>, fullName: string, f: Field)
    requires WellFormed(b) && WellFormed(c) && Compatible(false, c, b) && Narrow(b) && CarriedOrKept(b, fullName, f)
    ensures CarriedOrKept(c, fullName, f)
  {
    if CarriedIn(b, fullName, f) {
      CarriedOrReserved(c, b, fullName, f);
    } else {
      StepKeepsReserved(false, c, b, fullName, f.number);
      ReservedIsUnused(c, fullName, f.number);
    }
  }

  lemma CarriedOrReserved(c: seq<File>, b: seq<File>, fullName: string, f: Field)
    requires WellFormed(c) && Compatible(false, c, b) && CarriedIn(b, fullName, f)
    ensures CarriedOrKept(c, fullName, f)
  {
    var e := FindMessage(b, fullName).value;
    var g := FieldByNumber(e.message.fields, f.number).value;
    assert MessageDeclKept(false, c, e) && FieldKept(false, FindMessage(c, fullName).value.message, g);
    if ReservedIn(c, fullName, f.number) {
      ReservedIsUnused(c, fullName, f.number);
    }
  }
}

/** Concrete histories in which each upload is accepted against the one before it, yet the last is
    not acceptable against the first. */
module TransitivityLimits {
  import opened Sequences
  import opened Descriptors
  import opened Compatibility
  import opened Verdicts
  import opened Transitivity
  import opened Reservations
  import opened SmallSchemas

  // ---------- a number inside a wide range ----------

  const RESERVES_4 := Reserving([], [Range(4, 5)], [])
  const RESERVES_3_TO_5 := Reserving([], [Range(3, 6)], [])
  const REUSES_4 := Reserving([Int32Field("x", "x", 4)], [Range(3, 4), Range(5, 6)], [])

  lemma WideRangeMessages(strict: bool)
    ensures MessageKept(strict, RESERVES_3_TO_5, RESERVES_4)
    ensures MessageKept(strict, REUSES_4, RESERVES_3_TO_5)
    ensures !MessageKept(strict, REUSES_4, RESERVES_4)
    ensures !StableMessage(strict, RESERVES_4, RESERVES_3_TO_5)
  {
    var a, b, c := RESERVES_4, RESERVES_3_TO_5, REUSES_4;
    assert b.reservedRanges[0].start <= 4 < b.reservedRanges[0].end;
    assert c.reservedRanges[0].start <= 3 < c.reservedRanges[0].end;
    assert c.reservedRanges[1].start <= 5 < c.reservedRanges[1].end;
    assert a.reservedRanges[0] == Range(4, 5);
    assert !MessageReserves(c, 4) && !MessageRangeKept(c, Range(4, 5));
    assert !IsMessageEnd(b, 4);
  }

  lemma WideRangeWellFormed()
    ensures WellFormedMessage(Only(Proto3, RESERVES_4), RESERVES_4)
    ensures WellFormedMessage(Only(Proto3, RESERVES_3_TO_5), RESERVES_3_TO_5)
    ensures WellFormedMessage(Only(Proto3, REUSES_4), REUSES_4)
  {}

  /** A reserved number inside a wide range is forgotten by the next upload, which may reuse it: the
      first version reserves 4, the second 3 to 5, the third only 3 and 5. */
  lemma WideRangeForgetsItsInside(strict: bool)
    ensures WellFormed(Only(Proto3, RESERVES_4)) && WellFormed(Only(Proto3, RESERVES_3_TO_5))
            && WellFormed(Only(Proto3, REUSES_4))
    ensures Compatible(strict, Only(Proto3, RESERVES_3_TO_5), Only(Proto3, RESERVES_4))
    ensures Compatible(strict, Only(Proto3, REUSES_4), Only(Proto3, RESERVES_3_TO_5))
    ensures !Compatible(strict, Only(Proto3, REUSES_4), Only(Proto3, RESERVES_4))
    ensures !Stable(strict, Only(Proto3, RESERVES_4), Only(Proto3, RESERVES_3_TO_5))
  {
    WideRangeMessages(strict);
    WideRangeWellFormed();
    OnlyWellFormed(Proto3, RESERVES_4);
    OnlyWellFormed(Proto3, RESERVES_3_TO_5);
    OnlyWellFormed(Proto3, REUSES_4);
    OnlyCompatible(Proto3, strict, RESERVES_3_TO_5, RESERVES_4);
    OnlyCompatible(Proto3, strict, REUSES_4, RESERVES_3_TO_5);
    OnlyCompatible(Proto3, strict, REUSES_4, RESERVES_4);
    OnlyStable(Proto3, strict, RESERVES_4, RESERVES_3_TO_5);
  }

  lemma WideRangeNumbers()
    ensures MessageReserves(RESERVES_3_TO_5, 4)
    ensures !MessageReserves(REUSES_4, 4) && FieldByNumber(REUSES_4.fields, 4).Some?
  {
    assert RESERVES_3_TO_5.reservedRanges[0] == Range(3, 6);
  }

  /** One accepted upload releases a reserved number and puts it to use: 4, inside 3 to 5. */
  lemma WideRangeReleasesItsInside(strict: bool)
    ensures WellFormed(Only(Proto3, RESERVES_3_TO_5)) && WellFormed(Only(Proto3, REUSES_4))
    ensures Compatible(strict, Only(Proto3, REUSES_4), Only(Proto3, RESERVES_3_TO_5))
    ensures ReservedIn(Only(Proto3, RESERVES_3_TO_5), "p.M", 4)
    ensures !ReservedIn(Only(Proto3, REUSES_4), "p.M", 4) && !UnusedIn(Only(Proto3, REUSES_4), "p.M", 4)
  {
    WideRangeForgetsItsInside(strict);
    WideRangeNumbers();
    OnlyReserves(Proto3, RESERVES_3_TO_5, 4);
    OnlyReserves(Proto3, REUSES_4, 4);
  }

  // ---------- a field renamed under the same JSON name ----------

  const SNAKE := Reserving([Int32Field("foo_bar", "fooBar", 1)], [], [])
  const CAMEL := Reserving([Int32Field("fooBar", "fooBar", 1)], [], [])
  const DROPPED := Reserving([], [Range(1, 2)], ["fooBar"])

  lemma RenamedMessages()
    ensures MessageKept(false, CAMEL, SNAKE)
    ensures MessageKept(false, DROPPED, CAMEL)
    ensures !MessageKept(false, DROPPED, SNAKE)
    ensures !StableMessage(false, SNAKE, CAMEL)
  {
    assert DROPPED.reservedRanges[0].start <= 1 < DROPPED.reservedRanges[0].end;
    var f := SNAKE.fields[0];
    assert f in SNAKE.fields && f.name == "foo_bar";
    assert "foo_bar"[3] != "fooBar"[3];
    assert !FieldKept(false, DROPPED, f) && !StableField(CAMEL, f);
  }

  lemma RenamedWellFormed()
    ensures WellFormedMessage(Only(Proto3, SNAKE), SNAKE)
    ensures WellFormedMessage(Only(Proto3, CAMEL), CAMEL)
    ensures WellFormedMessage(Only(Proto3, DROPPED), DROPPED)
  {}

  lemma RenamedNarrow()
    ensures Narrow(Only(Proto3, SNAKE)) && Narrow(Only(Proto3, CAMEL)) && Narrow(Only(Proto3, DROPPED))
  {
    OnlyDeclares(Proto3, SNAKE);
    OnlyDeclares(Proto3, CAMEL);
    OnlyDeclares(Proto3, DROPPED);
  }

  /** Forward mode compares JSON names but reserves proto names. Renaming `foo_bar` to `fooBar`
      keeps the JSON name, so dropping and reserving `fooBar` afterwards is accepted, yet the name of
      the first version was never reserved. No range here holds more than one number. */
  lemma RenamedFieldBreaksForward()
    ensures WellFormed(Only(Proto3, SNAKE)) && WellFormed(Only(Proto3, CAMEL)) && WellFormed(Only(Proto3, DROPPED))
    ensures Narrow(Only(Proto3, SNAKE)) && Narrow(Only(Proto3, CAMEL)) && Narrow(Only(Proto3, DROPPED))
    ensures Compatible(false, Only(Proto3, CAMEL), Only(Proto3, SNAKE))
    ensures Compatible(false, Only(Proto3, DROPPED), Only(Proto3, CAMEL))
    ensures !Compatible(false, Only(Proto3, DROPPED), Only(Proto3, SNAKE))
    ensures !Stable(false, Only(Proto3, SNAKE), Only(Proto3, CAMEL))
  {
    RenamedMessages();
    RenamedWellFormed();
    RenamedNarrow();
    OnlyWellFormed(Proto3, SNAKE);
    OnlyWellFormed(Proto3, CAMEL);
    OnlyWellFormed(Proto3, DROPPED);
    OnlyCompatible(Proto3, false, CAMEL, SNAKE);
    OnlyCompatible(Proto3, false, DROPPED, CAMEL);
    OnlyCompatible(Proto3, false, DROPPED, SNAKE);
    OnlyStable(Proto3, false, SNAKE, CAMEL);
  }
}

/**
 Worked ledgers: the end-to-end behaviour of ingestion followed by
 aggregation on small concrete inputs, including the edge cases where the
 code accepts what a validating parser would reject.
 */
module Scenarios {
  import opened Wrappers
  import opened Numerals
  import opened Dates
  import opened ShareHolders
  import opened Employees
  import opened EquityEvents
  import opened Ledger
  import opened Vesting

  const VestRow: Row := ["VEST", "E1", "Alice", "ISO-1", "2020-01-01", "100"]
  const CancelRow: Row := ["CANCEL", "E1", "Alice", "ISO-1", "2020-03-01", "40"]

  /** The date literals the scenarios use parse as expected. */
  lemma LiteralDates()
    ensures ParseDate("2020-01-01") == Some(Date(2020, 1, 1))
    ensures ParseDate("2020-03-01") == Some(Date(2020, 3, 1))
  {
    LiteralDate(Date(2020, 1, 1), "2020-01-01");
    LiteralDate(Date(2020, 3, 1), "2020-03-01");
  }

  /** A literal that is the rendering of a valid date parses to that date. */
  lemma LiteralDate(d: Date, s: string)
    requires ValidDate(d) && FormatDate(d) == s
    ensures ParseDate(s) == Some(d)
  {
    DateRoundTrip(d);
  }

  /** The quantity literals the scenarios use parse as expected. */
  lemma LiteralQuantities()
    ensures ParseInt("100") == Some(100)
    ensures ParseInt("40") == Some(40)
    ensures ParseInt("abc") == None
  {
    IntRoundTrip(100);
    assert FormatInt(100) == "100";
    IntRoundTrip(40);
    assert FormatInt(40) == "40";
  }

  const VestEvent: EquityEvent := EquityEvent("ISO-1", Date(2020, 1, 1), "VEST", 100)
  const CancelEvent: EquityEvent := EquityEvent("ISO-1", Date(2020, 3, 1), "CANCEL", 40)

  /** The vest row is accepted into the empty table. */
  lemma VestRowIngested()
    ensures Ingest(EmptyTable, [VestRow])
         == Ingestion(RecordEvent(RecordEmployee(EmptyTable, "Alice", "E1", "ISO-1"), VestEvent), None)
  {
    var p := ParsedRow("VEST", "E1", "Alice", "ISO-1", Date(2020, 1, 1), 100);
    VestRowParses();
    IngestAccepted(EmptyTable, [], VestRow, p);
    assert [] + [VestRow] == [VestRow];
  }

  /** The table after the single vest row. */
  lemma AfterVestRow()
    ensures Ingest(EmptyTable, [VestRow]).halt.None?
    ensures var t := Ingest(EmptyTable, [VestRow]).table;
      && t.employeeMap.Keys == {"E1"}
      && t.employeeMap["E1"].base.fullName == "Alice"
      && GetEquityAwards(t.employeeMap["E1"].base) == {"ISO-1"}
      && EventsOf(t, "ISO-1") == [VestEvent]
  {
    VestRowIngested();
    var t1 := RecordEvent(RecordEmployee(EmptyTable, "Alice", "E1", "ISO-1"), VestEvent);
    assert t1.employeeMap == map["E1" := AddAward(NewEmployee("Alice", "E1"), "ISO-1")];
  }

  /** A single vest before the cutoff: exactly one row, for the full quantity. */
  lemma SingleVest()
    ensures var r := Ingest(EmptyTable, [VestRow]);
      && r.halt.None?
      && forall row :: IsStatusRow(r.table, Date(2020, 6, 1), row) <==> row == StatusRow("E1", "Alice", "ISO-1", 100)
  {
    AfterVestRow();
    var t := Ingest(EmptyTable, [VestRow]).table;
    var asOf := Date(2020, 6, 1);
    assert [VestEvent][..0] == [];
    assert NetQuantity([VestEvent], asOf) == NetQuantity([], asOf) + Contribution(VestEvent, asOf) == 100;
    forall row ensures IsStatusRow(t, asOf, row) <==> row == StatusRow("E1", "Alice", "ISO-1", 100) {
    }
  }

  /** A later cancellation before the cutoff is subtracted; after the cutoff it is not. */
  lemma VestThenCancel(asOf: Date)
    ensures Ingest(EmptyTable, [VestRow, CancelRow]).halt.None?
    ensures OnOrBefore(Date(2020, 3, 1), asOf) ==>
      NetQuantity(EventsOf(Ingest(EmptyTable, [VestRow, CancelRow]).table, "ISO-1"), asOf) == 60
    ensures OnOrBefore(Date(2020, 1, 1), asOf) && Before(asOf, Date(2020, 3, 1)) ==>
      NetQuantity(EventsOf(Ingest(EmptyTable, [VestRow, CancelRow]).table, "ISO-1"), asOf) == 100
  {
    AfterCancelRow();
    TwoEvents(asOf);
  }

  lemma CancelRowParses()
    ensures ParseRow(CancelRow) == Success(ParsedRow("CANCEL", "E1", "Alice", "ISO-1", Date(2020, 3, 1), 40))
  {
    LiteralDates();
    LiteralQuantities();
  }

  /** Two parsable rows in a row are both recorded, in order. */
  lemma IngestPair(r1: Row, r2: Row, p1: ParsedRow, p2: ParsedRow)
    requires ParseRow(r1) == Success(p1) && ParseRow(r2) == Success(p2)
    ensures var t1 := RecordEvent(RecordEmployee(EmptyTable, p1.employeeName, p1.employeeId, p1.awardId), RowEvent(p1));
      Ingest(EmptyTable, [r1, r2])
      == Ingestion(RecordEvent(RecordEmployee(t1, p2.employeeName, p2.employeeId, p2.awardId), RowEvent(p2)), None)
  {
    IngestAccepted(EmptyTable, [], r1, p1);
    assert [] + [r1] == [r1];
    IngestAccepted(EmptyTable, [r1], r2, p2);
    assert [r1] + [r2] == [r1, r2];
  }

  lemma VestRowParses()
    ensures ParseRow(VestRow) == Success(ParsedRow("VEST", "E1", "Alice", "ISO-1", Date(2020, 1, 1), 100))
  {
    LiteralDates();
    LiteralQuantities();
  }

  /** The table after the vest row and then the cancel row. */
  lemma AfterCancelRow()
    ensures Ingest(EmptyTable, [VestRow, CancelRow]).halt.None?
    ensures EventsOf(Ingest(EmptyTable, [VestRow, CancelRow]).table, "ISO-1") == [VestEvent, CancelEvent]
  {
    var p1 := ParsedRow("VEST", "E1", "Alice", "ISO-1", Date(2020, 1, 1), 100);
    var p2 := ParsedRow("CANCEL", "E1", "Alice", "ISO-1", Date(2020, 3, 1), 40);
    VestRowParses();
    CancelRowParses();
    IngestPair(VestRow, CancelRow, p1, p2);
    var t1 := RecordEvent(RecordEmployee(EmptyTable, "Alice", "E1", "ISO-1"), VestEvent);
    assert EventsOf(RecordEmployee(t1, "Alice", "E1", "ISO-1"), "ISO-1") == [VestEvent];
  }

  /** The net quantity of the vest-then-cancel list is the sum of the two contributions. */
  lemma TwoEvents(asOf: Date)
    ensures NetQuantity([VestEvent, CancelEvent], asOf) == Contribution(VestEvent, asOf) + Contribution(CancelEvent, asOf)
  {
    var events := [VestEvent, CancelEvent];
    assert events[..1] == [VestEvent];
    assert [VestEvent][..0] == [];
    assert NetQuantity([VestEvent], asOf) == NetQuantity([], asOf) + Contribution(VestEvent, asOf);
    assert NetQuantity(events, asOf) == NetQuantity(events[..1], asOf) + Contribution(CancelEvent, asOf);
  }

  /**
   A malformed quantity halts ingestion at its row; the rows before it stay
   in the table (there is no rollback).
   */
  lemma MalformedQuantityHalts()
    ensures var r := Ingest(EmptyTable, [VestRow, ["VEST", "E2", "Bob", "ISO-2", "2020-01-01", "abc"]]);
      && r.halt == Some(Halt(1, MalformedQuantity("abc")))
      && r.table.employeeMap.Keys == {"E1"}
  {
    LiteralDates();
    LiteralQuantities();
    AfterVestRow();
    var bad: Row := ["VEST", "E2", "Bob", "ISO-2", "2020-01-01", "abc"];
    assert ParseRow(bad) == Failure(MalformedQuantity("abc"));
    IngestSnoc(EmptyTable, [VestRow], bad);
    assert [VestRow] + [bad] == [VestRow, bad];
  }

  /** A five-column row with a bad date fails on the date before the missing column is noticed. */
  lemma DateCheckedBeforeLastColumn()
    ensures ParseRow(["VEST", "E1", "Alice", "ISO-1", "2020-13-01"]) == Failure(MalformedDate("2020-13-01"))
    ensures ParseRow(["VEST", "E1", "Alice", "ISO-1", "2020-01-01"]) == Failure(MissingField(5))
    ensures ParseRow(["VEST", "E1"]) == Failure(MissingField(2))
  {
    LiteralDates();
    LiteralQuantities();
    var s := "2020-13-01";
    assert s[5..7] == "13" && "13"[..1] == "1";
    assert DigitsValue("13") == 13;
    assert ParseDate(s) == None;
  }
  /** Columns after the sixth are ignored. */
  lemma ExtraColumnsIgnored()
    ensures ParseRow(VestRow + ["note"]) == ParseRow(VestRow)
    ensures ParseRow(VestRow).Success?
  {
    LiteralDates();
    LiteralQuantities();
  }

  /** Blank rows are skipped, and an empty ledger is not an error: it yields an empty table. */
  lemma BlankAndEmptyLedgers()
    ensures Ingest(EmptyTable, []) == Ingestion(EmptyTable, None)
    ensures Ingest(EmptyTable, [[], []]) == Ingestion(EmptyTable, None)
  {
  }

  const LowerCaseRow: Row := ["vest", "E1", "Alice", "ISO-1", "2020-01-01", "100"]

  /** The type token is matched exactly: a lower-case "vest" adds nothing. */
  lemma LowerCaseVestIgnored()
    ensures var r := Ingest(EmptyTable, [LowerCaseRow]);
      && r.halt.None?
      && NetQuantity(EventsOf(r.table, "ISO-1"), Date(2020, 6, 1)) == 0
  {
    var e := EquityEvent("ISO-1", Date(2020, 1, 1), "vest", 100);
    assert ParseRow(LowerCaseRow) == Success(ParsedRow("vest", "E1", "Alice", "ISO-1", Date(2020, 1, 1), 100)) by {
      LiteralDates();
      LiteralQuantities();
    }
    IngestAccepted(EmptyTable, [], LowerCaseRow, ParsedRow("vest", "E1", "Alice", "ISO-1", Date(2020, 1, 1), 100));
    assert [] + [LowerCaseRow] == [LowerCaseRow];
    assert EventsOf(Ingest(EmptyTable, [LowerCaseRow]).table, "ISO-1") == [e];
    assert [e][..0] == [];
    assert NetQuantity([e], Date(2020, 6, 1)) == NetQuantity([], Date(2020, 6, 1)) + Contribution(e, Date(2020, 6, 1));
  }

  /** Cancelling more than vested is not an error: the net quantity is negative. */
  lemma OverCancelIsNegative()
    ensures NetQuantity([EquityEvent("ISO-1", Date(2020, 1, 1), Vest, 100),
                         EquityEvent("ISO-1", Date(2020, 3, 1), Cancel, 150)], Date(2020, 6, 1)) == -50
  {
    var events := [EquityEvent("ISO-1", Date(2020, 1, 1), Vest, 100), EquityEvent("ISO-1", Date(2020, 3, 1), Cancel, 150)];
    assert events[..1] == [events[0]];
    assert events[..1][..0] == [];
    assert NetQuantity(events[..1], Date(2020, 6, 1)) == 100;
  }

  lemma SecondHolderRowParses()
    ensures ParseRow(["VEST", "E2", "Bob", "ISO-1", "2020-01-01", "100"])
         == Success(ParsedRow("VEST", "E2", "Bob", "ISO-1", Date(2020, 1, 1), 100))
  {
    LiteralDates();
    LiteralQuantities();
  }

  /** Two employees can claim the same award id; both then own it. */
  lemma SharedAwardIngested()
    ensures var r := Ingest(EmptyTable, [VestRow, ["VEST", "E2", "Bob", "ISO-1", "2020-01-01", "100"]]);
      && r.halt.None?
      && "E1" in r.table.employeeMap && "E2" in r.table.employeeMap
      && "ISO-1" in GetEquityAwards(r.table.employeeMap["E1"].base)
      && "ISO-1" in GetEquityAwards(r.table.employeeMap["E2"].base)
  {
    var row: Row := ["VEST", "E2", "Bob", "ISO-1", "2020-01-01", "100"];
    VestRowParses();
    SecondHolderRowParses();
    IngestPair(VestRow, row, ParsedRow("VEST", "E1", "Alice", "ISO-1", Date(2020, 1, 1), 100),
                             ParsedRow("VEST", "E2", "Bob", "ISO-1", Date(2020, 1, 1), 100));
  }
}

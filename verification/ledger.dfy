/**
 Ingestion of the ledger's rows into the cap table's two indexes: the
 employee directory (employee id to employee) and the event index (award id
 to the award's events in ledger order).
 */
module Ledger {
  import opened Wrappers
  import opened Numerals
  import opened Dates
  import opened ShareHolders
  import opened Employees
  import opened EquityEvents
  import opened Sequences

  /** One record of the ledger, as raw text fields. */
  type Row = seq<string>

  /**
   The typed fields of a row: event type, employee id, employee name,
   award id, date and quantity, in column order.
   */
  datatype ParsedRow = ParsedRow(
    eventType: string,
    employeeId: string,
    employeeName: string,
    awardId: string,
    awardDate: Date,
    awardQty: int)

  /** Why a row was rejected: a column it lacks, or a date or quantity that does not parse. */
  datatype RowError =
    | MissingField(index: nat)
    | MalformedDate(text: string)
    | MalformedQuantity(text: string)

  /**
   Reads the six leading columns of a row. Columns are examined in order, so
   a bad date in a five-column row is reported as a date error, and columns
   beyond the sixth are ignored. The text columns are kept verbatim.
   */
  function ParseRow(row: Row): (r: Result<ParsedRow, RowError>)
    ensures r.Success? <==> |row| >= 6 && ParseDate(row[4]).Some? && ParseInt(row[5]).Some?
    ensures r.Success? ==>
      && r.value.eventType == row[0]
      && r.value.employeeId == row[1]
      && r.value.employeeName == row[2]
      && r.value.awardId == row[3]
      && Some(r.value.awardDate) == ParseDate(row[4])
      && Some(r.value.awardQty) == ParseInt(row[5])
    ensures |row| < 5 ==> r == Failure(MissingField(|row|))
    ensures |row| >= 5 && ParseDate(row[4]).None? ==> r == Failure(MalformedDate(row[4]))
    ensures |row| == 5 && ParseDate(row[4]).Some? ==> r == Failure(MissingField(5))
    ensures |row| >= 6 && ParseDate(row[4]).Some? && ParseInt(row[5]).None? ==>
      r == Failure(MalformedQuantity(row[5]))
  {
    if |row| < 5 then Failure(MissingField(|row|))
    else match ParseDate(row[4])
      case None => Failure(MalformedDate(row[4]))
      case Some(date) =>
        if |row| < 6 then Failure(MissingField(5))
        else match ParseInt(row[5])
          case None => Failure(MalformedQuantity(row[5]))
          case Some(qty) => Success(ParsedRow(row[0], row[1], row[2], row[3], date, qty))
  }

  /** The event a parsed row records. */
  function RowEvent(p: ParsedRow): EquityEvent {
    NewEquityEvent(awardId := p.awardId, eventDate := p.awardDate, eventType := p.eventType, awardQty := p.awardQty)
  }

  /** The cap table's state: the employee directory and the event index. */
  datatype CapTable = CapTable(employeeMap: map<string, Employee>, equityEventMap: map<string, seq<EquityEvent>>)

  const EmptyTable: CapTable := CapTable(map[], map[])

  /** The events of an award; an award the index has never seen has none. */
  function EventsOf(t: CapTable, awardId: string): seq<EquityEvent> {
    if awardId in t.equityEventMap then t.equityEventMap[awardId] else []
  }

  /**
   Upserts the employee of a row: an employee already in the directory gets
   the award added and keeps its name; a new one is created with the row's
   name and seeded with the award.
   */
  function RecordEmployee(t: CapTable, name: string, employeeId: string, awardId: string): (t': CapTable)
    ensures employeeId in t'.employeeMap && awardId in GetEquityAwards(t'.employeeMap[employeeId].base)
    ensures t'.employeeMap.Keys == t.employeeMap.Keys + {employeeId}
    ensures employeeId in t.employeeMap ==> t'.employeeMap[employeeId] == AddAward(t.employeeMap[employeeId], awardId)
    ensures employeeId !in t.employeeMap ==>
      t'.employeeMap[employeeId] == AddAward(NewEmployee(name, employeeId), awardId)
    ensures forall id | id in t.employeeMap && id != employeeId :: t'.employeeMap[id] == t.employeeMap[id]
    ensures t'.equityEventMap == t.equityEventMap
  {
    var e := if employeeId in t.employeeMap then t.employeeMap[employeeId] else NewEmployee(name, employeeId);
    t.(employeeMap := t.employeeMap[employeeId := AddAward(e, awardId)])
  }

  /** Appends an event to its award's list, creating the list on first use. */
  function RecordEvent(t: CapTable, ev: EquityEvent): (t': CapTable)
    ensures EventsOf(t', ev.awardId) == EventsOf(t, ev.awardId) + [ev]
    ensures forall a | a != ev.awardId :: EventsOf(t', a) == EventsOf(t, a)
    ensures t'.equityEventMap.Keys == t.equityEventMap.Keys + {ev.awardId}
    ensures t'.employeeMap == t.employeeMap
  {
    t.(equityEventMap := t.equityEventMap[ev.awardId := EventsOf(t, ev.awardId) + [ev]])
  }

  /**
   One iteration of the row loop: an empty row is skipped; any other row is
   parsed and, if that succeeds, recorded in both indexes.
   */
  function IngestRow(t: CapTable, row: Row): (r: Result<CapTable, RowError>)
    ensures |row| == 0 ==> r == Success(t)
    ensures |row| > 0 ==> (r.Success? <==> ParseRow(row).Success?)
    ensures |row| > 0 && r.Failure? ==> r.error == ParseRow(row).error
  {
    if |row| == 0 then Success(t)
    else match ParseRow(row)
      case Failure(e) => Failure(e)
      case Success(p) => Success(RecordEvent(RecordEmployee(t, p.employeeName, p.employeeId, p.awardId), RowEvent(p)))
  }

  /** Where and why ingestion stopped. */
  datatype Halt = Halt(rowIndex: nat, reason: RowError)

  /** The table reached by ingestion, and the failure that stopped it, if any. */
  datatype Ingestion = Ingestion(table: CapTable, halt: Option<Halt>)

  /**
   Ingests the rows in order. The first rejected row stops ingestion; the
   rows before it stay recorded in the returned table.
   */
  function Ingest(t: CapTable, rows: seq<Row>): (r: Ingestion)
    ensures r.halt.Some? ==> r.halt.value.rowIndex < |rows|
    decreases |rows|
  {
    if |rows| == 0 then Ingestion(t, None)
    else
      var prev := Ingest(t, rows[..|rows| - 1]);
      if prev.halt.Some? then prev
      else match IngestRow(prev.table, rows[|rows| - 1])
        case Failure(e) => Ingestion(prev.table, Some(Halt(|rows| - 1, e)))
        case Success(t') => Ingestion(t', None)
  }

  /** Ingesting one more row after a completed ingestion is one more `IngestRow`. */
  lemma IngestSnoc(t: CapTable, rows: seq<Row>, row: Row)
    requires Ingest(t, rows).halt.None?
    ensures Ingest(t, rows + [row])
         == match IngestRow(Ingest(t, rows).table, row)
              case Failure(e) => Ingestion(Ingest(t, rows).table, Some(Halt(|rows|, e)))
              case Success(t') => Ingestion(t', None)
  {
  }

  /** After a completed ingestion, one more parsable row is recorded in both indexes. */
  lemma IngestAccepted(t: CapTable, rows: seq<Row>, row: Row, p: ParsedRow)
    requires Ingest(t, rows).halt.None? && ParseRow(row) == Success(p)
    ensures Ingest(t, rows + [row]) == Ingestion(
      RecordEvent(RecordEmployee(Ingest(t, rows).table, p.employeeName, p.employeeId, p.awardId), RowEvent(p)),
      None)
  {
    IngestSnoc(t, rows, row);
  }

  /**
   The table invariant: every employee is filed under its own id and is a
   valid employee, and every award any employee owns has a non-empty event
   list, so the aggregation's lookup of it never has to create one.
   */
  ghost predicate WellFormed(t: CapTable) {
    && (forall id | id in t.employeeMap :: t.employeeMap[id].employeeId == id && ValidEmployee(t.employeeMap[id]))
    && (forall id, a | id in t.employeeMap && a in t.employeeMap[id].base.equityAwards ::
          a in t.equityEventMap && |t.equityEventMap[a]| > 0)
  }

  /**
   The effect of one accepted row: its employee is in the directory and owns
   its award; employees already there keep their name; the row's award list
   grows by exactly its event and every other list is unchanged.
   */
  lemma IngestRowEffect(t: CapTable, row: Row)
    requires |row| > 0 && IngestRow(t, row).Success?
    ensures var t' := IngestRow(t, row).value;
      && row[1] in t'.employeeMap
      && row[3] in GetEquityAwards(t'.employeeMap[row[1]].base)
      && (forall id | id in t.employeeMap :: id in t'.employeeMap
            && t'.employeeMap[id].base.fullName == t.employeeMap[id].base.fullName)
      && EventsOf(t', row[3]) == EventsOf(t, row[3]) + [RowEvent(ParseRow(row).value)]
      && (forall a | a != row[3] :: EventsOf(t', a) == EventsOf(t, a))
  {
  }

  /**
   Feeding the same row twice appends its event twice but leaves every
   award set as it was after the first time.
   */
  lemma IngestRowTwice(t: CapTable, row: Row)
    requires |row| > 0 && IngestRow(t, row).Success?
    ensures var t1 := IngestRow(t, row).value;
      && IngestRow(t1, row).Success?
      && var t2 := IngestRow(t1, row).value;
      && t2.employeeMap.Keys == t1.employeeMap.Keys
      && (forall id | id in t1.employeeMap :: t2.employeeMap[id] == t1.employeeMap[id])
      && |EventsOf(t2, row[3])| == |EventsOf(t, row[3])| + 2
  {
  }

  lemma IngestRowPreservesWellFormed(t: CapTable, row: Row)
    requires WellFormed(t) && IngestRow(t, row).Success?
    ensures WellFormed(IngestRow(t, row).value)
  {
  }

  /** Ingestion keeps the table invariant, whether or not it halts. */
  lemma {:induction false} IngestPreservesWellFormed(t: CapTable, rows: seq<Row>)
    requires WellFormed(t)
    ensures WellFormed(Ingest(t, rows).table)
    decreases |rows|
  {
    if |rows| > 0 {
      var prev := Ingest(t, rows[..|rows| - 1]);
      IngestPreservesWellFormed(t, rows[..|rows| - 1]);
      if prev.halt.None? && IngestRow(prev.table, rows[|rows| - 1]).Success? {
        IngestRowPreservesWellFormed(prev.table, rows[|rows| - 1]);
      }
    }
  }

  /** The empty table satisfies the invariant, and an empty ledger leaves it empty. */
  lemma EmptyLedger()
    ensures WellFormed(EmptyTable)
    ensures Ingest(EmptyTable, []) == Ingestion(EmptyTable, None)
  {
  }

  /** Every row that is not blank parses. */
  ghost predicate AllRowsParse(rows: seq<Row>) {
    forall i | 0 <= i < |rows| && |rows[i]| > 0 :: ParseRow(rows[i]).Success?
  }

  /** `AllRowsParse` of a non-empty ledger splits into its prefix and its last row. */
  lemma AllRowsParseSnoc(rows: seq<Row>)
    requires |rows| > 0
    ensures AllRowsParse(rows) <==>
      AllRowsParse(rows[..|rows| - 1]) && (|rows[|rows| - 1]| > 0 ==> ParseRow(rows[|rows| - 1]).Success?)
  {
    var prefix := rows[..|rows| - 1];
    assert forall i | 0 <= i < |prefix| :: prefix[i] == rows[i];
  }

  /** Ingestion completes exactly when every non-blank row parses. */
  lemma {:induction false} IngestSucceedsIff(t: CapTable, rows: seq<Row>)
    ensures Ingest(t, rows).halt.None? <==> AllRowsParse(rows)
    decreases |rows|
  {
    if |rows| > 0 {
      var prefix := rows[..|rows| - 1];
      var last := rows[|rows| - 1];
      IngestSucceedsIff(t, prefix);
      AllRowsParseSnoc(rows);
      var prev := Ingest(t, prefix);
      assert Ingest(t, rows).halt.None? <==> prev.halt.None? && IngestRow(prev.table, last).Success?;
    }
  }

  /**
   A halt names the first rejected row: the rows before it were all
   ingested into the table that is returned, and it is not blank and
   fails to parse for the reason given.
   */
  lemma {:induction false} IngestHaltsAtFirstBadRow(t: CapTable, rows: seq<Row>)
    requires Ingest(t, rows).halt.Some?
    ensures var r := Ingest(t, rows); var i := r.halt.value.rowIndex;
      && Ingest(t, rows[..i]) == Ingestion(r.table, None)
      && |rows[i]| > 0
      && ParseRow(rows[i]) == Failure(r.halt.value.reason)
    decreases |rows|
  {
    var prefix := rows[..|rows| - 1];
    var prev := Ingest(t, prefix);
    if prev.halt.Some? {
      IngestHaltsAtFirstBadRow(t, prefix);
      var i := prev.halt.value.rowIndex;
      assert prefix[..i] == rows[..i];
    } else {
      assert rows[..|rows| - 1] == prefix;
    }
  }

  /** The events that the ledger's parsable rows record for `awardId`, in ledger order. */
  function EventsFor(rows: seq<Row>, awardId: string): seq<EquityEvent> {
    if |rows| == 0 then []
    else
      var last := rows[|rows| - 1];
      EventsFor(rows[..|rows| - 1], awardId)
        + match ParseRow(last)
            case Success(p) => if p.awardId == awardId then [RowEvent(p)] else []
            case Failure(_) => []
  }

  /** The award ids that the ledger's parsable rows assign to `employeeId`. */
  ghost function AwardsFor(rows: seq<Row>, employeeId: string): set<string> {
    set row | row in rows && RowOf(row, employeeId) :: row[3]
  }

  /** The name on the first parsable row of `employeeId`, if there is one. */
  function FirstNameFor(rows: seq<Row>, employeeId: string): Option<string> {
    if |rows| == 0 then None
    else
      var earlier := FirstNameFor(rows[..|rows| - 1], employeeId);
      var last := rows[|rows| - 1];
      if earlier.Some? then earlier
      else match ParseRow(last)
        case Success(p) => if p.employeeId == employeeId then Some(p.employeeName) else None
        case Failure(_) => None
  }

  /**
   After a completed ingestion, an award's event list is its old list
   followed by the ledger's events for it, in ledger order.
   */
  lemma {:induction false} IngestEvents(t: CapTable, rows: seq<Row>, awardId: string)
    requires Ingest(t, rows).halt.None?
    ensures EventsOf(Ingest(t, rows).table, awardId) == EventsOf(t, awardId) + EventsFor(rows, awardId)
    decreases |rows|
  {
    if |rows| > 0 {
      var prefix := rows[..|rows| - 1];
      IngestEvents(t, prefix, awardId);
    }
  }

  /** Ledger rows seen after the last one add nothing to the award sets. */
  lemma AwardsForSnoc(rows: seq<Row>, row: Row, employeeId: string)
    ensures AwardsFor(rows + [row], employeeId)
      == AwardsFor(rows, employeeId)
         + (if RowOf(row, employeeId) then {row[3]} else {})
  {
  }

  /** Whether `row` is a parsable row of employee `employeeId`. */
  predicate RowOf(row: Row, employeeId: string) {
    ParseRow(row).Success? && row[1] == employeeId
  }

  /** What one accepted row does to one directory entry. */
  lemma IngestRowDirectory(t: CapTable, row: Row, employeeId: string)
    requires IngestRow(t, row).Success?
    ensures var m := IngestRow(t, row).value.employeeMap;
      && (employeeId in m <==> employeeId in t.employeeMap || RowOf(row, employeeId))
      && (employeeId in t.employeeMap ==> m[employeeId].base.fullName == t.employeeMap[employeeId].base.fullName)
      && (employeeId !in t.employeeMap && employeeId in m ==> m[employeeId].base.fullName == row[2])
      && (employeeId in m ==>
            GetEquityAwards(m[employeeId].base)
            == (if employeeId in t.employeeMap then GetEquityAwards(t.employeeMap[employeeId].base) else {})
               + (if RowOf(row, employeeId) then {row[3]} else {}))
  {
  }

  /**
   After a completed ingestion the directory holds the employees it held
   before plus one per employee id on a parsable row; a pre-existing
   employee keeps its name and a new one bears the name of its first row.
   */
  lemma {:induction false} IngestNames(t: CapTable, rows: seq<Row>, employeeId: string)
    requires Ingest(t, rows).halt.None?
    ensures var m := Ingest(t, rows).table.employeeMap;
      && (employeeId in m <==> employeeId in t.employeeMap || FirstNameFor(rows, employeeId).Some?)
      && (employeeId in t.employeeMap ==> m[employeeId].base.fullName == t.employeeMap[employeeId].base.fullName)
      && (employeeId !in t.employeeMap && employeeId in m ==>
            m[employeeId].base.fullName == FirstNameFor(rows, employeeId).value)
    decreases |rows|
  {
    if |rows| > 0 {
      var prefix := rows[..|rows| - 1];
      IngestNames(t, prefix, employeeId);
      IngestRowDirectory(Ingest(t, prefix).table, rows[|rows| - 1], employeeId);
    }
  }

  /** An employee id with no first row has no rows at all, so no awards. */
  lemma {:induction false} NoFirstNameNoAwards(rows: seq<Row>, employeeId: string)
    requires FirstNameFor(rows, employeeId).None?
    ensures forall row | row in rows :: !RowOf(row, employeeId)
    ensures AwardsFor(rows, employeeId) == {}
    decreases |rows|
  {
    if |rows| > 0 {
      var prefix := rows[..|rows| - 1];
      NoFirstNameNoAwards(prefix, employeeId);
      assert rows == prefix + [rows[|rows| - 1]];
    }
  }

  /**
   After a completed ingestion each employee's awards are the awards it
   held before plus every award its parsable rows name.
   */
  lemma {:induction false} IngestAwards(t: CapTable, rows: seq<Row>, employeeId: string)
    requires Ingest(t, rows).halt.None?
    ensures var m := Ingest(t, rows).table.employeeMap;
      employeeId in m ==>
        GetEquityAwards(m[employeeId].base)
        == (if employeeId in t.employeeMap then GetEquityAwards(t.employeeMap[employeeId].base) else {})
           + AwardsFor(rows, employeeId)
    decreases |rows|
  {
    if |rows| == 0 {
      assert AwardsFor(rows, employeeId) == {};
    } else {
      var prefix := rows[..|rows| - 1];
      var last := rows[|rows| - 1];
      var prev := Ingest(t, prefix).table;
      IngestRowDirectory(prev, last, employeeId);
      assert rows == prefix + [last];
      AwardsForSnoc(prefix, last, employeeId);
      if employeeId in prev.employeeMap {
        IngestAwards(t, prefix, employeeId);
      } else {
        IngestNames(t, prefix, employeeId);
        assert employeeId !in t.employeeMap;
        NoFirstNameNoAwards(prefix, employeeId);
      }
    }
  }

  /** The events a ledger records for an award split along any split of the ledger. */
  lemma {:induction false} EventsForAppend(a: seq<Row>, b: seq<Row>, awardId: string)
    ensures EventsFor(a + b, awardId) == EventsFor(a, awardId) + EventsFor(b, awardId)
    decreases |b|
  {
    if |b| == 0 {
      assert a + b == a;
    } else {
      var b' := b[..|b| - 1];
      assert (a + b)[..|a + b| - 1] == a + b';
      assert (a + b)[|a + b| - 1] == b[|b| - 1];
      EventsForAppend(a, b', awardId);
    }
  }

  /** Reordering the ledger reorders each award's recorded events and nothing more. */
  lemma {:induction false} EventsForPermutation(rows1: seq<Row>, rows2: seq<Row>, awardId: string)
    requires multiset(rows1) == multiset(rows2)
    ensures multiset(EventsFor(rows1, awardId)) == multiset(EventsFor(rows2, awardId))
    decreases |rows1|
  {
    if |rows1| == 0 {
      assert |rows2| == |multiset(rows2)| == 0;
    } else {
      var x := rows1[|rows1| - 1];
      var rest1 := rows1[..|rows1| - 1];
      assert rows1 == rest1 + [x];
      assert x in multiset(rows2);
      var j :| 0 <= j < |rows2| && rows2[j] == x;
      var rest2 := rows2[..j] + rows2[j + 1..];
      RemoveAt(rows2, j);
      assert multiset(rest1) == multiset(rows1) - multiset{x};
      EventsForPermutation(rest1, rest2, awardId);
      EventsForAppend(rest1, [x], awardId);
      EventsForRemove(rows2, j, awardId);
    }
  }

  /** Taking one row out of a ledger takes exactly that row's event out of the award's events. */
  lemma EventsForRemove(rows: seq<Row>, j: nat, awardId: string)
    requires j < |rows|
    ensures multiset(EventsFor(rows, awardId))
         == multiset(EventsFor(rows[..j] + rows[j + 1..], awardId)) + multiset(EventsFor([rows[j]], awardId))
  {
    assert rows == rows[..j] + ([rows[j]] + rows[j + 1..]);
    EventsForAppend(rows[..j], [rows[j]] + rows[j + 1..], awardId);
    EventsForAppend([rows[j]], rows[j + 1..], awardId);
    EventsForAppend(rows[..j], rows[j + 1..], awardId);
  }

  /** An employee id has a first row exactly when some parsable row carries it. */
  lemma {:induction false} FirstNameForSome(rows: seq<Row>, employeeId: string)
    ensures FirstNameFor(rows, employeeId).Some? <==> AwardsFor(rows, employeeId) != {}
    decreases |rows|
  {
    if |rows| > 0 {
      var prefix := rows[..|rows| - 1];
      var last := rows[|rows| - 1];
      FirstNameForSome(prefix, employeeId);
      assert rows == prefix + [last];
      AwardsForSnoc(prefix, last, employeeId);
    }
  }

  /** Which rows parse, and which awards they give an employee, does not depend on row order. */
  lemma RowsPermutation(rows1: seq<Row>, rows2: seq<Row>, employeeId: string)
    requires multiset(rows1) == multiset(rows2)
    ensures AllRowsParse(rows1) <==> AllRowsParse(rows2)
    ensures AwardsFor(rows1, employeeId) == AwardsFor(rows2, employeeId)
  {
    assert forall row :: row in rows1 <==> row in rows2 by {
      forall row ensures row in rows1 <==> row in rows2 {
        assert row in rows1 <==> row in multiset(rows1);
        assert row in rows2 <==> row in multiset(rows2);
      }
    }
    if AllRowsParse(rows1) {
      forall i | 0 <= i < |rows2| && |rows2[i]| > 0 ensures ParseRow(rows2[i]).Success? {
        assert rows2[i] in rows1;
      }
    }
    if AllRowsParse(rows2) {
      forall i | 0 <= i < |rows1| && |rows1[i]| > 0 ensures ParseRow(rows1[i]).Success? {
        assert rows1[i] in rows2;
      }
    }
  }
}

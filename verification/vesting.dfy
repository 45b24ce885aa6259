/**
 Aggregation: the net quantity of each owned award as of a cutoff date, one
 row per (employee, award) pair. It only reads the cap table.
 */
module Vesting {
  import opened Dates
  import opened ShareHolders
  import opened EquityEvents
  import opened Ledger
  import opened Sequences

  const Vest: string := "VEST"
  const Cancel: string := "CANCEL"

  /**
   The signed effect of an event regardless of date: its quantity for an
   exact "VEST", minus it for an exact "CANCEL", nothing for any other token.
   */
  function SignedQty(e: EquityEvent): int {
    if e.eventType == Vest then e.awardQty
    else if e.eventType == Cancel then -e.awardQty
    else 0
  }

  /** What an event adds to the total as of `asOf`: events dated after it count for nothing. */
  function Contribution(e: EquityEvent, asOf: Date): int {
    if Before(asOf, e.eventDate) then 0 else SignedQty(e)
  }

  /** The net quantity of an event list as of `asOf`: the sum of its contributions. */
  function NetQuantity(events: seq<EquityEvent>, asOf: Date): int {
    if |events| == 0 then 0
    else NetQuantity(events[..|events| - 1], asOf) + Contribution(events[|events| - 1], asOf)
  }

  /** The net quantity of a concatenation is the sum of the parts' net quantities. */
  lemma {:induction false} NetQuantityAppend(a: seq<EquityEvent>, b: seq<EquityEvent>, asOf: Date)
    ensures NetQuantity(a + b, asOf) == NetQuantity(a, asOf) + NetQuantity(b, asOf)
    decreases |b|
  {
    if |b| == 0 {
      assert a + b == a;
    } else {
      var b' := b[..|b| - 1];
      assert (a + b)[..|a + b| - 1] == a + b';
      assert (a + b)[|a + b| - 1] == b[|b| - 1];
      NetQuantityAppend(a, b', asOf);
    }
  }

  /** The net quantity does not depend on the order of the events. */
  lemma {:induction false} NetQuantityPermutation(s: seq<EquityEvent>, t: seq<EquityEvent>, asOf: Date)
    requires multiset(s) == multiset(t)
    ensures NetQuantity(s, asOf) == NetQuantity(t, asOf)
    decreases |s|
  {
    if |s| == 0 {
      assert |t| == |multiset(t)| == 0;
    } else {
      var x := s[|s| - 1];
      var s' := s[..|s| - 1];
      assert s == s' + [x];
      assert x in multiset(t);
      var j :| 0 <= j < |t| && t[j] == x;
      var t' := t[..j] + t[j + 1..];
      RemoveAt(t, j);
      assert multiset(s') == multiset(s) - multiset{x};
      NetQuantityPermutation(s', t', asOf);
      NetQuantityRemove(t, j, asOf);
      NetQuantityAppend(s', [x], asOf);
    }
  }

  /** Taking one event out of a list takes exactly its contribution out of the net quantity. */
  lemma NetQuantityRemove(t: seq<EquityEvent>, j: nat, asOf: Date)
    requires j < |t|
    ensures NetQuantity(t, asOf) == NetQuantity(t[..j] + t[j + 1..], asOf) + Contribution(t[j], asOf)
  {
    assert t == t[..j] + ([t[j]] + t[j + 1..]);
    NetQuantityAppend(t[..j], [t[j]] + t[j + 1..], asOf);
    NetQuantityAppend([t[j]], t[j + 1..], asOf);
    NetQuantityAppend(t[..j], t[j + 1..], asOf);
    assert ([t[j]])[..0] == [];
  }

  /** The events of `events` whose type token is exactly `eventType` and dated on or before `asOf`. */
  function Selected(events: seq<EquityEvent>, eventType: string, asOf: Date): (r: seq<EquityEvent>)
    ensures forall e | e in r :: e in events && e.eventType == eventType && OnOrBefore(e.eventDate, asOf)
  {
    if |events| == 0 then []
    else
      var e := events[|events| - 1];
      Selected(events[..|events| - 1], eventType, asOf)
        + (if e.eventType == eventType && OnOrBefore(e.eventDate, asOf) then [e] else [])
  }

  function TotalQty(events: seq<EquityEvent>): int {
    if |events| == 0 then 0 else TotalQty(events[..|events| - 1]) + events[|events| - 1].awardQty
  }

  /**
   The net quantity is the total vested on or before the cutoff minus the
   total cancelled on or before it; events of any other type do not count.
   */
  lemma {:induction false} NetQuantityIsVestedMinusCancelled(events: seq<EquityEvent>, asOf: Date)
    ensures NetQuantity(events, asOf)
         == TotalQty(Selected(events, Vest, asOf)) - TotalQty(Selected(events, Cancel, asOf))
    decreases |events|
  {
    if |events| > 0 {
      var prefix := events[..|events| - 1];
      var e := events[|events| - 1];
      NetQuantityIsVestedMinusCancelled(prefix, asOf);
      TotalQtyAppend(Selected(prefix, Vest, asOf), if e.eventType == Vest && OnOrBefore(e.eventDate, asOf) then [e] else []);
      TotalQtyAppend(Selected(prefix, Cancel, asOf), if e.eventType == Cancel && OnOrBefore(e.eventDate, asOf) then [e] else []);
    }
  }

  lemma {:induction false} TotalQtyAppend(a: seq<EquityEvent>, b: seq<EquityEvent>)
    ensures TotalQty(a + b) == TotalQty(a) + TotalQty(b)
    decreases |b|
  {
    if |b| == 0 {
      assert a + b == a;
    } else {
      var b' := b[..|b| - 1];
      assert (a + b)[..|a + b| - 1] == a + b';
      assert (a + b)[|a + b| - 1] == b[|b| - 1];
      TotalQtyAppend(a, b');
    }
  }

  /** The events of `events` dated strictly after `d`, in order. */
  function After(events: seq<EquityEvent>, d: Date): (r: seq<EquityEvent>)
    ensures forall e | e in r :: e in events && Before(d, e.eventDate)
  {
    if |events| == 0 then []
    else
      var e := events[|events| - 1];
      After(events[..|events| - 1], d) + (if Before(d, e.eventDate) then [e] else [])
  }

  /**
   Moving the cutoff later keeps every contribution already counted and adds
   those of the events that become eligible.
   */
  lemma {:induction false} CutoffExtension(events: seq<EquityEvent>, d1: Date, d2: Date)
    requires OnOrBefore(d1, d2)
    ensures NetQuantity(events, d2) == NetQuantity(events, d1) + NetQuantity(After(events, d1), d2)
    decreases |events|
  {
    if |events| > 0 {
      var prefix := events[..|events| - 1];
      var e := events[|events| - 1];
      CutoffExtension(prefix, d1, d2);
      BeforeIsStrictTotalOrder(d2, d1, e.eventDate);
      BeforeIsStrictTotalOrder(e.eventDate, d1, d2);
      NetQuantityAppend(After(prefix, d1), if Before(d1, e.eventDate) then [e] else [], d2);
      assert NetQuantity([e], d2) == Contribution(e, d2);
    }
  }

  /** The cutoff is inclusive: an event dated on the cutoff counts in full. */
  lemma CutoffInclusive(s: seq<EquityEvent>, e: EquityEvent)
    ensures NetQuantity(s + [e], e.eventDate) == NetQuantity(s, e.eventDate) + SignedQty(e)
  {
  }

  /** An event dated after the cutoff is skipped entirely. */
  lemma LaterEventSkipped(s: seq<EquityEvent>, e: EquityEvent, asOf: Date)
    requires Before(asOf, e.eventDate)
    ensures NetQuantity(s + [e], asOf) == NetQuantity(s, asOf)
  {
  }

  /** Type tokens are compared exactly: anything but "VEST" or "CANCEL", in any case, adds nothing. */
  lemma OtherTypesContributeNothing(e: EquityEvent, asOf: Date)
    requires e.eventType != Vest && e.eventType != Cancel
    ensures Contribution(e, asOf) == 0
  {
  }

  /** An event built without a quantity has quantity zero and so never moves a total. */
  lemma DefaultQuantityContributesNothing(awardId: string, eventDate: Date, eventType: string, asOf: Date)
    ensures NewEquityEvent(awardId, eventDate, eventType).awardQty == 0
    ensures Contribution(NewEquityEvent(awardId, eventDate, eventType), asOf) == 0
  {
  }

  /** The inner replay loop: a running total over the award's events in stored order. */
  method ComputeNetQuantity(events: seq<EquityEvent>, asOf: Date) returns (total: int)
    ensures total == NetQuantity(events, asOf)
    ensures total == TotalQty(Selected(events, Vest, asOf)) - TotalQty(Selected(events, Cancel, asOf))
  {
    total := 0;
    var i := 0;
    while i < |events|
      invariant 0 <= i <= |events|
      invariant total == NetQuantity(events[..i], asOf)
    {
      var e := events[i];
      assert events[..i + 1][..i] == events[..i];
      if Before(asOf, e.eventDate) {
        i := i + 1;
        continue;
      }
      if e.eventType == Vest {
        total := total + e.awardQty;
      } else if e.eventType == Cancel {
        total := total - e.awardQty;
      }
      i := i + 1;
    }
    assert events[..i] == events;
    NetQuantityIsVestedMinusCancelled(events, asOf);
  }

  /** One line of the vesting schedule. */
  datatype StatusRow = StatusRow(employeeId: string, employeeName: string, awardId: string, total: int)

  /**
   The row the cap table owes for an owned (employee, award) pair: the
   employee's id and name, the award id and the award's net quantity as of
   the cutoff.
   */
  ghost predicate IsStatusRow(t: CapTable, asOf: Date, r: StatusRow) {
    && r.employeeId in t.employeeMap
    && r.awardId in GetEquityAwards(t.employeeMap[r.employeeId].base)
    && r.employeeName == t.employeeMap[r.employeeId].base.fullName
    && r.total == NetQuantity(EventsOf(t, r.awardId), asOf)
  }

  /** No two rows of a schedule are for the same (employee, award) pair. */
  ghost predicate PairsDistinct(schedule: seq<StatusRow>) {
    forall i, j | 0 <= i < j < |schedule| ::
      schedule[i].employeeId != schedule[j].employeeId || schedule[i].awardId != schedule[j].awardId
  }

  /**
   The vesting schedule as of `asOf`: employees and their awards are visited
   in an unspecified order, and the result holds exactly one row per owned
   pair, zero totals included.
   */
  method GetAllEmployeeVestingStatus(t: CapTable, asOf: Date) returns (schedule: seq<StatusRow>)
    ensures forall r :: r in schedule <==> IsStatusRow(t, asOf, r)
    ensures PairsDistinct(schedule)
  {
    schedule := [];
    var pending := t.employeeMap.Keys;
    while pending != {}
      invariant pending <= t.employeeMap.Keys
      invariant forall r :: r in schedule <==> IsStatusRow(t, asOf, r) && r.employeeId !in pending
      invariant PairsDistinct(schedule)
      decreases pending
    {
      var employeeId :| employeeId in pending;
      var employee := t.employeeMap[employeeId];
      var awards := GetEquityAwards(employee.base);
      ghost var earlier := schedule;
      while awards != {}
        invariant awards <= GetEquityAwards(employee.base)
        invariant forall r :: r in schedule <==>
          r in earlier || (IsStatusRow(t, asOf, r) && r.employeeId == employeeId && r.awardId !in awards)
        invariant PairsDistinct(schedule)
        decreases awards
      {
        var awardId :| awardId in awards;
        var total := ComputeNetQuantity(EventsOf(t, awardId), asOf);
        var row := StatusRow(employeeId, employee.base.fullName, awardId, total);
        forall i | 0 <= i < |schedule|
          ensures schedule[i].employeeId != employeeId || schedule[i].awardId != awardId
        {
          assert schedule[i] in schedule;
        }
        schedule := schedule + [row];
        awards := awards - {awardId};
      }
      pending := pending - {employeeId};
    }
  }

  /**
   Each owned pair has exactly one status row, whatever its total; a pair
   the employee does not own has none.
   */
  lemma StatusRowPerPair(t: CapTable, asOf: Date, employeeId: string, awardId: string)
    ensures employeeId in t.employeeMap && awardId in GetEquityAwards(t.employeeMap[employeeId].base) ==>
      IsStatusRow(t, asOf, StatusRow(employeeId, t.employeeMap[employeeId].base.fullName, awardId,
                                     NetQuantity(EventsOf(t, awardId), asOf)))
    ensures forall r, r' | IsStatusRow(t, asOf, r) && IsStatusRow(t, asOf, r')
                          && r.employeeId == r'.employeeId && r.awardId == r'.awardId :: r == r'
    ensures !(employeeId in t.employeeMap && awardId in GetEquityAwards(t.employeeMap[employeeId].base)) ==>
      forall r | IsStatusRow(t, asOf, r) :: r.employeeId != employeeId || r.awardId != awardId
  {
  }

  /**
   Nothing stops two employees owning one award id; each then gets a row
   for it carrying the award's full net quantity.
   */
  lemma SharedAwardListedTwice(t: CapTable, asOf: Date, id1: string, id2: string, awardId: string)
    requires id1 != id2 && id1 in t.employeeMap && id2 in t.employeeMap
    requires awardId in GetEquityAwards(t.employeeMap[id1].base) && awardId in GetEquityAwards(t.employeeMap[id2].base)
    ensures exists r1, r2 ::
              && r1 != r2 && IsStatusRow(t, asOf, r1) && IsStatusRow(t, asOf, r2)
              && r1.awardId == awardId && r2.awardId == awardId && r1.total == r2.total
  {
    var q := NetQuantity(EventsOf(t, awardId), asOf);
    var r1 := StatusRow(id1, t.employeeMap[id1].base.fullName, awardId, q);
    var r2 := StatusRow(id2, t.employeeMap[id2].base.fullName, awardId, q);
    assert IsStatusRow(t, asOf, r1) && IsStatusRow(t, asOf, r2);
  }

  /**
   In a well-formed table every award a status row reports is indexed with a
   non-empty event list, so reading it never creates an entry.
   */
  lemma OwnedAwardsAreIndexed(t: CapTable, asOf: Date, r: StatusRow)
    requires WellFormed(t) && IsStatusRow(t, asOf, r)
    ensures r.awardId in t.equityEventMap && EventsOf(t, r.awardId) == t.equityEventMap[r.awardId]
    ensures |EventsOf(t, r.awardId)| > 0
  {
  }

  /**
   The cap table does not depend on the order of the ledger's rows, names
   aside: a reordered ledger ingests just as well, gives every award the
   same net quantity at every cutoff, and gives every employee the same
   awards. Only the name, taken from an employee's first row, may differ.
   */
  lemma LedgerOrderIndependent(t: CapTable, rows1: seq<Row>, rows2: seq<Row>,
                               awardId: string, employeeId: string, asOf: Date)
    requires multiset(rows1) == multiset(rows2)
    requires Ingest(t, rows1).halt.None?
    ensures Ingest(t, rows2).halt.None?
    ensures NetQuantity(EventsOf(Ingest(t, rows1).table, awardId), asOf)
         == NetQuantity(EventsOf(Ingest(t, rows2).table, awardId), asOf)
    ensures employeeId in Ingest(t, rows1).table.employeeMap <==> employeeId in Ingest(t, rows2).table.employeeMap
    ensures employeeId in Ingest(t, rows1).table.employeeMap ==>
      GetEquityAwards(Ingest(t, rows1).table.employeeMap[employeeId].base)
      == GetEquityAwards(Ingest(t, rows2).table.employeeMap[employeeId].base)
  {
    RowsPermutation(rows1, rows2, employeeId);
    IngestSucceedsIff(t, rows1);
    IngestSucceedsIff(t, rows2);
    IngestEvents(t, rows1, awardId);
    IngestEvents(t, rows2, awardId);
    EventsForPermutation(rows1, rows2, awardId);
    NetQuantityPermutation(EventsFor(rows1, awardId), EventsFor(rows2, awardId), asOf);
    NetQuantityAppend(EventsOf(t, awardId), EventsFor(rows1, awardId), asOf);
    NetQuantityAppend(EventsOf(t, awardId), EventsFor(rows2, awardId), asOf);
    IngestNames(t, rows1, employeeId);
    IngestNames(t, rows2, employeeId);
    FirstNameForSome(rows1, employeeId);
    FirstNameForSome(rows2, employeeId);
    IngestAwards(t, rows1, employeeId);
    IngestAwards(t, rows2, employeeId);
  }
}

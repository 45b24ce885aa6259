/** One ledger entry against an award: its date, its raw type token and a quantity. */
module EquityEvents {
  import opened Dates

  datatype EquityEvent = EquityEvent(awardId: string, eventDate: Date, eventType: string, awardQty: int)

  /**
   Builds an event from its fields as given; the type token is kept raw and
   the quantity defaults to zero when the caller omits it.
   */
  function NewEquityEvent(awardId: string, eventDate: Date, eventType: string, awardQty: int := 0): (e: EquityEvent)
    ensures e.awardId == awardId && e.eventDate == eventDate
    ensures e.eventType == eventType && e.awardQty == awardQty
  {
    EquityEvent(awardId, eventDate, eventType, awardQty)
  }
}

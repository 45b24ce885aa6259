/**
 A shareholder: an identity, a display name and the set of equity award
 ids it holds. Award ids are only ever added, never removed.
 */
module ShareHolders {

  datatype ShareHolder = ShareHolder(shareholderId: string, fullName: string, equityAwards: set<string>)

  /** A new shareholder holds no awards yet. */
  function NewShareHolder(fullName: string, shareholderId: string): (h: ShareHolder)
    ensures h.shareholderId == shareholderId && h.fullName == fullName
    ensures GetEquityAwards(h) == {}
  {
    ShareHolder(shareholderId, fullName, {})
  }

  /** Records that the holder owns `awardId`; set semantics, so a repeat is a no-op. */
  function AddEquityAward(h: ShareHolder, awardId: string): (h': ShareHolder)
    ensures awardId in GetEquityAwards(h')
    ensures GetEquityAwards(h) <= GetEquityAwards(h')
    ensures GetEquityAwards(h') - GetEquityAwards(h) <= {awardId}
    ensures h'.shareholderId == h.shareholderId && h'.fullName == h.fullName
  {
    h.(equityAwards := h.equityAwards + {awardId})
  }

  function GetEquityAwards(h: ShareHolder): set<string> {
    h.equityAwards
  }

  /** Adding an award id the holder already has changes nothing. */
  lemma AddEquityAwardIdempotent(h: ShareHolder, awardId: string)
    ensures AddEquityAward(AddEquityAward(h, awardId), awardId) == AddEquityAward(h, awardId)
    ensures awardId in GetEquityAwards(h) ==> AddEquityAward(h, awardId) == h
  {
  }

  /** The getter sees exactly the ids the holder was seeded with plus those added. */
  lemma GetAfterAdd(h: ShareHolder, awardId: string)
    ensures GetEquityAwards(AddEquityAward(h, awardId)) == GetEquityAwards(h) + {awardId}
  {
  }

  /** Adds the award ids of `awardIds` one after another. */
  function AddEquityAwards(h: ShareHolder, awardIds: seq<string>): ShareHolder {
    if |awardIds| == 0 then h
    else AddEquityAward(AddEquityAwards(h, awardIds[..|awardIds| - 1]), awardIds[|awardIds| - 1])
  }

  /**
   After any sequence of additions the award set is the old set plus the
   added ids, whatever their order or repetition, and identity and name
   are untouched.
   */
  lemma {:induction false} AddEquityAwardsIsUnion(h: ShareHolder, awardIds: seq<string>)
    ensures GetEquityAwards(AddEquityAwards(h, awardIds)) == GetEquityAwards(h) + set a | a in awardIds
    ensures AddEquityAwards(h, awardIds).shareholderId == h.shareholderId
    ensures AddEquityAwards(h, awardIds).fullName == h.fullName
  {
    if |awardIds| > 0 {
      var prefix := awardIds[..|awardIds| - 1];
      AddEquityAwardsIsUnion(h, prefix);
      assert awardIds == prefix + [awardIds[|awardIds| - 1]];
      assert (set a | a in awardIds) == (set a | a in prefix) + {awardIds[|awardIds| - 1]};
    }
  }
}

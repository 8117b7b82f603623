/**
 * The broker-code pool: the in-memory table of broker codes with the filter
 * of available codes and the in-place "mark used" update, and the two
 * database operations that consult it (saving a publication, statistics).
 * The database itself is replaced by parameters saying whether each of its
 * calls succeeds and what it returns.
 */
module Database {
  import opened Wrappers
  import opened Text
  import Publisher

  /** A reading of the clock (`datetime.now()`). */
  type Instant = nat

  /** One row of the code table. */
  datatype CodeEntry = CodeEntry(
    code: string,
    adDate: Option<string>,
    highlighted: Option<string>,
    inUse: bool,
    property: Option<string>,
    usedAt: Option<Instant>)

  /** A code already running an ad on the given date. */
  function Active(code: string, adDate: string, highlighted: string): CodeEntry
  {
    CodeEntry(code, Some(adDate), Some(highlighted), true, None, None)
  }

  /** A code with no ad. */
  function Free(code: string): CodeEntry
  {
    CodeEntry(code, None, None, false, None, None)
  }

  /** The codes running ads when the program starts. */
  const ActiveBlock: seq<CodeEntry> := [
    Active("AP11007", "17/05/2025", "SIM"),
    Active("AP10157", "17/05/2025", "SIM"),
    Active("AP11074", "17/05/2025", "SIM"),
    Active("AP09970", "17/05/2025", "NAO"),
    Active("AP10522", "17/05/2025", "SIM"),
    Active("CA12203", "14/06/2025", "SIM")
  ]

  /** The numbers of the free "HA" codes, in ascending order. */
  const HaNumbers: seq<nat> := [
    11, 12, 13, 14, 15, 16, 17, 18, 20, 21, 22, 23, 24, 25, 26,
    40, 41, 42, 43, 44, 45, 46, 47, 48, 49, 50, 51, 52, 53, 54, 55, 56, 57, 58]

  /** "HA" followed by the number in five digits: 11 gives "HA00011". */
  function HaCode(n: nat): string
  {
    "HA" + ZeroPad(n, 5)
  }

  /** The free "HA" codes, "HA00011" to "HA00058". */
  const HaBlock: seq<CodeEntry> := seq(|HaNumbers|, k requires 0 <= k < |HaNumbers| => Free(HaCode(HaNumbers[k])))

  /** The free "PT" codes. */
  const PtBlock: seq<CodeEntry> := [Free("PT01537"), Free("PT01478"), Free("PT01479"), Free("PT01480")]

  /** The table as the program starts with it: six codes in use, thirty-eight free. */
  const InitialTable: seq<CodeEntry> := ActiveBlock + HaBlock + PtBlock

  predicate UniqueCodes(t: seq<CodeEntry>)
  {
    forall i, j :: 0 <= i < j < |t| ==> t[i].code != t[j].code
  }

  /**
   * The table's invariant: codes are unique, an entry is in use exactly when
   * it has an ad date or an associated property, and it has an associated
   * property exactly when it has a time of use.
   */
  predicate WellFormed(t: seq<CodeEntry>)
  {
    UniqueCodes(t)
    && forall i :: 0 <= i < |t| ==>
      (t[i].inUse <==> t[i].adDate.Some? || t[i].property.Some?)
      && (t[i].property.Some? <==> t[i].usedAt.Some?)
  }

  /** Numbers increasing step by step increase between any two positions. */
  lemma {:induction false} IncreasingPairwise(s: seq<nat>)
    requires forall k :: 0 <= k < |s| - 1 ==> s[k] < s[k + 1]
    ensures forall i, j :: 0 <= i < j < |s| ==> s[i] < s[j]
    decreases |s|
  {
    if |s| > 1 {
      IncreasingPairwise(s[1..]);
      forall i, j | 0 <= i < j < |s|
        ensures s[i] < s[j]
      {
        if i == 0 {
          if j > 1 {
            assert s[1..][0] == s[1] && s[1..][j - 1] == s[j];
          }
        } else {
          assert s[1..][i - 1] == s[i] && s[1..][j - 1] == s[j];
        }
      }
    }
  }

  /** Different numbers give different "HA" codes. */
  lemma HaCodeInjective(a: nat, b: nat)
    requires HaCode(a) == HaCode(b)
    ensures a == b
  {
    assert ZeroPad(a, 5) == HaCode(a)[2..];
    assert ZeroPad(b, 5) == HaCode(b)[2..];
    ParseZeroPad(a, 5);
    ParseZeroPad(b, 5);
  }

  lemma UniqueAppend(a: seq<CodeEntry>, b: seq<CodeEntry>)
    requires UniqueCodes(a) && UniqueCodes(b)
    requires forall i, j :: 0 <= i < |a| && 0 <= j < |b| ==> a[i].code != b[j].code
    ensures UniqueCodes(a + b)
  {
  }

  lemma SmallBlocksUnique()
    ensures UniqueCodes(ActiveBlock) && UniqueCodes(PtBlock)
  {
  }

  /** The "HA" codes are unique, free, and start with 'H'. */
  lemma HaBlockFacts()
    ensures |HaBlock| == 34 && UniqueCodes(HaBlock)
    ensures forall k :: 0 <= k < |HaBlock| ==>
      HaBlock[k] == Free(HaBlock[k].code) && |HaBlock[k].code| > 0 && HaBlock[k].code[0] == 'H'
  {
    IncreasingPairwise(HaNumbers);
    forall i, j | 0 <= i < j < |HaBlock|
      ensures HaBlock[i].code != HaBlock[j].code
    {
      if HaBlock[i].code == HaBlock[j].code {
        HaCodeInjective(HaNumbers[i], HaNumbers[j]);
      }
    }
  }

  /** The codes in use start with 'A' or 'C' and have an ad date, and the "PT" codes are free. */
  lemma OtherBlockFacts()
    ensures forall k :: 0 <= k < |ActiveBlock| ==>
      ActiveBlock[k].code[0] in "AC"
      && ActiveBlock[k].inUse && ActiveBlock[k].adDate.Some? && ActiveBlock[k].property.None? && ActiveBlock[k].usedAt.None?
    ensures forall k :: 0 <= k < |PtBlock| ==>
      PtBlock[k] == Free(PtBlock[k].code) && |PtBlock[k].code| > 0 && PtBlock[k].code[0] == 'P'
  {
  }

  /** The initial table has unique codes, and its entries in use are exactly those with an ad date. */
  lemma InitialTableWellFormed()
    ensures |InitialTable| == 44
    ensures WellFormed(InitialTable)
    ensures forall i :: 0 <= i < |InitialTable| ==> (InitialTable[i].inUse <==> InitialTable[i].adDate.Some?)
  {
    SmallBlocksUnique();
    HaBlockFacts();
    OtherBlockFacts();
    UniqueAppend(ActiveBlock, HaBlock);
    UniqueAppend(ActiveBlock + HaBlock, PtBlock);
  }

  // ---------------------------------------------------------------------------
  // Queries on the table
  // ---------------------------------------------------------------------------

  /** The entries not in use, in table order. */
  function Available(t: seq<CodeEntry>): (r: seq<CodeEntry>)
    ensures |r| <= |t|
  {
    if |t| == 0 then []
    else Listed(t[0]) + Available(t[1..])
  }

  /** The entry alone when it is free, nothing when it is in use. */
  function Listed(e: CodeEntry): (r: seq<CodeEntry>)
    ensures r == [] || r == [e]
  {
    if e.inUse then [] else [e]
  }

  /** An entry is listed as available exactly when it is in the table and not in use. */
  lemma {:induction false} AvailableMembers(t: seq<CodeEntry>, e: CodeEntry)
    ensures e in Available(t) <==> e in t && !e.inUse
    decreases |t|
  {
    if |t| > 0 {
      AvailableMembers(t[1..], e);
      assert t == [t[0]] + t[1..];
    }
  }

  /** Filtering distributes over concatenation, so table order is kept. */
  lemma {:induction false} AvailableConcat(a: seq<CodeEntry>, b: seq<CodeEntry>)
    ensures Available(a + b) == Available(a) + Available(b)
    decreases |a|
  {
    if |a| == 0 {
      assert a + b == b;
    } else {
      var head := Listed(a[0]);
      assert (a + b)[0] == a[0] && (a + b)[1..] == a[1..] + b;
      AvailableConcat(a[1..], b);
      assert Available(a + b) == head + (Available(a[1..]) + Available(b));
      assert head + (Available(a[1..]) + Available(b)) == (head + Available(a[1..])) + Available(b);
    }
  }

  /** The first position holding `code`, if any. */
  function FirstIndexOf(t: seq<CodeEntry>, code: string): (r: Option<nat>)
    ensures r.None? <==> forall i :: 0 <= i < |t| ==> t[i].code != code
    ensures r.Some? ==>
      r.value < |t| && t[r.value].code == code && forall i :: 0 <= i < r.value ==> t[i].code != code
  {
    if |t| == 0 then None
    else if t[0].code == code then Some(0)
    else match FirstIndexOf(t[1..], code)
      case None => None
      case Some(k) => Some(k + 1)
  }

  /** The entry after it has been marked used for `property` at `now`. */
  function MarkEntry(e: CodeEntry, property: string, now: Instant): CodeEntry
  {
    e.(inUse := true, property := Some(property), usedAt := Some(now))
  }

  /** The table after marking the first entry holding `code`; unchanged when there is none. */
  function Marked(t: seq<CodeEntry>, code: string, property: string, now: Instant): (r: seq<CodeEntry>)
    ensures |r| == |t|
  {
    match FirstIndexOf(t, code)
    case None => t
    case Some(i) => t[i := MarkEntry(t[i], property, now)]
  }

  /** Marking an unknown code changes nothing. */
  lemma MarkUnknown(t: seq<CodeEntry>, code: string, property: string, now: Instant)
    requires forall i :: 0 <= i < |t| ==> t[i].code != code
    ensures Marked(t, code, property, now) == t
  {
  }

  /**
   * Marking a code touches exactly the entry holding it: that entry is in
   * use, associated with `property` at `now`, and every other entry is as it was.
   */
  lemma MarkTouchesOneEntry(t: seq<CodeEntry>, code: string, property: string, now: Instant, i: nat)
    requires UniqueCodes(t) && i < |t| && t[i].code == code
    ensures Marked(t, code, property, now)[i] == MarkEntry(t[i], property, now)
    ensures forall j :: 0 <= j < |t| && j != i ==> Marked(t, code, property, now)[j] == t[j]
  {
    var k := FirstIndexOf(t, code);
    assert k == Some(i) by {
      if k.Some? && k.value != i {
        assert t[k.value].code == t[i].code;
      }
    }
  }

  /** Marking keeps the table well formed. */
  lemma MarkWellFormed(t: seq<CodeEntry>, code: string, property: string, now: Instant)
    requires WellFormed(t)
    ensures WellFormed(Marked(t, code, property, now))
  {
    var r := Marked(t, code, property, now);
    forall i, j | 0 <= i < j < |r|
      ensures r[i].code != r[j].code
    {
      assert r[i].code == t[i].code && r[j].code == t[j].code;
    }
  }

  /** The available list splits around any position of the table. */
  lemma {:induction false} AvailableAround(t: seq<CodeEntry>, i: nat)
    requires i < |t|
    ensures Available(t) == Available(t[..i]) + Listed(t[i]) + Available(t[i + 1..])
    decreases i
  {
    if i > 0 {
      var rest := t[1..];
      AvailableAround(rest, i - 1);
      assert rest[..i - 1] == t[..i][1..] && rest[i - 1] == t[i] && rest[i..] == t[i + 1..];
      var head, a, m, b := Listed(t[0]), Available(t[..i][1..]), Listed(t[i]), Available(t[i + 1..]);
      assert Available(t) == head + (a + m + b);
      assert Available(t[..i]) == head + a by {
        assert t[..i][0] == t[0];
      }
      assert head + (a + m + b) == (head + a) + m + b;
    }
  }

  /**
   * Marking an available code removes exactly that entry from the available
   * list, leaving the entries before and after it in order.
   */
  lemma MarkShrinksAvailable(t: seq<CodeEntry>, code: string, property: string, now: Instant, i: nat)
    requires UniqueCodes(t) && i < |t| && t[i].code == code && !t[i].inUse
    ensures Available(t) == Available(t[..i]) + [t[i]] + Available(t[i + 1..])
    ensures Available(Marked(t, code, property, now)) == Available(t[..i]) + Available(t[i + 1..])
    ensures |Available(Marked(t, code, property, now))| == |Available(t)| - 1
  {
    var r := Marked(t, code, property, now);
    assert |r| == |t| && r[..i] == t[..i] && r[i + 1..] == t[i + 1..] && r[i].inUse by {
      MarkTouchesOneEntry(t, code, property, now, i);
    }
    AvailableDropOne(t, r, i);
  }

  /** Two tables differing only at `i`, free in the first and in use in the second. */
  lemma AvailableDropOne(t: seq<CodeEntry>, r: seq<CodeEntry>, i: nat)
    requires |r| == |t| && i < |t| && r[..i] == t[..i] && r[i + 1..] == t[i + 1..]
    requires !t[i].inUse && r[i].inUse
    ensures Available(t) == Available(t[..i]) + [t[i]] + Available(t[i + 1..])
    ensures Available(r) == Available(t[..i]) + Available(t[i + 1..])
    ensures |Available(r)| == |Available(t)| - 1
  {
    AvailableAround(t, i);
    AvailableAround(r, i);
    assert Available(r) == Available(t[..i]) + [] + Available(t[i + 1..]);
  }

  /** Marking a code in use again keeps it in use and overwrites its property and time. */
  lemma MarkAgainOverwrites(t: seq<CodeEntry>, code: string, p1: string, p2: string, t1: Instant, t2: Instant, i: nat)
    requires UniqueCodes(t) && i < |t| && t[i].code == code
    ensures var twice := Marked(Marked(t, code, p1, t1), code, p2, t2);
      twice[i].inUse && twice[i].property == Some(p2) && twice[i].usedAt == Some(t2)
      && Available(twice) == Available(Marked(t, code, p1, t1))
  {
    var once := Marked(t, code, p1, t1);
    MarkTouchesOneEntry(t, code, p1, t1, i);
    assert forall j, k :: 0 <= j < k < |once| ==> once[j].code == t[j].code && once[k].code == t[k].code;
    MarkTouchesOneEntry(once, code, p2, t2, i);
    var twice := Marked(once, code, p2, t2);
    AvailableAround(once, i);
    AvailableAround(twice, i);
    assert twice[..i] == once[..i] && twice[i + 1..] == once[i + 1..];
  }

  // ---------------------------------------------------------------------------
  // The pool and the database operations
  // ---------------------------------------------------------------------------

  /** The columns written to the listing's row when a publication is saved. */
  datatype ListingUpdate = ListingUpdate(
    property: string,
    brokerCode: string,
    publishedAt: Instant,
    adId: Option<string>,
    grade: Option<string>,
    highlighted: Publisher.Value)

  /** The figures reported by the statistics screen. */
  datatype Statistics = Statistics(totalProperties: nat, publishedToday: nat, codesAvailable: nat)

  /** What a count query returned: it raised, or it returned these rows. */
  datatype QueryResult = Raised | Rows(count: nat)

  class BrokerCodePool {
    var entries: seq<CodeEntry>

    ghost predicate Valid()
      reads this
    {
      WellFormed(entries)
    }

    /** The pool as the program loads it. */
    constructor ()
      ensures entries == InitialTable
      ensures Valid()
    {
      entries := InitialTable;
      InitialTableWellFormed();
    }

    /** The codes not in use, in table order. */
    function AvailableCodes(): (r: seq<CodeEntry>)
      reads this
      ensures r == Available(entries)
    {
      Available(entries)
    }

    /**
     * Marks the first entry holding `code` as used for `property` at `now`
     * and stops; with no such entry the table is left alone.
     */
    method MarkUsed(code: string, property: string, now: Instant)
      requires Valid()
      modifies this
      ensures entries == Marked(old(entries), code, property, now)
      ensures Valid()
    {
      MarkWellFormed(entries, code, property, now);
      var i := 0;
      while i < |entries|
        invariant 0 <= i <= |entries|
        invariant entries == old(entries)
        invariant forall j :: 0 <= j < i ==> entries[j].code != code
      {
        if entries[i].code == code {
          entries := entries[i := MarkEntry(entries[i], property, now)];
          return;
        }
        i := i + 1;
      }
    }

    /**
     * Saves a publication. The database client must be configured; the
     * update request needs the broker code and then the property code (a
     * missing key raises before anything is sent); the code is marked used
     * only after the update has returned. The highlight flag is written as
     * given, False when absent. Any failure returns false and leaves the
     * table as it was; a save that takes a free code makes one code fewer
     * available.
     */
    method SavePublication(
      publication: map<string, string>, highlighted: Option<Publisher.Value>,
      configured: bool, updateSucceeds: bool, updateTime: Instant, markTime: Instant)
      returns (saved: bool, request: Option<ListingUpdate>)
      requires Valid()
      modifies this
      ensures request.Some? <==> configured && "codigo_corretor" in publication && "codigo_imovel" in publication
      ensures request.Some? ==> request.value == ListingUpdate(
        publication["codigo_imovel"], publication["codigo_corretor"], updateTime,
        if "anuncio_id" in publication then Some(publication["anuncio_id"]) else None,
        if "nota" in publication then Some(publication["nota"]) else None,
        if highlighted.Some? then highlighted.value else Publisher.Bool(false))
      ensures saved <==> request.Some? && updateSucceeds
      ensures saved ==> entries == Marked(old(entries), publication["codigo_corretor"], publication["codigo_imovel"], markTime)
      ensures !saved ==> entries == old(entries)
      ensures saved && (exists i :: 0 <= i < |old(entries)| && old(entries)[i].code == publication["codigo_corretor"] && !old(entries)[i].inUse)
        ==> |Available(entries)| + 1 == |Available(old(entries))|
      ensures Valid()
    {
      request := None;
      if !configured || "codigo_corretor" !in publication || "codigo_imovel" !in publication {
        return false, None;
      }
      request := Some(ListingUpdate(
        publication["codigo_imovel"], publication["codigo_corretor"], updateTime,
        if "anuncio_id" in publication then Some(publication["anuncio_id"]) else None,
        if "nota" in publication then Some(publication["nota"]) else None,
        if highlighted.Some? then highlighted.value else Publisher.Bool(false)));
      if !updateSucceeds {
        return false, request;
      }
      forall i | 0 <= i < |entries| && entries[i].code == publication["codigo_corretor"] && !entries[i].inUse
        ensures |Available(Marked(entries, publication["codigo_corretor"], publication["codigo_imovel"], markTime))| + 1
          == |Available(entries)|
      {
        MarkShrinksAvailable(entries, publication["codigo_corretor"], publication["codigo_imovel"], markTime, i);
      }
      MarkUsed(publication["codigo_corretor"], publication["codigo_imovel"], markTime);
      saved := true;
    }

    /**
     * The statistics: the two row counts when the client is configured and
     * both queries return (an empty result counts 0), all zeros otherwise;
     * the number of available codes is reported on both paths.
     */
    function GetStatistics(configured: bool, total: QueryResult, today: QueryResult): (s: Statistics)
      reads this
      ensures s.codesAvailable == |Available(entries)|
      ensures configured && total.Rows? && today.Rows? ==> s.totalProperties == total.count && s.publishedToday == today.count
      ensures !(configured && total.Rows? && today.Rows?) ==> s.totalProperties == 0 && s.publishedToday == 0
    {
      if configured && total.Rows? && today.Rows? then
        Statistics(total.count, today.count, |Available(entries)|)
      else
        Statistics(0, 0, |Available(entries)|)
    }
  }

  /** At start-up thirty-eight codes are available. */
  lemma InitialAvailableCount()
    ensures |Available(InitialTable)| == 38
  {
    HaBlockFacts();
    OtherBlockFacts();
    AvailableAfterInUse(ActiveBlock, HaBlock + PtBlock);
    assert InitialTable == ActiveBlock + (HaBlock + PtBlock);
  }

  /** Behind a run of entries in use, only free entries: exactly those are available. */
  lemma AvailableAfterInUse(used: seq<CodeEntry>, free: seq<CodeEntry>)
    requires forall i :: 0 <= i < |used| ==> used[i].inUse
    requires forall i :: 0 <= i < |free| ==> !free[i].inUse
    ensures Available(used + free) == free
  {
    AvailableConcat(used, free);
    NoneFreeAvailable(used);
    AllFreeAvailable(free);
  }

  /** When every entry is in use, none is available. */
  lemma {:induction false} NoneFreeAvailable(t: seq<CodeEntry>)
    requires forall i :: 0 <= i < |t| ==> t[i].inUse
    ensures Available(t) == []
    decreases |t|
  {
    if |t| > 0 {
      NoneFreeAvailable(t[1..]);
    }
  }

  /** When no entry is in use, every entry is available. */
  lemma {:induction false} AllFreeAvailable(t: seq<CodeEntry>)
    requires forall i :: 0 <= i < |t| ==> !t[i].inUse
    ensures Available(t) == t
    decreases |t|
  {
    if |t| > 0 {
      AllFreeAvailable(t[1..]);
    }
  }
}

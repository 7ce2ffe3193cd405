/**
 * The crawl side of the KY crawler: what one fetch of a listing page
 * queues for parsing and for further crawling (`crawl_new`), the `s_date`
 * query value naming a month, the run of pages crawled for one month, and
 * the work items the crawl starts from (`crawl`).
 */
module Crawl {
  import opened Wrappers
  import opened Format
  import Extract

  /** A `(year, month, page)` tuple on the crawl queue. */
  datatype WorkItem = WorkItem(year: int, month: int, page: int)

  /**
   * The `s_date` query value: the year in four digits, then the month in
   * two, so that for a year and month that fit it is the six digits of
   * `100 * year + month`.
   */
  function SDate(year: int, month: int): (s: string)
    ensures |s| >= 6
    ensures 0 <= year <= 9999 && 0 <= month <= 99 ==>
      |s| == 6 && AllDigits(s) && Value(s) == 100 * year + month
  {
    var y, m := FormatInt(year, 4), FormatInt(month, 2);
    assert 0 <= year <= 9999 && 0 <= month <= 99 ==>
      |y + m| == 6 && AllDigits(y + m) && Value(y + m) == 100 * year + month
    by {
      if 0 <= year <= 9999 && 0 <= month <= 99 {
        assert Pow10(4) == 10000 && Pow10(2) == 100;
        FormatFits(year, 4);
        FormatFits(month, 2);
        ValueConcat(y, m);
      }
    }
    y + m
  }

  /** Reads a six-digit `s_date` back into its year and month. */
  function ParseSDate(s: string): (r: Option<(int, int)>)
    ensures r.Some? <==> |s| == 6 && AllDigits(s)
    ensures r.Some? ==> 0 <= r.value.0 <= 9999 && 0 <= r.value.1 <= 99
  {
    if |s| == 6 && AllDigits(s) then
      var y, m := s[..4], s[4..];
      assert AllDigits(y) && AllDigits(m) by {
        assert forall i :: 0 <= i < 4 ==> y[i] == s[i];
        assert forall i :: 0 <= i < 2 ==> m[i] == s[4 + i];
      }
      DigitsBound(y);
      DigitsBound(m);
      Some((Value(y), Value(m)))
    else None
  }

  lemma {:induction false} DigitsBound(s: string)
    requires AllDigits(s)
    ensures Value(s) < Pow10(|s|)
  {
    if s != [] {
      DigitsBound(s[..|s| - 1]);
    }
  }

  /**
   * For a year of at most four digits and a month of at most two, `s_date`
   * is six digits that read back as that year and month.
   */
  lemma SDateRoundTrip(year: int, month: int)
    requires 0 <= year <= 9999 && 0 <= month <= 99
    ensures |SDate(year, month)| == 6 && AllDigits(SDate(year, month))
    ensures ParseSDate(SDate(year, month)) == Some((year, month))
  {
    assert Pow10(4) == 10000 && Pow10(2) == 100;
    var y, m := FormatInt(year, 4), FormatInt(month, 2);
    FormatFits(year, 4);
    FormatFits(month, 2);
    assert (y + m)[..4] == y && (y + m)[4..] == m;
  }

  /** Distinct months in range are queried under distinct `s_date` values. */
  lemma SDateInjective(y1: int, m1: int, y2: int, m2: int)
    requires 0 <= y1 <= 9999 && 0 <= m1 <= 99 && 0 <= y2 <= 9999 && 0 <= m2 <= 99
    requires SDate(y1, m1) == SDate(y2, m2)
    ensures y1 == y2 && m1 == m2
  {
    SDateRoundTrip(y1, m1);
    SDateRoundTrip(y2, m2);
  }

  /**
   * What fetching a listing page comes to: the rows the table matched
   * (header row first) and whether the "no results" cell is present; an
   * HTTP error status; or any other exception.
   */
  datatype FetchOutcome =
    | Fetched(trs: seq<Extract.Row>, emptyMarker: bool)
    | HttpError(code: int)
    | Raised

  /** What one call to `crawl_new` puts on the two queues, or an exception that escapes it. */
  datatype Step =
    | Step(toParse: seq<seq<Extract.Row>>, toCrawl: seq<WorkItem>)
    | Escaped

  /**
   * The outcomes after which the next page of the same month is crawled. A
   * non-HTTP exception never leads on, the "no results" cell stops the month
   * whatever rows came with it, and of the HTTP errors only status 500 leads
   * on.
   */
  predicate FollowsUp(o: FetchOutcome): (b: bool)
    ensures o.Raised? ==> !b
    ensures o.Fetched? && o.emptyMarker ==> !b
    ensures o.Fetched? && !o.emptyMarker ==> (b <==> |o.trs| >= 2)
    ensures o.HttpError? ==> (b <==> o.code == 500)
  {
    || (o.Fetched? && |o.trs| > 1 && !o.emptyMarker)
    || (o.HttpError? && o.code == 500)
  }

  /**
   * `crawl_new` once the page is fetched: a page with data rows after the
   * header and without the "no results" cell sends its data rows to be
   * parsed and the next page to be crawled; a status 500 only sends the next
   * page; anything else sends nothing.
   */
  function CrawlNew(item: WorkItem, o: FetchOutcome): (r: Step)
    ensures r.Escaped? <==> o.Raised?
    ensures r.Step? ==>
      r.toCrawl == if FollowsUp(o) then [WorkItem(item.year, item.month, item.page + 1)] else []
    ensures r.Step? ==> (r.toParse != [] <==> o.Fetched? && FollowsUp(o))
    ensures r.Step? && r.toParse != [] ==> r.toParse == [o.trs[1..]]
  {
    match o
    case Fetched(trs, emptyMarker) =>
      var rows := if |trs| >= 1 then trs[1..] else [];
      if rows != [] && !emptyMarker then Step([rows], [WorkItem(item.year, item.month, item.page + 1)])
      else Step([], [])
    case HttpError(code) =>
      if code == 500 then Step([], [WorkItem(item.year, item.month, item.page + 1)])
      else Step([], [])
    case Raised => Escaped
  }

  /**
   * The pages of one month that get crawled, starting from `item`, when page
   * `p` of the month fetches as `site(p)`: each page queues the next one
   * until a page does not. `last` is a page at which the chain certainly
   * stops.
   */
  function MonthPages(site: int -> FetchOutcome, item: WorkItem, last: int): (visited: seq<WorkItem>)
    requires item.page <= last && !FollowsUp(site(last))
    ensures 1 <= |visited| <= last - item.page + 1
    ensures forall k :: 0 <= k < |visited| ==>
      visited[k] == WorkItem(item.year, item.month, item.page + k)
    ensures forall p :: item.page <= p < item.page + |visited| - 1 ==> FollowsUp(site(p))
    ensures !FollowsUp(site(item.page + |visited| - 1))
    decreases last - item.page
  {
    var r := CrawlNew(item, site(item.page));
    if r.Step? && r.toCrawl != [] then
      var rest := MonthPages(site, r.toCrawl[0], last);
      [item] + rest
    else [item]
  }

  /** A month given as its year and its month number. */
  datatype Month = Month(year: int, month: int)

  /** The twelve first-page items of one year, January first. */
  function YearItems(year: int): (items: seq<WorkItem>)
    ensures |items| == 12
    ensures forall i :: 0 <= i < 12 ==> items[i] == WorkItem(year, i + 1, 1)
  {
    seq(12, i requires 0 <= i < 12 => WorkItem(year, i + 1, 1))
  }

  /** The full sweep: the first page of every month from January 2004 through December of `lastYear`. */
  function Sweep(lastYear: int): (items: seq<WorkItem>)
    ensures |items| == if lastYear < 2004 then 0 else 12 * (lastYear - 2003)
    decreases lastYear - 2003
  {
    if lastYear < 2004 then [] else Sweep(lastYear - 1) + YearItems(lastYear)
  }

  /** Months counted from January of year 0. */
  function MonthIndex(item: WorkItem): int {
    12 * item.year + item.month
  }

  /** The `k`-th item of the sweep is the `k`-th month after December 2003. */
  lemma {:induction false} SweepAt(lastYear: int)
    ensures forall k :: 0 <= k < |Sweep(lastYear)| ==>
      var item := Sweep(lastYear)[k];
      item.page == 1 && 1 <= item.month <= 12 && MonthIndex(item) == 12 * 2004 + 1 + k
    decreases lastYear - 2003
  {
    if lastYear >= 2004 {
      SweepAt(lastYear - 1);
      var s, n := Sweep(lastYear), |Sweep(lastYear - 1)|;
      forall k | 0 <= k < |s|
        ensures s[k].page == 1 && 1 <= s[k].month <= 12 && MonthIndex(s[k]) == 12 * 2004 + 1 + k
      {
        if k < n {
          assert s[k] == Sweep(lastYear - 1)[k];
        } else {
          assert s[k] == YearItems(lastYear)[k - n];
        }
      }
    }
  }

  /** The sweep runs through the months in order, never repeating one. */
  lemma SweepOrdered(lastYear: int)
    ensures forall k, l :: 0 <= k < l < |Sweep(lastYear)| ==>
      MonthIndex(Sweep(lastYear)[k]) < MonthIndex(Sweep(lastYear)[l])
  {
    SweepAt(lastYear);
  }

  /**
   * Every month of every year from 2004 through `lastYear` is in the sweep,
   * including the months of the last year after the current one, and
   * nothing else is.
   */
  lemma SweepCovers(lastYear: int)
    ensures forall year, month :: 2004 <= year <= lastYear && 1 <= month <= 12 ==>
      Sweep(lastYear)[12 * (year - 2004) + month - 1] == WorkItem(year, month, 1)
    ensures forall item :: item in Sweep(lastYear) ==>
      2004 <= item.year <= lastYear && 1 <= item.month <= 12 && item.page == 1
  {
    SweepAt(lastYear);
  }

  /**
   * The work items `crawl` queues before waiting: the given month, or with
   * `new` the current month, or else the full sweep up to the current year.
   */
  method Seed(target: Option<Month>, isNew: bool, today: Month) returns (seeds: seq<WorkItem>)
    ensures target.Some? ==> seeds == [WorkItem(target.value.year, target.value.month, 1)]
    ensures target.None? && isNew ==> seeds == [WorkItem(today.year, today.month, 1)]
    ensures target.None? && !isNew ==> seeds == Sweep(today.year)
  {
    if target.Some? {
      return [WorkItem(target.value.year, target.value.month, 1)];
    } else if isNew {
      return [WorkItem(today.year, today.month, 1)];
    }
    seeds := [];
    var year := 2004;
    while year < today.year + 1
      invariant 2004 <= year && (year <= today.year + 1 || year == 2004)
      invariant seeds == Sweep(year - 1)
      decreases today.year + 1 - year
    {
      var month := 1;
      while month < 12 + 1
        invariant 1 <= month <= 13
        invariant seeds == Sweep(year - 1) + YearItems(year)[..month - 1]
      {
        seeds := seeds + [WorkItem(year, month, 1)];
        month := month + 1;
      }
      year := year + 1;
    }
  }
}

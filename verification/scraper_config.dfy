/** The scraper's configuration checks and crawl bounds (scraper.py): the
    postal-code filter validation run before any crawling, the page-count
    clamp, the pages the crawl visits, and the postal-code filter test.
 */
module ScraperConfig {

  /** `config["postal_code_filters"]`: each range is a JSON list that should
      hold `[start, end]`; `individual` lists single accepted codes. */
  datatype PostalFilters = PostalFilters(ranges: seq<seq<int>>, individual: seq<int>)

  datatype RangeProblem = WrongArity | StartAfterEnd

  /** The outcome of validation; `Invalid` carries the ValueError's reason and
      the offending range, as the raised exception does. */
  datatype Validation = Valid | Invalid(problem: RangeProblem, range: seq<int>)

  /** The first page of search results the crawl visits (hard-coded). */
  const FirstPage: int := 400

  /** A range the configuration accepts: exactly two numbers, start <= end. */
  predicate WellFormedRange(r: seq<int>) {
    |r| == 2 && r[0] <= r[1]
  }

  /** Range `i` is the first one validation rejects. */
  predicate FirstBadRange(ranges: seq<seq<int>>, i: int) {
    && 0 <= i < |ranges|
    && !WellFormedRange(ranges[i])
    && forall j :: 0 <= j < i ==> WellFormedRange(ranges[j])
  }

  /** `_validate_config`: ranges are checked in order and the first bad one
      raises, with a reason naming what is wrong with it. */
  function ValidateConfig(ranges: seq<seq<int>>): (v: Validation)
    ensures v.Valid? <==> forall i :: 0 <= i < |ranges| ==> WellFormedRange(ranges[i])
    ensures v.Invalid? ==>
              exists i :: FirstBadRange(ranges, i) && v.range == ranges[i]
                          && (v.problem == WrongArity <==> |ranges[i]| != 2)
  {
    if |ranges| == 0 then Valid
    else if |ranges[0]| != 2 then Invalid(WrongArity, ranges[0])
    else if ranges[0][0] > ranges[0][1] then Invalid(StartAfterEnd, ranges[0])
    else
      var v := ValidateConfig(ranges[1..]);
      assert v.Invalid? ==> exists i :: FirstBadRange(ranges, i) && v.range == ranges[i]
                                        && (v.problem == WrongArity <==> |ranges[i]| != 2) by {
        if v.Invalid? {
          var i :| FirstBadRange(ranges[1..], i) && v.range == ranges[1..][i]
                   && (v.problem == WrongArity <==> |ranges[1..][i]| != 2);
          assert FirstBadRange(ranges, i + 1);
        }
      }
      assert v.Valid? ==> forall i :: 0 <= i < |ranges| ==> WellFormedRange(ranges[i]) by {
        if v.Valid? {
          forall i | 0 <= i < |ranges| ensures WellFormedRange(ranges[i]) {
            if i > 0 { assert ranges[i] == ranges[1..][i - 1]; }
          }
        }
      }
      v
  }

  /** `_get_pages`: the requested count, lowered to the maximum when above it.
      There is no lower clamp. */
  function GetPages(pages: int, maxPages: int): (r: int)
    ensures r <= maxPages
    ensures pages <= maxPages ==> r == pages
    ensures pages > maxPages ==> r == maxPages
  {
    if pages > maxPages then maxPages else pages
  }

  /** `list(range(lo, hi))`. */
  function PyRange(lo: int, hi: int): (r: seq<int>)
    ensures |r| == if hi <= lo then 0 else hi - lo
    ensures forall i :: 0 <= i < |r| ==> r[i] == lo + i
    decreases hi - lo
  {
    if hi <= lo then [] else [lo] + PyRange(lo + 1, hi)
  }

  /** The page numbers `scrape` fetches: `range(400, total_pages + 1)`. */
  function CrawlPages(totalPages: int): seq<int>
  {
    PyRange(FirstPage, totalPages + 1)
  }

  /** The crawl visits exactly the pages from 400 to the clamped total, in
      increasing order, and none at all when the total is below 400. */
  lemma CrawlPagesSpec(pages: int, maxPages: int)
    ensures var ps := CrawlPages(GetPages(pages, maxPages));
            && (|ps| == 0 <==> GetPages(pages, maxPages) < FirstPage)
            && (forall p :: p in ps <==> FirstPage <= p <= GetPages(pages, maxPages))
            && (forall i, j :: 0 <= i < j < |ps| ==> ps[i] < ps[j])
  {
    var total := GetPages(pages, maxPages);
    var ps := CrawlPages(total);
    forall p | FirstPage <= p <= total ensures p in ps {
      assert ps[p - FirstPage] == p;
    }
  }

  /** `postal_range[0] <= postal_code <= postal_range[1]`. */
  predicate Within(range: seq<int>, code: int)
    requires |range| >= 2
  {
    range[0] <= code <= range[1]
  }

  /** Some configured range holds the code. */
  predicate InSomeRange(ranges: seq<seq<int>>, code: int)
    requires forall i :: 0 <= i < |ranges| ==> |ranges[i]| >= 2
  {
    exists i :: 0 <= i < |ranges| && Within(ranges[i], code)
  }

  /** The postal filter of `_process_bolig`: every range is tested (no early
      exit), then the individual list; the code passes when it lies inside
      some inclusive range or is listed individually. Ranges hold two numbers
      here because `scrape` validates them before any listing is processed. */
  method PostalFilterPasses(f: PostalFilters, code: int) returns (pass: bool)
    requires forall i :: 0 <= i < |f.ranges| ==> |f.ranges[i]| >= 2
    ensures pass <==> InSomeRange(f.ranges, code) || code in f.individual
  {
    var inRange := false;
    var inIndividual := false;
    var i := 0;
    while i < |f.ranges|
      invariant 0 <= i <= |f.ranges|
      invariant inRange <==> exists j :: 0 <= j < i && Within(f.ranges[j], code)
    {
      if f.ranges[i][0] <= code <= f.ranges[i][1] {
        inRange := true;
      }
      i := i + 1;
    }
    if code in f.individual {
      inIndividual := true;
    }
    pass := inRange || inIndividual;
  }

  /** The postal filter as a function, for use in the listing decision. */
  predicate PostalAccepted(f: PostalFilters, code: int)
    requires forall i :: 0 <= i < |f.ranges| ==> |f.ranges[i]| >= 2
  {
    InSomeRange(f.ranges, code) || code in f.individual
  }

  /** Both endpoints of a configured range pass the filter, and so does every
      code between them. */
  lemma RangeBoundsAccepted(f: PostalFilters, i: int, code: int)
    requires forall k :: 0 <= k < |f.ranges| ==> |f.ranges[k]| >= 2
    requires 0 <= i < |f.ranges|
    requires f.ranges[i][0] <= code <= f.ranges[i][1]
    ensures PostalAccepted(f, code)
  {
    assert Within(f.ranges[i], code);
  }
}

/** Date ranges, pagination and gross margin helpers of the management
    dashboard (itihai_plus/keiei/includes/functions.php). The current date is
    a parameter; PHP's `ceil` of a quotient is exact; years are from 1 on. */
module Keiei {
  import opened Wrappers
  import opened Text

  // ---------------------------------------------------------------------------
  // Gross margin (calculateGrossMargin)
  // ---------------------------------------------------------------------------

  /** Percentage of sales left after cost; 0 when there are no sales. */
  function GrossMargin(sales: real, cost: real): (r: real)
    ensures sales == 0.0 ==> r == 0.0
    ensures sales != 0.0 ==> r * sales == (sales - cost) * 100.0
  {
    if sales == 0.0 then 0.0 else (sales - cost) / sales * 100.0
  }

  /** No cost is a 100% margin, cost equal to sales a 0% margin, and for
      positive sales the margin grows as the cost falls. */
  lemma GrossMarginLandmarks(sales: real, cost: real, cheaper: real)
    ensures sales != 0.0 ==> GrossMargin(sales, 0.0) == 100.0
    ensures GrossMargin(sales, sales) == 0.0
    ensures sales > 0.0 && cheaper <= cost ==> GrossMargin(sales, cheaper) >= GrossMargin(sales, cost)
  {
    if sales > 0.0 && cheaper <= cost {
      var a, b := GrossMargin(sales, cheaper), GrossMargin(sales, cost);
      assert (a - b) * sales == (cost - cheaper) * 100.0;
    }
  }

  // ---------------------------------------------------------------------------
  // Calendar
  // ---------------------------------------------------------------------------

  predicate IsLeap(year: int) {
    year % 4 == 0 && (year % 100 != 0 || year % 400 == 0)
  }

  predicate ValidMonth(month: int) {
    1 <= month <= 12
  }

  /** Days in a Gregorian month. */
  function DaysInMonth(year: int, month: int): (d: nat)
    requires ValidMonth(month)
    ensures 28 <= d <= 31
    ensures month == 2 ==> (d == 29 <==> IsLeap(year))
  {
    if month == 2 then (if IsLeap(year) then 29 else 28)
    else if month == 4 || month == 6 || month == 9 || month == 11 then 30
    else 31
  }

  /** Today, as the clock would report it. */
  datatype Today = Today(year: int, month: int)

  /** `%02d`-style zero padding of a number's digits to a minimum width. */
  function ZeroPad(s: string, width: nat): (r: string)
    ensures |r| == if |s| >= width then |s| else width
    ensures r[|r| - |s|..] == s
    decreases width - |s|
  {
    if |s| >= width then s
    else
      var t := "0" + s;
      var r := ZeroPad(t, width);
      assert r[|r| - |s|..] == r[|r| - |t|..][1..] == t[1..] == s;
      r
  }

  /** PHP date format `Y`: the year with at least four digits. */
  function YearY(year: nat): (r: string)
    ensures |r| >= 4
  {
    ZeroPad(NatToString(year), 4)
  }

  function DashedDate(yearText: string, month: nat, day: nat): (r: string)
    requires month < 100 && day < 100
    ensures |r| == |yearText| + 6
  {
    yearText + "-" + Pad2(month) + "-" + Pad2(day)
  }

  /** The year printed by `date('Y', ...)` and by `%d` agree from year 1000 on. */
  lemma YearFormatsAgree(year: nat)
    requires year >= 1000
    ensures YearY(year) == IntToString(year)
  {
    NatToStringLength(year);
  }

  lemma {:induction false} NatToStringLength(n: nat)
    ensures n >= 1000 ==> |NatToString(n)| >= 4
  {
    if n >= 10 {
      NatToStringLength(n / 10);
      if n >= 1000 {
        assert |NatToString(n / 10)| >= 3 by {
          NatToStringLengthLow(n / 10);
        }
      }
    }
  }

  lemma {:induction false} NatToStringLengthLow(n: nat)
    ensures n >= 100 ==> |NatToString(n)| >= 3
    ensures n >= 10 ==> |NatToString(n)| >= 2
  {
    if n >= 10 {
      NatToStringLengthLow(n / 10);
    }
  }

  // ---------------------------------------------------------------------------
  // Month range (getMonthRange)
  // ---------------------------------------------------------------------------

  /** First and last day of a month, as `Y-m-01` and `Y-m-t`; a missing
      month means the current one. Parsing the month text is not modelled:
      the month arrives as a year and a month number. */
  function MonthRange(month: Option<(nat, int)>, today: Today): (r: (string, string))
    requires month.Some? ==> month.value.0 >= 1 && ValidMonth(month.value.1)
    requires month.None? ==> today.year >= 1 && ValidMonth(today.month)
    ensures |r.0| == |r.1| >= 10
  {
    var (y, m) := if month.Some? then month.value else (today.year as nat, today.month);
    (DashedDate(YearY(y), m, 1), DashedDate(YearY(y), m, DaysInMonth(y, m)))
  }

  /** The range runs from day 01 to the month's last day, which is the 29th
      of February exactly in leap years; both ends begin with the requested
      year and month. */
  lemma MonthRangeEnds(y: nat, m: int, today: Today)
    requires y >= 1 && ValidMonth(m)
    ensures var r := MonthRange(Some((y, m)), today);
      && r.0 == YearY(y) + "-" + Pad2(m) + "-01"
      && r.1 == YearY(y) + "-" + Pad2(m) + "-" + Pad2(DaysInMonth(y, m))
      && r.0[..|r.0| - 2] == r.1[..|r.1| - 2]
      && r.0[|r.0| - 2..] == "01"
      && r.1[|r.1| - 2..] == Pad2(DaysInMonth(y, m))
      && (m == 2 ==> (r.1[|r.1| - 2..] == "29" <==> IsLeap(y)))
  {
    DashedDateDay(YearY(y), m, 1);
    DashedDateDay(YearY(y), m, DaysInMonth(y, m));
    assert Pad2(1) == "01";
    var r := MonthRange(Some((y, m)), today);
    assert r.0 == r.0[..|r.0| - 2] + r.0[|r.0| - 2..];
    assert r.1 == r.1[..|r.1| - 2] + r.1[|r.1| - 2..];
    if m == 2 {
      assert Pad2(29) == "29";
      assert Pad2(28)[1] != '9';
    }
  }

  /** Without a month the range is the current month's. */
  lemma MonthRangeDefaultIsCurrent(today: Today)
    requires today.year >= 1 && ValidMonth(today.month)
    ensures MonthRange(None, today) == MonthRange(Some((today.year as nat, today.month)), today)
  {
  }

  /** A dashed date ends in its two day digits, after a part that does not
      depend on the day. */
  lemma DashedDateDay(yearText: string, month: nat, day: nat)
    requires month < 100 && day < 100
    ensures var x := DashedDate(yearText, month, day);
      |x| >= 2 && x[..|x| - 2] == yearText + "-" + Pad2(month) + "-" && x[|x| - 2..] == Pad2(day)
  {
    var prefix := yearText + "-" + Pad2(month) + "-";
    assert DashedDate(yearText, month, day) == prefix + Pad2(day);
  }

  // ---------------------------------------------------------------------------
  // Quarter range (getQuarterRange)
  // ---------------------------------------------------------------------------

  /** `ceil(month / 3)`. */
  function DefaultQuarter(month: int): int {
    -((-month) / 3)
  }

  function QuarterStartMonth(q: int): int { (q - 1) * 3 + 1 }
  function QuarterEndMonth(q: int): int { q * 3 }

  /** `Y-m-d` texts of a quarter's first and last day; the year is printed
      with `%d`. A quarter outside 1..4 gives a month the calendar rejects,
      which is an error. */
  function QuarterRange(year: Option<int>, quarter: Option<int>, today: Today): (r: Result<(string, string), string>)
    requires year.Some? ==> year.value >= 1
    requires year.None? ==> today.year >= 1
    ensures r.Ok? <==> 1 <= quarter.GetOr(DefaultQuarter(today.month)) <= 4
  {
    var y := year.GetOr(today.year);
    var q := quarter.GetOr(DefaultQuarter(today.month));
    var startMonth := QuarterStartMonth(q);
    var endMonth := QuarterEndMonth(q);
    if !ValidMonth(endMonth) then Err("Invalid date")
    else
      Ok((DashedDate(IntToString(y), startMonth, 1),
          DashedDate(IntToString(y), endMonth, DaysInMonth(y, endMonth))))
  }

  /** The default quarter of a valid month lies in 1..4 and is the quarter
      whose months contain it. */
  lemma DefaultQuarterContainsMonth(month: int)
    requires ValidMonth(month)
    ensures 1 <= DefaultQuarter(month) <= 4
    ensures QuarterStartMonth(DefaultQuarter(month)) <= month <= QuarterEndMonth(DefaultQuarter(month))
  {
  }

  /** The four quarters partition the year: each month lies in exactly one. */
  lemma QuartersPartitionYear(month: int, q: int)
    requires ValidMonth(month) && 1 <= q <= 4
    ensures QuarterStartMonth(q) <= month <= QuarterEndMonth(q) <==> q == DefaultQuarter(month)
    ensures ValidMonth(QuarterStartMonth(q)) && ValidMonth(QuarterEndMonth(q))
  {
  }

  /** A quarter's last day is the 31st, 30th, 30th, 31st for Q1..Q4 in every
      year: leap years never matter. */
  lemma QuarterEndDay(y: int, q: int)
    requires 1 <= q <= 4
    ensures DaysInMonth(y, QuarterEndMonth(q)) == [31, 30, 30, 31][q - 1]
  {
  }

  /** The quarter range text starts on the 1st of month 3q-2 and ends on
      the last day of month 3q. */
  lemma QuarterRangeText(y: int, q: int, today: Today)
    requires y >= 1 && 1 <= q <= 4
    ensures QuarterRange(Some(y), Some(q), today)
      == Ok((IntToString(y) + "-" + Pad2(3 * q - 2) + "-01",
             IntToString(y) + "-" + Pad2(3 * q) + "-" + Pad2([31, 30, 30, 31][q - 1])))
  {
    QuarterEndDay(y, q);
    assert Pad2(1) == "01";
    var t := IntToString(y);
    assert QuarterStartMonth(q) == 3 * q - 2 && QuarterEndMonth(q) == 3 * q;
    assert DashedDate(t, 3 * q - 2, 1) == t + "-" + Pad2(3 * q - 2) + "-01";
  }

  // ---------------------------------------------------------------------------
  // Pagination (getPaginationInfo, renderPagination)
  // ---------------------------------------------------------------------------

  datatype PageInfo = PageInfo(
    totalItems: int,
    itemsPerPage: int,
    currentPage: int,
    totalPages: int,
    offset: int,
    hasPrev: bool,
    hasNext: bool)

  /** `ceil(a / b)` on the exact quotient. */
  function CeilDiv(a: int, b: int): int
    requires b != 0
  {
    -((-(a as real / b as real)).Floor)
  }

  /** Dividing by zero items per page is an error. */
  function GetPaginationInfo(totalItems: int, itemsPerPage: int, currentPage: int): (r: Result<PageInfo, string>)
    ensures r.Ok? <==> itemsPerPage != 0
  {
    if itemsPerPage == 0 then Err("Division by zero")
    else
      var totalPages := CeilDiv(totalItems, itemsPerPage);
      Ok(PageInfo(totalItems, itemsPerPage, currentPage, totalPages,
                  (currentPage - 1) * itemsPerPage, currentPage > 1, currentPage < totalPages))
  }

  /** With a positive page size, the page count is the least number of pages
      that holds every item, the offset skips the earlier pages, and the
      previous/next flags say whether such a page exists. */
  lemma PaginationMeaning(totalItems: int, itemsPerPage: int, currentPage: int)
    requires itemsPerPage > 0
    ensures var info := GetPaginationInfo(totalItems, itemsPerPage, currentPage).value;
      && (info.totalPages - 1) * itemsPerPage < totalItems <= info.totalPages * itemsPerPage
      && info.offset == (currentPage - 1) * itemsPerPage
      && (info.hasPrev <==> currentPage > 1)
      && (info.hasNext <==> currentPage < info.totalPages)
      && (totalItems >= 0 ==> info.totalPages >= 0)
  {
    var t := CeilDiv(totalItems, itemsPerPage);
    var x := totalItems as real / itemsPerPage as real;
    assert x * itemsPerPage as real == totalItems as real;
    var f := (-x).Floor;
    assert f as real <= -x < f as real + 1.0;
    assert t == -f;
    assert (t - 1) as real < x <= t as real;
    MulMonotone(x, t as real, itemsPerPage as real);
    MulMonotone((t - 1) as real, x, itemsPerPage as real);
  }

  lemma MulMonotone(a: real, b: real, c: real)
    requires a <= b && c >= 0.0
    ensures a * c <= b * c
  {
  }

  /** One numbered link: its page and whether it is the current one. */
  datatype Link = Link(page: int, active: bool)

  /** The numbered links rendered for `info`: pages 1..total_pages. */
  function PageLinks(info: PageInfo): (r: seq<Link>)
    ensures |r| == if info.totalPages > 0 then info.totalPages else 0
  {
    LinksUpTo(if info.totalPages > 0 then info.totalPages else 0, info.currentPage)
  }

  function LinksUpTo(k: nat, current: int): (r: seq<Link>)
    ensures |r| == k
  {
    if k == 0 then [] else LinksUpTo(k - 1, current) + [Link(k, k == current)]
  }

  function CountActive(links: seq<Link>): nat {
    if links == [] then 0 else CountActive(links[..|links| - 1]) + (if links[|links| - 1].active then 1 else 0)
  }

  /** Link i (from 0) is page i + 1, active exactly when that is the current
      page; exactly one link is active when the current page is in range
      and none otherwise. */
  lemma {:induction false} LinksUpToProps(k: nat, current: int)
    ensures forall i :: 0 <= i < k ==> LinksUpTo(k, current)[i] == Link(i + 1, i + 1 == current)
    ensures CountActive(LinksUpTo(k, current)) == if 1 <= current <= k then 1 else 0
  {
    if k > 0 {
      var prev := LinksUpTo(k - 1, current);
      var links := LinksUpTo(k, current);
      LinksUpToProps(k - 1, current);
      assert links == prev + [Link(k, k == current)];
      assert links[..k - 1] == prev;
      assert CountActive(links) == CountActive(prev) + (if k == current then 1 else 0);
      forall i | 0 <= i < k ensures links[i] == Link(i + 1, i + 1 == current) {
        if i < k - 1 {
          assert links[i] == prev[i];
        }
      }
    }
  }

  const PrevLabel: string := "前へ"
  const NextLabel: string := "次へ"

  function PageHref(baseUrl: string, page: int): string {
    baseUrl + "?page=" + IntToString(page)
  }

  function EnabledItem(baseUrl: string, page: int, caption: string): string {
    "<li class=\"page-item\"><a class=\"page-link\" href=\"" + PageHref(baseUrl, page) + "\">" + caption + "</a></li>"
  }

  function DisabledItem(caption: string): string {
    "<li class=\"page-item disabled\"><span class=\"page-link\">" + caption + "</span></li>"
  }

  /** A numbered item: the class is `page-item active` or `page-item ` (with
      the trailing space the format leaves). */
  function LinkItem(baseUrl: string, l: Link): string {
    "<li class=\"page-item " + (if l.active then "active" else "") + "\"><a class=\"page-link\" href=\""
    + PageHref(baseUrl, l.page) + "\">" + IntToString(l.page) + "</a></li>"
  }

  function LinkItems(baseUrl: string, links: seq<Link>): string {
    if links == [] then "" else LinkItems(baseUrl, links[..|links| - 1]) + LinkItem(baseUrl, links[|links| - 1])
  }

  const NavOpen: string := "<nav><ul class=\"pagination\">"
  const NavClose: string := "</ul></nav>"

  /** The "previous" item: a link when there is a previous page, else greyed out. */
  function PrevItem(info: PageInfo, baseUrl: string): string {
    if info.hasPrev then EnabledItem(baseUrl, info.currentPage - 1, PrevLabel) else DisabledItem(PrevLabel)
  }

  /** The "next" item: a link when there is a next page, else greyed out. */
  function NextItem(info: PageInfo, baseUrl: string): string {
    if info.hasNext then EnabledItem(baseUrl, info.currentPage + 1, NextLabel) else DisabledItem(NextLabel)
  }

  /** The whole navigation, or nothing when there is at most one page. */
  function PaginationHtml(info: PageInfo, baseUrl: string): string {
    if info.totalPages <= 1 then ""
    else NavOpen + PrevItem(info, baseUrl) + LinkItems(baseUrl, PageLinks(info)) + NextItem(info, baseUrl) + NavClose
  }

  /** `renderPagination`, with its loop over the page numbers. */
  method RenderPagination(info: PageInfo, baseUrl: string) returns (html: string)
    ensures html == PaginationHtml(info, baseUrl)
    ensures info.totalPages <= 1 <==> html == ""
  {
    if info.totalPages <= 1 {
      return "";
    }
    var items := NumberedItems(baseUrl, info.totalPages, info.currentPage);
    html := NavOpen + PrevItem(info, baseUrl) + items + NextItem(info, baseUrl) + NavClose;
    assert |NavOpen| > 0;
  }

  lemma LinkItemsStep(baseUrl: string, k: nat, current: int)
    requires k >= 1
    ensures LinkItems(baseUrl, LinksUpTo(k, current))
      == LinkItems(baseUrl, LinksUpTo(k - 1, current)) + LinkItem(baseUrl, Link(k, k == current))
  {
    assert LinksUpTo(k, current)[..k - 1] == LinksUpTo(k - 1, current);
  }

  /** The loop over page numbers 1..total. */
  method NumberedItems(baseUrl: string, total: nat, current: int) returns (html: string)
    ensures html == LinkItems(baseUrl, LinksUpTo(total, current))
  {
    html := "";
    var i := 1;
    while i <= total
      invariant 1 <= i <= total + 1
      invariant html == LinkItems(baseUrl, LinksUpTo(i - 1, current))
    {
      LinkItemsStep(baseUrl, i, current);
      html := html + LinkItem(baseUrl, Link(i, i == current));
      i := i + 1;
    }
  }

  /** The rendered links are pages 1..total_pages in order, and exactly one
      is marked active when the current page is one of them. */
  lemma PaginationLinks(info: PageInfo)
    ensures forall i :: 0 <= i < |PageLinks(info)| ==> PageLinks(info)[i].page == i + 1
    ensures forall i :: 0 <= i < |PageLinks(info)| ==>
      (PageLinks(info)[i].active <==> i + 1 == info.currentPage)
    ensures CountActive(PageLinks(info)) == if 1 <= info.currentPage <= info.totalPages then 1 else 0
  {
    LinksUpToProps(if info.totalPages > 0 then info.totalPages else 0, info.currentPage);
  }
}

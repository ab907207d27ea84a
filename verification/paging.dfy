/** Pagination parameters read from a request's query string, and the
    ordering, filter, offset and limit they put on a database query. The
    query string is a map from parameter to (first) value; JSON decoding of
    the `sort` and `filter` parameters is a parameter of the model, and a
    filter value is kept as its JSON text. Go's `int` is 64 bits wide. */
module Paging {
  import opened Wrappers

  const MinInt64: int := -0x8000_0000_0000_0000
  const MaxInt64: int := 0x7fff_ffff_ffff_ffff

  /** Go's `int`. */
  type Int64 = x: int | MinInt64 <= x <= MaxInt64

  /** Two's-complement wrap-around of a mathematical integer into `int`. */
  function Wrap64(x: int): (r: Int64)
    ensures (r - x) % 0x1_0000_0000_0000_0000 == 0
    ensures MinInt64 <= x <= MaxInt64 ==> r == x
  {
    (x - MinInt64) % 0x1_0000_0000_0000_0000 + MinInt64
  }

  // ---------------------------------------------------------------------
  // Decimal conversion (`strconv.Atoi`, `strconv.Itoa`).
  // ---------------------------------------------------------------------

  predicate IsDigit(c: char) {
    '0' <= c <= '9'
  }

  predicate AllDigits(s: string) {
    forall i :: 0 <= i < |s| ==> IsDigit(s[i])
  }

  /** The value of a string of decimal digits, most significant first. */
  function DigitsValue(s: string): nat
    requires AllDigits(s)
  {
    if |s| == 0 then 0 else DigitsValue(s[..|s| - 1]) * 10 + (s[|s| - 1] as int - '0' as int)
  }

  /** `strconv.Atoi`: an optional sign and at least one decimal digit,
      whose value fits in `int`; `None` for any other input. */
  function Atoi(s: string): (r: Option<Int64>)
    ensures r.Some? ==> |s| > 0
    ensures r.Some? ==> forall i :: 0 <= i < |s| && !IsDigit(s[i]) ==> i == 0 && (s[0] == '-' || s[0] == '+')
    ensures r.Some? && r.value < 0 ==> s[0] == '-'
  {
    if |s| == 0 then None
    else
      var digits := if s[0] == '-' || s[0] == '+' then s[1..] else s;
      if |digits| == 0 || !AllDigits(digits) then None
      else
        var v: int := if s[0] == '-' then -(DigitsValue(digits) as int) else DigitsValue(digits);
        if MinInt64 <= v <= MaxInt64 then Some(v) else None
  }

  /** The decimal digits of a natural number, without leading zeros. */
  function NatDigits(n: nat): (s: string)
    ensures |s| > 0 && AllDigits(s) && DigitsValue(s) == n
    ensures n > 0 ==> s[0] != '0'
  {
    var d := ['0' + (n % 10) as char];
    if n < 10 then d
    else
      var s := NatDigits(n / 10) + d;
      assert s[..|s| - 1] == NatDigits(n / 10);
      s
  }

  /** `strconv.Itoa`. */
  function Itoa(n: Int64): (s: string)
    ensures |s| > 0
    ensures n < 0 <==> s[0] == '-'
  {
    if n < 0 then "-" + NatDigits(-(n as int)) else NatDigits(n)
  }

  /** `Atoi` reads back what `Itoa` writes. */
  lemma AtoiItoa(n: Int64)
    ensures Atoi(Itoa(n)) == Some(n)
  {
    var s := Itoa(n);
    if n < 0 {
      assert s[1..] == NatDigits(-(n as int));
    }
  }

  // ---------------------------------------------------------------------
  // Pages.
  // ---------------------------------------------------------------------

  const DefaultPageSize: Int64 := 20
  const DefaultPage: Int64 := 1
  const MaxPageSize: Int64 := 100
  const MaxPage: Int64 := 1000

  datatype Page = Page(currentPage: Int64, pageSize: Int64, sort: map<string, string>, filter: map<string, string>)

  /** `NewPage`: the arguments as given, no clamping, no sort, no filter. */
  function NewPage(current: Int64, size: Int64): (p: Page)
    ensures p.currentPage == current && p.pageSize == size
    ensures p.sort == map[] && p.filter == map[]
  {
    Page(current, size, map[], map[])
  }

  /** gin's `DefaultQuery`: the parameter when present (even empty), else the default. */
  function DefaultQuery(query: map<string, string>, key: string, default: string): string {
    if key in query then query[key] else default
  }

  /** A page number or size: the parsed value when it lies in `[1, max]`,
      the default otherwise. */
  function Bounded(raw: string, max: Int64, default: Int64): (r: Int64)
    requires 1 <= default <= max
    ensures 1 <= r <= max
    ensures Atoi(raw).Some? && 1 <= Atoi(raw).value <= max ==> r == Atoi(raw).value
    ensures !(Atoi(raw).Some? && 1 <= Atoi(raw).value <= max) ==> r == default
  {
    match Atoi(raw)
    case Some(v) => if 1 <= v <= max then v else default
    case None => default
  }

  /** `NewPageFromContext`. `parseSort` and `parseFilter` stand for
      `json.Unmarshal`; a decoding error gives an empty map. */
  function NewPageFromContext(query: map<string, string>, parseSort: string -> Option<map<string, string>>, parseFilter: string -> Option<map<string, string>>): (p: Page)
    ensures 1 <= p.currentPage <= MaxPage
    ensures 1 <= p.pageSize <= MaxPageSize
    ensures p.sort == parseSort(DefaultQuery(query, "sort", "{}")).GetOr(map[])
    ensures p.filter == parseFilter(DefaultQuery(query, "filter", "{}")).GetOr(map[])
  {
    var currentPage := DefaultQuery(query, "current", Itoa(DefaultPage));
    var pageSize := DefaultQuery(query, "pageSize", Itoa(DefaultPageSize));
    var sort := DefaultQuery(query, "sort", "{}");
    var filter := DefaultQuery(query, "filter", "{}");
    Page(Bounded(currentPage, MaxPage, DefaultPage),
         Bounded(pageSize, MaxPageSize, DefaultPageSize),
         parseSort(sort).GetOr(map[]),
         parseFilter(filter).GetOr(map[]))
  }

  /** In-range numbers pass through; anything else gives the defaults. */
  lemma PageNumbers(query: map<string, string>, parseSort: string -> Option<map<string, string>>, parseFilter: string -> Option<map<string, string>>, current: Int64, size: Int64)
    ensures var p := NewPageFromContext(query[("current") := Itoa(current)][("pageSize") := Itoa(size)], parseSort, parseFilter);
      && (1 <= current <= MaxPage ==> p.currentPage == current)
      && (!(1 <= current <= MaxPage) ==> p.currentPage == DefaultPage)
      && (1 <= size <= MaxPageSize ==> p.pageSize == size)
      && (!(1 <= size <= MaxPageSize) ==> p.pageSize == DefaultPageSize)
  {
    AtoiItoa(current);
    AtoiItoa(size);
  }

  /** Without the parameters the page is the first one of twenty entries. */
  lemma PageDefaults(parseSort: string -> Option<map<string, string>>, parseFilter: string -> Option<map<string, string>>)
    ensures var p := NewPageFromContext(map[], parseSort, parseFilter);
      p.currentPage == DefaultPage && p.pageSize == DefaultPageSize
  {
    AtoiItoa(DefaultPage);
    AtoiItoa(DefaultPageSize);
  }

  /** A text that is not a number gives the default. */
  lemma NonNumericIsDefault(query: map<string, string>, parseSort: string -> Option<map<string, string>>, parseFilter: string -> Option<map<string, string>>)
    requires "current" in query && |query["current"]| > 0 && !IsDigit(query["current"][|query["current"]| - 1])
    ensures NewPageFromContext(query, parseSort, parseFilter).currentPage == DefaultPage
  {
  }

  /** The ordering clause. */
  datatype OrderBy = OrderBy(column: string, desc: bool)

  /** What `Paginate` adds to the query. */
  datatype Plan = Plan(order: Option<OrderBy>, filter: Option<map<string, string>>, offset: Int64, limit: Int64)

  /** `(CurrentPage-1)*PageSize` in `int` arithmetic. */
  function Offset(p: Page): Int64 {
    Wrap64(Wrap64(p.currentPage - 1) * p.pageSize)
  }

  /** `Paginate`: one sort column (whichever the map yields first),
      descending exactly when its value is "descend"; the filter when not
      empty; offset and limit. */
  method Paginate(p: Page) returns (plan: Plan)
    ensures plan.order.Some? <==> |p.sort| > 0
    ensures plan.order.Some? ==>
      plan.order.value.column in p.sort && (plan.order.value.desc <==> p.sort[plan.order.value.column] == "descend")
    ensures plan.filter.Some? <==> |p.filter| > 0
    ensures plan.filter.Some? ==> plan.filter.value == p.filter
    ensures plan.offset == Offset(p) && plan.limit == p.pageSize
  {
    var order: Option<OrderBy> := None;
    if |p.sort| > 0 {
      var k :| k in p.sort;
      order := Some(OrderBy(k, p.sort[k] == "descend"));
    }
    var filter: Option<map<string, string>> := None;
    if |p.filter| > 0 {
      filter := Some(p.filter);
    }
    plan := Plan(order, filter, Offset(p), p.pageSize);
  }

  /** The offset of a page from a request is the number of entries on the
      pages before it, and page `c + 1` starts where page `c` ends. */
  lemma OffsetOfRequestPage(p: Page)
    requires 1 <= p.currentPage <= MaxPage && 1 <= p.pageSize <= MaxPageSize
    ensures Offset(p) == (p.currentPage - 1) * p.pageSize
    ensures 0 <= Offset(p) <= (MaxPage - 1) * MaxPageSize
    ensures p.currentPage < MaxPage ==> Offset(p.(currentPage := p.currentPage + 1)) == Offset(p) + p.pageSize
  {
    SmallOffset(p.currentPage - 1, p.pageSize);
    if p.currentPage < MaxPage {
      SmallOffset(p.currentPage, p.pageSize);
      assert p.currentPage * p.pageSize == (p.currentPage - 1) * p.pageSize + p.pageSize;
    }
  }

  /** Products of a page index and a page size within the limits do not wrap. */
  lemma SmallOffset(a: int, b: int)
    requires 0 <= a < MaxPage && 1 <= b <= MaxPageSize
    ensures 0 <= a * b <= (MaxPage - 1) * MaxPageSize
    ensures Wrap64(Wrap64(a) * b) == a * b
  {
    MulMono(a, MaxPage - 1, b, MaxPageSize);
    assert Wrap64(a) == a;
  }

  lemma MulMono(a: int, b: int, c: int, d: int)
    requires 0 <= a <= b && 0 <= c <= d
    ensures a * c <= b * d
  {
  }

  /** `NewPage` does not clamp: a page number of `MinInt64` makes the
      offset computation wrap around. */
  lemma NewPageOffsetWraps()
    ensures Offset(NewPage(MinInt64, 1)) == MaxInt64
  {
  }
}

/**
 * The listing handler of the products controller: it turns the request's
 * query parameters into a bounded, whitelisted query plan (limit, page, offset,
 * order, sort key, search text, discount floor), counts the matching products
 * and builds the links to the previous and the next page.
 */
module QueryPlanner {
  import opened Options
  import opened Text
  import QS = QueryString
  import Catalog

  const DEFAULT_LIMIT := 4
  const MAX_LIMIT := 16
  const SORT_KEYS := ["name", "price", "discount", "category", "newest"]

  /** The query parameters as the request carries them; `None` for one that is absent. */
  datatype RawQuery = RawQuery(
    limit: Option<int>,
    page: Option<int>,
    order: Option<string>,
    sortBy: Option<string>,
    search: Option<string>,
    sale: Option<int>)

  /** The normalised parameters and the ordering handed to the store. */
  datatype Plan = Plan(
    limit: int,
    page: int,
    offset: int,
    order: string,
    sortBy: string,
    orderQuery: seq<string>,
    search: string,
    sale: int)

  /**
   * The `meta` part of the response; `quantity` is the number of rows on the
   * page, `None` when the limit or the offset is negative, where what the
   * store does is outside this model.
   */
  datatype Meta = Meta(total: int, quantity: Option<int>, page: int, prev: Option<string>, next: Option<string>)

  // ---------------------------------------------------------------------------
  // Normalisation
  // ---------------------------------------------------------------------------

  /** The requested limit, 4 when absent, capped at 16 (there is no lower bound). */
  function EffectiveLimit(limit: Option<int>): int {
    var l := limit.GetOr(DEFAULT_LIMIT);
    if l > MAX_LIMIT then MAX_LIMIT else l
  }

  /** The order is accepted when its upper-case form is `ASC` or `DESC`. */
  predicate IsDirection(order: string) {
    ToUpper(order) == "ASC" || ToUpper(order) == "DESC"
  }

  /** The sort key is accepted when its lower-case form is one of the five sort keys. */
  predicate IsSortKey(sortBy: string) {
    ToLower(sortBy) in SORT_KEYS
  }

  /** An accepted order keeps the caller's spelling; anything else becomes `ASC`. */
  function NormalizeOrder(order: Option<string>): string {
    var o := order.GetOr("ASC");
    if IsDirection(o) then o else "ASC"
  }

  /** An accepted sort key keeps the caller's spelling; anything else becomes `id`. */
  function NormalizeSortBy(sortBy: Option<string>): string {
    var s := sortBy.GetOr("id");
    if IsSortKey(s) then s else "id"
  }

  /** The ordering term; the keys are compared as spelled, so `Category` falls through. */
  function OrderQuery(sortBy: string, order: string): seq<string> {
    if sortBy == "category" then ["category", "name", order]
    else if sortBy == "newest" then ["createdAt", "DESC"]
    else [sortBy, order]
  }

  /** The plan the listing computes from the request's query parameters. */
  function PlanOf(q: RawQuery): Plan {
    var limit := EffectiveLimit(q.limit);
    var page := q.page.GetOr(1);
    var order := NormalizeOrder(q.order);
    var sortBy := NormalizeSortBy(q.sortBy);
    Plan(limit, page, limit * (page - 1), order, sortBy, OrderQuery(sortBy, order), q.search.GetOr(""), q.sale.GetOr(0))
  }

  // ---------------------------------------------------------------------------
  // Links
  // ---------------------------------------------------------------------------

  /** The parameters the links carry, in the order they are written. */
  function QueryKeys(plan: Plan): seq<(string, string)> {
    [("limit", IntToString(plan.limit)), ("order", plan.order), ("sortBy", plan.sortBy),
     ("search", plan.search), ("sale", IntToString(plan.sale))]
  }

  /** The text one parameter adds to a link: `&key=value`. */
  function Field(p: (string, string)): string {
    "&" + p.0 + "=" + p.1
  }

  /** `&key=value` for each pair, in order. */
  function Suffix(pairs: seq<(string, string)>): string {
    if pairs == [] then "" else Suffix(pairs[..|pairs| - 1]) + Field(pairs[|pairs| - 1])
  }

  /** The link to `page`, where `origin` is protocol, host and base path of the request. */
  function PageLink(origin: string, page: int, plan: Plan): string {
    origin + "?page=" + IntToString(page) + Suffix(QueryKeys(plan))
  }

  function PrevLink(plan: Plan, origin: string): Option<string> {
    if plan.page > 1 then Some(PageLink(origin, plan.page - 1, plan)) else None
  }

  function NextLink(plan: Plan, count: int, origin: string): Option<string> {
    if plan.offset + plan.limit < count then Some(PageLink(origin, plan.page + 1, plan)) else None
  }

  /** The rows of the plan's page among the matching products of `catalog`. */
  function PageRows(catalog: seq<Catalog.Product>, plan: Plan): Option<seq<Catalog.Product>> {
    if 0 <= plan.offset && 0 <= plan.limit then
      Some(Catalog.Window(Catalog.Search(catalog, plan.search, plan.sale), plan.offset, plan.limit))
    else None
  }

  // ---------------------------------------------------------------------------
  // The handler
  // ---------------------------------------------------------------------------

  /**
   * The first part of the listing: reads the parameters with their defaults,
   * caps the limit, computes the offset, and checks the order and the sort key
   * against their whitelists.
   */
  method Normalize(q: RawQuery) returns (plan: Plan)
    ensures plan == PlanOf(q)
  {
    var limit := q.limit.GetOr(DEFAULT_LIMIT);
    var page := q.page.GetOr(1);
    var order := q.order.GetOr("ASC");
    var sortBy := q.sortBy.GetOr("id");
    var search := q.search.GetOr("");
    var sale := q.sale.GetOr(0);

    limit := if limit > MAX_LIMIT then MAX_LIMIT else limit;
    var offset := limit * (page - 1);

    order := if IsDirection(order) then order else "ASC";
    sortBy := if IsSortKey(sortBy) then sortBy else "id";
    var orderQuery := if sortBy == "category" then ["category", "name", order]
                      else if sortBy == "newest" then ["createdAt", "DESC"]
                      else [sortBy, order];
    plan := Plan(limit, page, offset, order, sortBy, orderQuery, search, sale);
  }

  /**
   * The listing: normalises the parameters, counts the products of `catalog`
   * that match, writes the parameter suffix of the links one key at a time
   * and decides whether there is a previous and a next page.
   */
  method List(q: RawQuery, catalog: seq<Catalog.Product>, origin: string)
    returns (plan: Plan, meta: Meta, rows: Option<seq<Catalog.Product>>)
    ensures plan == PlanOf(q)
    ensures meta.total == |Catalog.Search(catalog, plan.search, plan.sale)|
    ensures rows == PageRows(catalog, plan)
    ensures meta.quantity == if rows.Some? then Some(|rows.value|) else None
    ensures meta.page == plan.page
    ensures meta.prev == PrevLink(plan, origin)
    ensures meta.next == NextLink(plan, meta.total, origin)
  {
    plan := Normalize(q);

    var selected := Catalog.Search(catalog, plan.search, plan.sale);
    var count := |selected|;
    rows := if 0 <= plan.offset && 0 <= plan.limit then Some(Catalog.Window(selected, plan.offset, plan.limit)) else None;

    var queryKeys := [("limit", IntToString(plan.limit)), ("order", plan.order), ("sortBy", plan.sortBy),
                      ("search", plan.search), ("sale", IntToString(plan.sale))];
    var queryUrl := "";
    for i := 0 to |queryKeys|
      invariant queryUrl == Suffix(queryKeys[..i])
    {
      assert queryKeys[..i + 1][..i] == queryKeys[..i];
      queryUrl := queryUrl + ("&" + queryKeys[i].0 + "=" + queryKeys[i].1);
    }
    assert queryKeys[..|queryKeys|] == queryKeys;

    var existPrev := plan.page > 1;
    var existNext := plan.offset + plan.limit < count;
    var prev := if existPrev then Some(origin + "?page=" + IntToString(plan.page - 1) + queryUrl) else None;
    var next := if existNext then Some(origin + "?page=" + IntToString(plan.page + 1) + queryUrl) else None;
    meta := Meta(count, if rows.Some? then Some(|rows.value|) else None, plan.page, prev, next);
  }

  // ---------------------------------------------------------------------------
  // Properties of the normalisation
  // ---------------------------------------------------------------------------

  /** The limit is capped at 16, defaults to 4, is otherwise the requested one, and normalising twice changes nothing. */
  lemma LimitNormalisation(limit: Option<int>)
    ensures EffectiveLimit(limit) <= MAX_LIMIT
    ensures limit.None? ==> EffectiveLimit(limit) == DEFAULT_LIMIT
    ensures limit.Some? && limit.value > MAX_LIMIT ==> EffectiveLimit(limit) == MAX_LIMIT
    ensures limit.Some? && limit.value <= MAX_LIMIT ==> EffectiveLimit(limit) == limit.value
    ensures EffectiveLimit(Some(EffectiveLimit(limit))) == EffectiveLimit(limit)
  {
  }

  /** The offset skips the earlier pages; the first page starts at the first row. */
  lemma OffsetOfPage(q: RawQuery)
    ensures PlanOf(q).offset == PlanOf(q).limit * (PlanOf(q).page - 1)
    ensures PlanOf(q).page == 1 ==> PlanOf(q).offset == 0
    ensures q.page.None? ==> PlanOf(q).offset == 0
  {
  }

  lemma DefaultsAccepted()
    ensures IsDirection("ASC") && IsDirection("DESC")
    ensures !IsSortKey("id")
  {
    assert ToUpper("ASC") == "ASC";
    assert ToUpper("DESC") == "DESC";
    assert ToLower("id") == "id";
  }

  /**
   * The normalised order is the requested one exactly when its upper-case form
   * is ASC or DESC, and ASC otherwise; it is always accepted, so normalising it
   * again leaves it unchanged.
   */
  lemma OrderNormalisation(order: Option<string>)
    ensures var o, r := order.GetOr("ASC"), NormalizeOrder(order);
      && (IsDirection(o) ==> r == o)
      && (!IsDirection(o) ==> r == "ASC")
      && IsDirection(r)
      && NormalizeOrder(Some(r)) == r
  {
    DefaultsAccepted();
  }

  /**
   * The normalised sort key is the requested one exactly when its lower-case
   * form is a sort key, and `id` otherwise; normalising it again leaves it
   * unchanged.
   */
  lemma SortByNormalisation(sortBy: Option<string>)
    ensures var s, r := sortBy.GetOr("id"), NormalizeSortBy(sortBy);
      && (IsSortKey(s) ==> r == s)
      && (!IsSortKey(s) ==> r == "id")
      && (r == "id" || IsSortKey(r))
      && NormalizeSortBy(Some(r)) == r
  {
    DefaultsAccepted();
  }

  /** `newest` sorts by creation time, descending, whatever the order; every other key uses the requested order. */
  lemma OrderQueryChoice(sortBy: string, order: string)
    ensures sortBy == "newest" ==> OrderQuery(sortBy, order) == ["createdAt", "DESC"]
    ensures sortBy == "category" ==> OrderQuery(sortBy, order) == ["category", "name", order]
    ensures sortBy != "newest" ==> OrderQuery(sortBy, order)[|OrderQuery(sortBy, order)| - 1] == order
    ensures sortBy != "newest" && sortBy != "category" ==> OrderQuery(sortBy, order) == [sortBy, order]
  {
  }

  /**
   * The whitelist is case-insensitive but the ordering choice is not:
   * `Category` and `Newest` are accepted and kept as spelled, and then the
   * generic term `[sortBy, order]` (`["Category", order]`, `["Newest", order]`)
   * is handed to the store.
   */
  lemma MixedCaseSortKeys(order: string)
    ensures NormalizeSortBy(Some("Category")) == "Category"
    ensures OrderQuery("Category", order) == ["Category", order]
    ensures NormalizeSortBy(Some("Newest")) == "Newest"
    ensures OrderQuery("Newest", order) == ["Newest", order]
  {
    assert ToLower("Category") == "category";
    assert ToLower("Newest") == "newest";
  }

  /**
   * The order whitelist, letter by letter: an order passes exactly when it
   * spells `ASC` or `DESC` with each letter in either case (or the long s).
   */
  lemma DirectionSpellings(order: string)
    ensures IsDirection(order) <==> UpperVariant(order, "ASC") || UpperVariant(order, "DESC")
  {
    ToUpperIsWord(order, "ASC");
    ToUpperIsWord(order, "DESC");
  }

  /**
   * The sort-key whitelist, letter by letter: a sort key passes exactly when it
   * spells one of the five keys with each letter in either case.
   */
  lemma SortKeySpellings(sortBy: string)
    ensures IsSortKey(sortBy) <==> exists i :: 0 <= i < |SORT_KEYS| && LowerVariant(sortBy, SORT_KEYS[i])
  {
    forall i | 0 <= i < |SORT_KEYS| ensures ToLower(sortBy) == SORT_KEYS[i] <==> LowerVariant(sortBy, SORT_KEYS[i]) {
      ToLowerIsWord(sortBy, SORT_KEYS[i]);
    }
  }

  /** The parameters a normalised plan carries, read as a request. */
  function Requery(plan: Plan): RawQuery {
    RawQuery(Some(plan.limit), Some(plan.page), Some(plan.order), Some(plan.sortBy), Some(plan.search), Some(plan.sale))
  }

  /** Normalising a normalised plan changes nothing. */
  lemma NormalizeIdempotent(q: RawQuery)
    ensures PlanOf(Requery(PlanOf(q))) == PlanOf(q)
  {
    LimitNormalisation(q.limit);
    OrderNormalisation(q.order);
    SortByNormalisation(q.sortBy);
  }

  // ---------------------------------------------------------------------------
  // Properties of the links
  // ---------------------------------------------------------------------------

  /** The suffix is `&limit=L&order=O&sortBy=S&search=Q&sale=D`, each key once, in this order. */
  lemma SuffixLayout(plan: Plan)
    ensures Suffix(QueryKeys(plan)) ==
      "&limit=" + IntToString(plan.limit) + "&order=" + plan.order + "&sortBy=" + plan.sortBy
      + "&search=" + plan.search + "&sale=" + IntToString(plan.sale)
  {
    var keys := QueryKeys(plan);
    var l, d := IntToString(plan.limit), IntToString(plan.sale);
    assert keys[..1][..0] == [];
    assert Suffix(keys[..1]) == "&limit=" + l;
    assert keys[..2][..1] == keys[..1];
    assert Suffix(keys[..2]) == "&limit=" + l + "&order=" + plan.order;
    assert keys[..3][..2] == keys[..2];
    assert Suffix(keys[..3]) == "&limit=" + l + "&order=" + plan.order + "&sortBy=" + plan.sortBy;
    assert keys[..4][..3] == keys[..3];
    assert Suffix(keys[..4]) == "&limit=" + l + "&order=" + plan.order + "&sortBy=" + plan.sortBy + "&search=" + plan.search;
    assert keys[..4] == keys[..|keys| - 1];
  }

  /** There is a previous page exactly when the page is after the first; its link asks for the page before. */
  lemma PrevLinkCondition(plan: Plan, origin: string)
    ensures PrevLink(plan, origin).Some? <==> plan.page > 1
    ensures plan.page > 1 ==> PrevLink(plan, origin).value == origin + "?page=" + IntToString(plan.page - 1) + Suffix(QueryKeys(plan))
  {
  }

  /** There is a next page exactly when rows remain after this page; its link asks for the page after. */
  lemma NextLinkCondition(plan: Plan, count: int, origin: string)
    ensures NextLink(plan, count, origin).Some? <==> plan.offset + plan.limit < count
    ensures plan.offset + plan.limit < count ==>
      NextLink(plan, count, origin).value == origin + "?page=" + IntToString(plan.page + 1) + Suffix(QueryKeys(plan))
  {
  }

  // ---------------------------------------------------------------------------
  // Following a link reproduces the plan
  // ---------------------------------------------------------------------------

  /** `+x` on a parameter: an absent one stays absent, a decimal integer is read; anything else is outside this model. */
  function ReadNumber(v: Option<string>): Option<Option<int>> {
    match v
    case None => Some(None)
    case Some(s) =>
      match ParseDecimal(s)
      case Some(n) => Some(Some(n))
      case None => None
  }

  /** The request that a list of query parameters makes. */
  function RequestOf(pairs: seq<(string, string)>): Option<RawQuery> {
    match (ReadNumber(QS.Lookup(pairs, "limit")), ReadNumber(QS.Lookup(pairs, "page")), ReadNumber(QS.Lookup(pairs, "sale")))
    case (Some(limit), Some(page), Some(sale)) =>
      Some(RawQuery(limit, page, QS.Lookup(pairs, "order"), QS.Lookup(pairs, "sortBy"), QS.Lookup(pairs, "search"), sale))
    case _ => None
  }

  /** The request that following `link` makes. */
  function Follow(link: string): Option<RawQuery> {
    match QS.ReadQuery(link)
    case Some(pairs) => RequestOf(pairs)
    case None => None
  }

  /** The parameters of the link to `page`, in the order they are written. */
  function LinkPairs(page: int, plan: Plan): seq<(string, string)> {
    [("page", IntToString(page))] + QueryKeys(plan)
  }

  /** A first segment followed by the `&key=value` suffix is the `&`-join of all the segments. */
  lemma {:induction false} SuffixJoin(first: (string, string), pairs: seq<(string, string)>)
    ensures QS.Segment(first) + Suffix(pairs) == QS.Join(QS.Segments([first] + pairs), '&')
    decreases |pairs|
  {
    if pairs == [] {
      assert QS.Segments([first] + pairs) == [QS.Segment(first)];
    } else {
      SuffixJoin(first, pairs[..|pairs| - 1]);
      SuffixJoinStep(first, pairs);
    }
  }

  /** The induction step of `SuffixJoin`: one more pair is one more `&`-separated segment. */
  lemma SuffixJoinStep(first: (string, string), pairs: seq<(string, string)>)
    requires pairs != []
    requires QS.Segment(first) + Suffix(pairs[..|pairs| - 1]) ==
      QS.Join(QS.Segments([first] + pairs[..|pairs| - 1]), '&')
    ensures QS.Segment(first) + Suffix(pairs) == QS.Join(QS.Segments([first] + pairs), '&')
  {
    var init, last := pairs[..|pairs| - 1], pairs[|pairs| - 1];
    var a, b, seg := QS.Segment(first), Suffix(init), QS.Segment(last);
    assert Suffix(pairs) == b + (['&'] + seg) by {
      FieldIsSegment(last);
    }
    assert a + (b + (['&'] + seg)) == ((a + b) + ['&']) + seg by {
      ConcatAssoc(a, b, ['&'] + seg);
      ConcatAssoc(a + b, ['&'], seg);
    }
    QS.JoinSegmentsSnoc(first, pairs, '&');
  }

  lemma FieldIsSegment(p: (string, string))
    ensures Field(p) == ['&'] + QS.Segment(p)
  {
  }

  /** A character other than `&` and `=` that no key or value holds is not in the suffix. */
  lemma {:induction false} SuffixAvoids(pairs: seq<(string, string)>, c: char)
    requires c != '&' && c != '='
    requires forall k :: 0 <= k < |pairs| ==> c !in pairs[k].0 && c !in pairs[k].1
    ensures c !in Suffix(pairs)
    decreases |pairs|
  {
    if pairs != [] {
      SuffixAvoids(pairs[..|pairs| - 1], c);
    }
  }

  lemma IntToStringPlain(i: int)
    ensures QS.Plain(IntToString(i)) && '=' !in IntToString(i)
  {
    IntToStringChars(i);
  }

  predicate Letters(s: string) {
    forall k :: 0 <= k < |s| ==> 'A' <= s[k] <= 'Z' || 'a' <= s[k] <= 'z'
  }

  /** A string whose case-mapped form is made of letters holds none of the characters that matter in a query string. */
  lemma CaseMappedPlain(s: string, mapped: string)
    requires |mapped| == |s|
    requires forall k :: 0 <= k < |s| ==> mapped[k] == UpperChar(s[k]) || mapped[k] == LowerChar(s[k])
    requires Letters(mapped)
    ensures QS.Plain(s)
  {
    forall k | 0 <= k < |s| ensures s[k] != '&' && s[k] != '#' && s[k] != '%' && s[k] != '+' {
      assert 'A' <= mapped[k] <= 'Z' || 'a' <= mapped[k] <= 'z';
    }
  }

  lemma DirectionPlain(order: string)
    requires IsDirection(order)
    ensures QS.Plain(order)
  {
    assert Letters(ToUpper(order));
    CaseMappedPlain(order, ToUpper(order));
  }

  lemma SortKeyPlain(sortBy: string)
    requires IsSortKey(sortBy)
    ensures QS.Plain(sortBy)
  {
    assert Letters(ToLower(sortBy));
    CaseMappedPlain(sortBy, ToLower(sortBy));
  }

  /** The normalised order and sort key hold only letters, so they need no escaping in a link. */
  lemma NormalizedPlain(q: RawQuery)
    ensures QS.Plain(PlanOf(q).order) && QS.Plain(PlanOf(q).sortBy)
  {
    DefaultsAccepted();
    DirectionPlain(NormalizeOrder(q.order));
    if NormalizeSortBy(q.sortBy) == "id" {
      assert QS.Plain("id");
    } else {
      SortKeyPlain(NormalizeSortBy(q.sortBy));
    }
  }

  lemma LinkPairsPlain(plan: Plan, page: int)
    requires QS.Plain(plan.order) && QS.Plain(plan.sortBy) && QS.Plain(plan.search)
    ensures QS.PlainPairs(LinkPairs(page, plan))
  {
    IntToStringPlain(page);
    IntToStringPlain(plan.limit);
    IntToStringPlain(plan.sale);
    var pairs := LinkPairs(page, plan);
    forall k | 0 <= k < |pairs| ensures '=' !in pairs[k].0 && QS.Plain(pairs[k].0) && QS.Plain(pairs[k].1) {
      QS.PlainKeys(pairs[k].0);
    }
  }

  /** Reading a page link gives back its parameters, provided none of them needs escaping. */
  lemma ReadPageLink(plan: Plan, page: int, origin: string)
    requires '?' !in origin
    requires QS.Plain(plan.order) && QS.Plain(plan.sortBy) && QS.Plain(plan.search)
    ensures QS.ReadQuery(PageLink(origin, page, plan)) == Some(LinkPairs(page, plan))
  {
    var first := ("page", IntToString(page));
    LinkPairsPlain(plan, page);
    PageLinkShape(origin, page, plan);
    LinkReadsBack(origin, first, QueryKeys(plan));
  }

  /** A page link is the origin, `?`, the segment of the page parameter and the suffix of the other parameters. */
  lemma PageLinkShape(origin: string, page: int, plan: Plan)
    ensures PageLink(origin, page, plan) == origin + "?" + QS.Segment(("page", IntToString(page))) + Suffix(QueryKeys(plan))
  {
  }

  /** Each of the six parameters of a page link is found with the value written for it. */
  lemma LinkLookups(plan: Plan, page: int)
    ensures var pairs := LinkPairs(page, plan);
      && QS.Lookup(pairs, "page") == Some(IntToString(page))
      && QS.Lookup(pairs, "limit") == Some(IntToString(plan.limit))
      && QS.Lookup(pairs, "order") == Some(plan.order)
      && QS.Lookup(pairs, "sortBy") == Some(plan.sortBy)
      && QS.Lookup(pairs, "search") == Some(plan.search)
      && QS.Lookup(pairs, "sale") == Some(IntToString(plan.sale))
  {
    var pairs := LinkPairs(page, plan);
    assert pairs == [("page", IntToString(page)), ("limit", IntToString(plan.limit)), ("order", plan.order),
                     ("sortBy", plan.sortBy), ("search", plan.search), ("sale", IntToString(plan.sale))];
    QS.LookupFirst(pairs, "page", 0);
    QS.LookupFirst(pairs, "limit", 1);
    QS.LookupFirst(pairs, "order", 2);
    QS.LookupFirst(pairs, "sortBy", 3);
    QS.LookupFirst(pairs, "search", 4);
    QS.LookupFirst(pairs, "sale", 5);
  }

  /** The parameters of a page link, read as a request, are the plan's with the page set. */
  lemma RequestOfLinkPairs(plan: Plan, page: int)
    ensures RequestOf(LinkPairs(page, plan)) == Some(Requery(plan).(page := Some(page)))
  {
    LinkLookups(plan, page);
    IntToStringRoundTrip(page);
    IntToStringRoundTrip(plan.limit);
    IntToStringRoundTrip(plan.sale);
    assert ReadNumber(Some(IntToString(page))) == Some(Some(page));
    assert ReadNumber(Some(IntToString(plan.limit))) == Some(Some(plan.limit));
    assert ReadNumber(Some(IntToString(plan.sale))) == Some(Some(plan.sale));
  }

  /**
   * Following a page link makes the request of the plan with only the page
   * changed, provided the search text holds none of `&`, `#`, `%`, `+`, `]`.
   */
  lemma FollowPageLink(q: RawQuery, page: int, origin: string)
    requires '?' !in origin
    requires QS.Plain(PlanOf(q).search)
    ensures Follow(PageLink(origin, page, PlanOf(q))) == Some(Requery(PlanOf(q)).(page := Some(page)))
  {
    var plan := PlanOf(q);
    NormalizedPlain(q);
    ReadPageLink(plan, page, origin);
    RequestOfLinkPairs(plan, page);
  }

  /** The request that a link to `page` makes is planned as the current plan on that page. */
  lemma PlanOnPage(q: RawQuery, page: int)
    ensures PlanOf(Requery(PlanOf(q)).(page := Some(page))) ==
      PlanOf(q).(page := page, offset := PlanOf(q).limit * (page - 1))
  {
    NormalizeIdempotent(q);
  }

  /** Following the link to `page` plans that page with every other parameter unchanged. */
  lemma FollowOnPage(q: RawQuery, page: int, origin: string)
    requires '?' !in origin
    requires QS.Plain(PlanOf(q).search)
    ensures Follow(PageLink(origin, page, PlanOf(q))).Some?
    ensures PlanOf(Follow(PageLink(origin, page, PlanOf(q))).value) ==
      PlanOf(q).(page := page, offset := PlanOf(q).limit * (page - 1))
  {
    FollowPageLink(q, page, origin);
    PlanOnPage(q, page);
  }

  /** One page further is `limit` rows further. */
  lemma PageStep(limit: int, page: int)
    ensures limit * (page + 1 - 1) == limit * (page - 1) + limit
  {
  }

  /**
   * Following the next link plans the following page with every other
   * parameter unchanged; its rows start where the current page's end.
   */
  lemma FollowNext(q: RawQuery, count: int, origin: string)
    requires '?' !in origin
    requires QS.Plain(PlanOf(q).search)
    requires NextLink(PlanOf(q), count, origin).Some?
    ensures var plan := PlanOf(q);
      && Follow(NextLink(plan, count, origin).value).Some?
      && PlanOf(Follow(NextLink(plan, count, origin).value).value) ==
           plan.(page := plan.page + 1, offset := plan.offset + plan.limit)
  {
    var plan := PlanOf(q);
    assert NextLink(plan, count, origin).value == PageLink(origin, plan.page + 1, plan);
    FollowOnPage(q, plan.page + 1, origin);
    OffsetOfPage(q);
    PageStep(plan.limit, plan.page);
  }

  /** Following the previous link plans the preceding page with every other parameter unchanged. */
  lemma FollowPrev(q: RawQuery, origin: string)
    requires '?' !in origin
    requires QS.Plain(PlanOf(q).search)
    requires PrevLink(PlanOf(q), origin).Some?
    ensures var plan := PlanOf(q);
      && Follow(PrevLink(plan, origin).value).Some?
      && PlanOf(Follow(PrevLink(plan, origin).value).value) ==
           plan.(page := plan.page - 1, offset := plan.offset - plan.limit)
  {
    var plan := PlanOf(q);
    assert PrevLink(plan, origin).value == PageLink(origin, plan.page - 1, plan);
    FollowOnPage(q, plan.page - 1, origin);
    OffsetOfPage(q);
    PageStep(plan.limit, plan.page - 1);
  }

  /** The suffix of concatenated pair lists is the concatenation of their suffixes. */
  lemma {:induction false} SuffixAppend(a: seq<(string, string)>, b: seq<(string, string)>)
    ensures Suffix(a + b) == Suffix(a) + Suffix(b)
    decreases |b|
  {
    if b == [] {
      assert a + b == a;
    } else {
      var init, last := b[..|b| - 1], b[|b| - 1];
      SuffixAppend(a, init);
      assert (a + b)[..|a + b| - 1] == a + init && (a + b)[|a + b| - 1] == last;
      ConcatAssoc(Suffix(a), Suffix(init), Field(last));
    }
  }

  /** The parameters that the link of the `a&b=c` search is read as. */
  function AmpersandPairs(): seq<(string, string)> {
    [("page", "2"), ("limit", "4"), ("order", "ASC"), ("sortBy", "id"), ("search", "a"), ("b", "c"), ("sale", "0")]
  }

  lemma AmpersandPairsPlain()
    ensures QS.PlainPairs(AmpersandPairs())
  {
    var pairs := AmpersandPairs();
    forall k | 0 <= k < |pairs| ensures '=' !in pairs[k].0 && QS.Plain(pairs[k].0) && QS.Plain(pairs[k].1) {
      if pairs[k].0 == "b" {
        assert pairs[k].1 == "c";
      } else {
        QS.PlainKeys(pairs[k].0);
        assert pairs[k].1 in ["2", "4", "ASC", "id", "a", "0"];
      }
    }
  }

  lemma AmpersandRequest()
    ensures RequestOf(AmpersandPairs()) == Some(RawQuery(Some(4), Some(2), Some("ASC"), Some("id"), Some("a"), Some(0)))
  {
    var pairs := AmpersandPairs();
    assert ParseDecimal("2") == Some(2);
    assert ParseDecimal("4") == Some(4);
    assert ParseDecimal("0") == Some(0);
  }

  /** A link whose query string is written from plain pairs reads back as those pairs. */
  lemma LinkReadsBack(origin: string, first: (string, string), rest: seq<(string, string)>)
    requires '?' !in origin
    requires QS.PlainPairs([first] + rest)
    ensures QS.ReadQuery(origin + "?" + QS.Segment(first) + Suffix(rest)) == Some([first] + rest)
  {
    var pairs := [first] + rest;
    var x := QS.Segment(first) + Suffix(rest);
    assert forall k :: 0 <= k < |rest| ==> rest[k] == pairs[k + 1];
    SuffixAvoids(rest, '#');
    assert pairs[0] == first;
    QS.QueryAfterMark(origin, x);
    assert origin + "?" + QS.Segment(first) + Suffix(rest) == origin + "?" + x;
    SuffixJoin(first, rest);
    QS.WriteThenRead(pairs);
    assert QS.ReadQuery(origin + "?" + x) == QS.ReadSegments(QS.Split(QS.Join(QS.Segments(pairs), '&'), '&'));
  }

  lemma AmpersandSuffix(plan: Plan)
    requires plan == PlanOf(RawQuery(None, None, None, None, Some("a&b=c"), None))
    ensures Suffix(QueryKeys(plan)) == Suffix(AmpersandPairs()[1..])
  {
    assert IntToString(4) == "4" && IntToString(0) == "0";
    var head := [("limit", "4"), ("order", "ASC"), ("sortBy", "id")];
    var tail := [("sale", "0")];
    assert QueryKeys(plan) == head + [("search", "a&b=c")] + tail;
    assert AmpersandPairs()[1..] == head + [("search", "a"), ("b", "c")] + tail;
    SuffixAppend(head + [("search", "a&b=c")], tail);
    SuffixAppend(head, [("search", "a&b=c")]);
    SuffixAppend(head + [("search", "a"), ("b", "c")], tail);
    SuffixAppend(head, [("search", "a"), ("b", "c")]);
    assert Suffix([("search", "a"), ("b", "c")]) == Suffix([("search", "a&b=c")]) by {
      assert [("search", "a"), ("b", "c")][..1] == [("search", "a")];
    }
  }

  lemma AmpersandLink(plan: Plan)
    requires plan == PlanOf(RawQuery(None, None, None, None, Some("a&b=c"), None))
    ensures QS.ReadQuery(PageLink("/products", 2, plan)) == Some(AmpersandPairs())
  {
    var pairs := AmpersandPairs();
    assert IntToString(2) == "2";
    PageLinkShape("/products", 2, plan);
    AmpersandSuffix(plan);
    AmpersandPairsPlain();
    assert [("page", "2")] + pairs[1..] == pairs;
    LinkReadsBack("/products", ("page", "2"), pairs[1..]);
  }

  /**
   * The link writes the search text without escaping it, so a search holding
   * `&` does not survive the trip: searching `a&b=c` links to a page that
   * searches `a` (and carries a stray parameter `b`).
   */
  lemma AmpersandSearchLost()
    ensures var plan := PlanOf(RawQuery(None, None, None, None, Some("a&b=c"), None));
      Follow(PageLink("/products", 2, plan)) == Some(RawQuery(Some(4), Some(2), Some("ASC"), Some("id"), Some("a"), Some(0)))
  {
    AmpersandLink(PlanOf(RawQuery(None, None, None, None, Some("a&b=c"), None)));
    AmpersandRequest();
  }

  // ---------------------------------------------------------------------------
  // Pages of rows
  // ---------------------------------------------------------------------------

  /** A page holds at most `limit` rows, each of them a product that matches the search. */
  lemma PageRowsMatch(catalog: seq<Catalog.Product>, plan: Plan)
    requires PageRows(catalog, plan).Some?
    ensures |PageRows(catalog, plan).value| <= plan.limit
    ensures forall p :: p in PageRows(catalog, plan).value ==> Catalog.Matches(p, plan.search, plan.sale)
  {
    var rows := PageRows(catalog, plan).value;
    var selected := Catalog.Search(catalog, plan.search, plan.sale);
    Catalog.SearchMembers(catalog, plan.search, plan.sale);
    forall p | p in rows ensures Catalog.Matches(p, plan.search, plan.sale) {
      var k :| 0 <= k < |rows| && rows[k] == p;
      assert p == selected[plan.offset + k];
    }
  }

  /** With a positive limit, there is a next link exactly when the next page has rows. */
  lemma NextLinkIffRowsRemain(catalog: seq<Catalog.Product>, plan: Plan, origin: string)
    requires 0 <= plan.offset && 0 < plan.limit
    ensures var selected := Catalog.Search(catalog, plan.search, plan.sale);
      NextLink(plan, |selected|, origin).Some? <==> |Catalog.Window(selected, plan.offset + plan.limit, plan.limit)| > 0
  {
  }

  /**
   * A limit of 0 is accepted (there is no lower bound), and then every page
   * starts at offset 0 and is empty, yet every page has a next link as soon as
   * one product matches.
   */
  lemma ZeroLimitEndlessNext(q: RawQuery, catalog: seq<Catalog.Product>, origin: string)
    requires q.limit == Some(0)
    ensures var plan := PlanOf(q);
      var count := |Catalog.Search(catalog, plan.search, plan.sale)|;
      && plan.limit == 0 && plan.offset == 0
      && PageRows(catalog, plan) == Some([])
      && (count > 0 ==> NextLink(plan, count, origin).Some?)
  {
  }

  /** The page after this one starts where this one ends: together they are the rows of a double page. */
  lemma NextPageContinues(catalog: seq<Catalog.Product>, plan: Plan)
    requires 0 <= plan.offset && 0 <= plan.limit
    ensures var next := plan.(page := plan.page + 1, offset := plan.offset + plan.limit);
      && PageRows(catalog, plan).Some? && PageRows(catalog, next).Some?
      && PageRows(catalog, plan).value + PageRows(catalog, next).value ==
           Catalog.Window(Catalog.Search(catalog, plan.search, plan.sale), plan.offset, 2 * plan.limit)
  {
    Catalog.ConsecutivePages(Catalog.Search(catalog, plan.search, plan.sale), plan.offset, plan.limit);
  }
}

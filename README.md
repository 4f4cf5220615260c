# Products controller of a catalog REST API, modelled in Dafny

This project models the products controller of an Express/Sequelize catalog
API (`src/controllers/productsController.js`). It covers the logic that runs
between reading a request and calling the database or the data file:

- **Listing** (`list`). The query parameters are read with their defaults
  (limit 4, page 1, order `ASC`, sort key `id`, empty search, discount floor 0).
  The limit is capped at 16 and the offset is computed. The order and the sort
  key are checked case-insensitively against their whitelists, and the ordering
  term is chosen from them. The where clause selects products whose name,
  description or category name contains the search text and whose discount
  reaches the floor. The `&key=value` suffix of the page links is written one
  key at a time. The previous and next links are emitted only when such a page
  exists.
- **Editing the product file** (`update`, `destroy`). This is the `map` that
  rebuilds the product with the edited id, and the `filter` that drops it.
- **`toThousand`**. A natural number is written with `.` between groups of
  three digits.

Modules:

| file | module | what it holds |
|---|---|---|
| `options.dfy` | `Options` | `Option` with `GetOr`, for JavaScript's destructuring defaults |
| `text.dfy` | `Text` | case mapping modelled on `toUpperCase`/`toLowerCase` for the characters that matter, a model of `trim` over the JavaScript whitespace set, substring containment, writing and reading decimal integers |
| `thousands.dfy` | `Thousands` | `toThousand` as the regular-expression replacement, and a reference grouping from the right |
| `catalog.dfy` | `Catalog` | products with their category, the where clause, the selection, the page window of `LIMIT`/`OFFSET` |
| `querystring.dfy` | `QueryString` | how a link's query string is read back into parameters (first `?`, up to `#`, split at `&`, key up to the first `]=` or else the first `=`, as Express's default `qs` parser splits it, `+` as a space) |
| `query_planner.dfy` | `QueryPlanner` | the listing: the `Normalize` and `List` methods, the functions that specify them, and lemmas about limits, whitelists, ordering, links and following a link |
| `product_file.dfy` | `ProductFile` | the `update` map and the `destroy` filter over the product list, and their properties |

The listing is imperative in the source: it reassigns `limit`, `page`, `order`
and `sortBy`, and it appends to `queryUrl` in a `for…in` loop. So it is
modelled by two methods. `QueryPlanner.Normalize` covers lines 16–27.
`QueryPlanner.List` calls it and then runs the rest, with the loop and its
invariant. Both are proved against the functions `PlanOf`, `Suffix`,
`PageRows`, `PrevLink` and `NextLink`, and the lemmas state their properties.
The where clause, the ordering term, `toThousand`, and the `map`/`filter` of
`update`/`destroy` are pure expressions in the source; they are modelled as
functions.

The database call `findAndCountAll` is abstracted:

- the count is the number of products of the catalog that the where clause selects;
- the rows are the window of that selection at the offset, at most `limit` long.

Three behaviours are modelled as the code has them:

- `sortBy=Category` (or `Newest`) passes the case-insensitive whitelist. Line 27
  compares case-sensitively, though, so the ordering term becomes
  `["Category", order]` (`QueryPlanner.MixedCaseSortKeys`).
- The links write the search text without escaping it. Following a link gives
  back the same plan on the neighbouring page when the search holds none of
  `&`, `#`, `%`, `+`, `]`; that direction is what the proofs show. The trip is
  lost for a search holding `&`, `#`, `+`, a `]=` or a well-formed
  percent-escape. `QueryPlanner.AmpersandSearchLost` shows that a search for
  `a&b=c` links to a page that searches `a`. `QueryString.BracketMovesKey`
  shows that the segment `search=a]=b` is read with the key `search=a]`. A `]`
  without `=` after it is harmless (`QueryString.LoneBracketKept`), but the
  proofs of the whole trip exclude every `]`.
- The limit has no lower bound, and a limit of 0 is accepted. Every page then
  has offset 0 and no rows, yet it has a next link as soon as one product
  matches (`QueryPlanner.ZeroLimitEndlessNext`).

## Model

| member | source | states |
|---|---|---|
| QueryPlanner.Normalize | src/controllers/productsController.js:16-27 | the step-by-step reassignment of limit, page, order and sortBy, the offset and the ordering term give exactly the plan `PlanOf(q)` |
| QueryPlanner.List | src/controllers/productsController.js:16-116 | the listing: the plan is `PlanOf(q)`; the total is the number of matching products; the rows are the plan's page of them; the quantity is the number of rows; the loop writes exactly the suffix `Suffix(QueryKeys(plan))` into the prev/next links, which exist under the source's conditions |
| QueryPlanner.LimitNormalisation | src/controllers/productsController.js:16-19 | the limit is at most 16; it is 4 when absent, 16 when more than 16 is requested, and the requested value otherwise; normalising it again changes nothing |
| QueryPlanner.OffsetOfPage | src/controllers/productsController.js:20-21 | the offset is limit × (page − 1); page 1, or no page, gives offset 0 |
| QueryPlanner.DefaultsAccepted | src/controllers/productsController.js:24-25 | `ASC` and `DESC` pass the order whitelist; the default sort key `id` is not in the sort-key whitelist |
| QueryPlanner.OrderNormalisation | src/controllers/productsController.js:24 | the order is kept as spelled exactly when its upper-case form is ASC or DESC, and is ASC otherwise; the result always passes, so normalising again does not change it |
| QueryPlanner.SortByNormalisation | src/controllers/productsController.js:25 | the sort key is kept as spelled exactly when its lower-case form is one of the five keys, and is `id` otherwise; normalising again does not change it |
| QueryPlanner.OrderQueryChoice | src/controllers/productsController.js:27 | `newest` sorts by `createdAt DESC` whatever the order; `category` sorts by category name in the requested order; every other key sorts by itself in the requested order |
| QueryPlanner.MixedCaseSortKeys | src/controllers/productsController.js:25-27 | `Category` and `Newest` are accepted, kept as spelled, and then fall into the generic `[sortBy, order]` branch |
| QueryPlanner.NormalizeIdempotent | src/controllers/productsController.js:16-27 | planning the parameters of a normalised plan gives the same plan |
| QueryPlanner.DirectionSpellings | src/controllers/productsController.js:24 | an order passes the whitelist exactly when it spells `ASC` or `DESC` letter by letter, each letter as itself, its small letter, or (for `S`) the long s U+017F; the dotless i U+0131, spelling `I`, plays no part because neither word holds an `I` |
| QueryPlanner.SortKeySpellings | src/controllers/productsController.js:25 | a sort key passes the whitelist exactly when it spells one of `name`, `price`, `discount`, `category`, `newest` letter by letter, each letter as itself or its capital (or, for `k`, the Kelvin sign) |
| Text.ToUpperIsWord | src/controllers/productsController.js:24 | the upper-case form of a string is a given word of capitals exactly when the string spells that word letter by letter in any case |
| Text.ToLowerIsWord | src/controllers/productsController.js:25 | the lower-case form of a string is a given word of small letters exactly when the string spells that word letter by letter in any case |
| QueryPlanner.NormalizedPlain | src/controllers/productsController.js:24-25 | a normalised order or sort key holds none of `&`, `#`, `%`, `+`, `]` |
| QueryPlanner.SuffixLayout | src/controllers/productsController.js:85-99 | the suffix is `&limit=L&order=O&sortBy=S&search=Q&sale=D`; each key appears once, in this order |
| QueryPlanner.SuffixAppend | src/controllers/productsController.js:93-99 | the suffix written for two lists of keys one after the other is the two suffixes concatenated |
| QueryPlanner.SuffixJoin | src/controllers/productsController.js:93-106 | `page=P` followed by the suffix is the `&`-join of the `key=value` segments of all the link's parameters |
| QueryPlanner.PrevLinkCondition | src/controllers/productsController.js:102-105 | there is a previous link exactly when page > 1; it asks for page − 1 and carries the suffix |
| QueryPlanner.NextLinkCondition | src/controllers/productsController.js:103-106 | there is a next link exactly when offset + limit < count; it asks for page + 1 and carries the suffix |
| QueryPlanner.ReadPageLink | src/controllers/productsController.js:105-106 | reading back the query string of a page link gives `page` and the five keys with their values, in order, when no value needs escaping |
| QueryPlanner.RequestOfLinkPairs | src/controllers/productsController.js:16-20 | the link's parameters, read as a request (`limit`, `page` and `sale` as numbers, the way `+limit` and `+page` read them; `order`, `sortBy` and `search` as strings), are the plan's own values with the page replaced |
| QueryPlanner.FollowPageLink | src/controllers/productsController.js:102-106 | following a page link makes the request of the current plan with only the page changed, when the search is plain |
| QueryPlanner.FollowOnPage | src/controllers/productsController.js:16-21 | the request that a link to page P makes is planned as the current plan with page P and that page's offset |
| QueryPlanner.FollowNext | src/controllers/productsController.js:103-106 | following the next link plans page + 1 with offset + limit, every other value unchanged |
| QueryPlanner.FollowPrev | src/controllers/productsController.js:102-105 | following the previous link plans page − 1 with offset − limit, every other value unchanged |
| QueryPlanner.AmpersandSearchLost | src/controllers/productsController.js:95-106 | the search `a&b=c` is lost: the link to page 2 is read as a request that searches `a` |
| QueryPlanner.PageRowsMatch | src/controllers/productsController.js:29-82 | the page holds at most `limit` rows, and each of them satisfies the where clause |
| QueryPlanner.NextLinkIffRowsRemain | src/controllers/productsController.js:103 | with a positive limit, the next link exists exactly when the next page has rows |
| QueryPlanner.ZeroLimitEndlessNext | src/controllers/productsController.js:19-21 | with limit 0 every page has offset 0 and no rows, and it has a next link whenever at least one product matches |
| QueryPlanner.NextPageContinues | src/controllers/productsController.js:19-32 | this page and the next one neither overlap nor leave a gap: together they are the rows of a double-sized page at this offset |
| Catalog.Search | src/controllers/productsController.js:82 | the count of selected rows is at most the number of products |
| Catalog.SearchMembers | src/controllers/productsController.js:52-77 | a product is selected exactly when it is in the catalog and its name, description or category name contains the search text and its discount is at least the floor |
| Catalog.EmptySearchMatches | src/controllers/productsController.js:52-77 | with the empty search a product matches exactly when its discount reaches the floor |
| Catalog.EmptySearchIsDiscountFloor | src/controllers/productsController.js:52-77 | with the default empty search the selection is the discount-floor filter |
| Catalog.SearchAppend | src/controllers/productsController.js:52-82 | selection keeps relative order: selecting from `a + b` is selecting from `a`, then from `b` |
| Catalog.Window | src/controllers/productsController.js:29-32 | the page has min(limit, rows − offset) rows (none past the end), and row k of the page is row offset + k of the selection |
| Catalog.ConsecutivePages | src/controllers/productsController.js:29-32 | two consecutive windows concatenate to the double window |
| Text.Trim | src/controllers/productsController.js:198-200 | the trimmed string is the input minus whitespace before and after, and it neither starts nor ends with whitespace |
| Text.TrimIdempotent | src/controllers/productsController.js:198-200 | trimming twice is trimming once |
| Text.ContainsIffOccurs | src/controllers/productsController.js:52-69 | `Op.substring`: the search text is contained exactly when it occurs at some position |
| Text.NatToString | src/controllers/productsController.js:8 | `n.toString()` for a natural: at least one digit, only digits, no leading zero |
| Text.IntToStringRoundTrip | src/controllers/productsController.js:20 | reading the decimal text of an integer with `+` gives the integer back |
| Text.IntToStringChars | src/controllers/productsController.js:97 | the decimal text of an integer holds only digits and a leading minus |
| Thousands.SeparateIsGrouped | src/controllers/productsController.js:8 | the regular-expression replacement equals the grouping into threes from the right |
| Thousands.ToThousandDigits | src/controllers/productsController.js:8 | deleting every `.` from `toThousand(n)` gives the decimal digits of n |
| Thousands.ToThousandGroups | src/controllers/productsController.js:8 | `toThousand(n)` is a first group of one to three digits followed by `.`-separated groups of exactly three |
| Thousands.ToThousandBelowThousand | src/controllers/productsController.js:8 | below 1000 nothing is inserted |
| Thousands.ToThousandExample | src/controllers/productsController.js:8 | 1234567 is written `1.234.567` |
| QueryString.LookupFirst | src/controllers/productsController.js:16 | a parameter read by name has the value of the first segment with that key |
| QueryString.BracketMovesKey | src/controllers/productsController.js:97 | a value written with `]=` in it moves the key/value split: `search=a]=b` is read as the key `search=a]` |
| QueryString.ReadPairOfSegment | src/controllers/productsController.js:97 | a segment `k=v` is read back as `(k, v)` when the key holds no `]` or `=` and the value holds no `]=` |
| QueryString.LoneBracketKept | src/controllers/productsController.js:97 | a `]` not followed by `=` leaves the split at the first `=`: `search=a]b` is read as `search` with the value `a]b` |
| QueryString.WriteThenRead | src/controllers/productsController.js:95-99 | writing plain pairs as `k=v` joined by `&` and reading them back gives the pairs |
| ProductFile.Updated | src/controllers/productsController.js:195-205 | the edited product keeps its id and image; it takes price, discount and category from the form; its name and description are the form's with the surrounding whitespace cut, and neither starts nor ends with whitespace |
| ProductFile.Update | src/controllers/productsController.js:194-207 | same length; every product with the id is edited and every other product is kept, in place |
| ProductFile.UpdateAbsent | src/controllers/productsController.js:194-207 | an id no product has leaves the list unchanged |
| ProductFile.UpdateKeepsIds | src/controllers/productsController.js:194-207 | the ids of the list, in order, are unchanged |
| ProductFile.UpdateIdempotent | src/controllers/productsController.js:194-207 | submitting the same form twice is submitting it once |
| ProductFile.Destroy | src/controllers/productsController.js:216 | the list never grows |
| ProductFile.DestroyMembers | src/controllers/productsController.js:216 | a product remains exactly when it was in the list and has another id |
| ProductFile.DestroyRemovesId | src/controllers/productsController.js:216 | afterwards no product has the deleted id |
| ProductFile.DestroyAppend | src/controllers/productsController.js:216 | the remaining products keep their order: deleting from `a + b` is deleting from `a`, then from `b` |
| ProductFile.DestroyAbsent | src/controllers/productsController.js:216 | an id no product has leaves the list unchanged |
| ProductFile.DestroyIdempotent | src/controllers/productsController.js:216 | deleting twice is deleting once |
| ProductFile.DestroyCount | src/controllers/productsController.js:216 | exactly one product fewer for each product with the id |
| ProductFile.DestroyAfterUpdate | src/controllers/productsController.js:194-216 | deleting an edited product gives the same list as deleting it unedited |

## Left out

- The Sequelize calls are not modelled: `findAndCountAll`, `findByPk` and `Product.create` are database I/O. `findAndCountAll` becomes the selection over a catalog sequence and its window. The `subQuery: false` join semantics, SQL `LIKE` collation, and `%`/`_` in the search acting as wildcards are outside the model.
- The store's ordering is not modelled. The ordering term is computed and stated in `Plan.orderQuery`, and the rows are taken in catalog order, because sorting is done by the database.
- `QueryPlanner.List`: what happens for a negative limit or offset is not modelled. That is a page of 0 or below, or a negative requested limit. The handler then passes a negative `LIMIT` or `OFFSET` to the store, and stores such as MySQL and PostgreSQL reject it, so the `catch` (lines 121–127) answers with the error envelope and no `meta`. The model returns `None` for the rows and the quantity there, but it still returns a total and links. That `meta` holds only if the store accepts the query.
- The `CONCAT(...)` SQL literals that compute `url` fields, and the `include`/`attributes` lists, are not modelled. They are SQL strings evaluated by the database. The origin of the links (protocol, host, base path) is a parameter.
- The `loadProducts`/`storeProducts` file I/O, the `res.status/json/redirect` responses, the `catch` paths with `sendSequelizeError`, and `console.log` are not modelled. `update` and `destroy` take and return the product list.
- The `detail`, `store` and `getImage` handlers are not modelled. They are thin wrappers over database and filesystem calls.
- The route files `src/routes/products.js` and `src/routes/users.js` are not part of this model. They only wire Express routes.
- JavaScript's string-to-number coercion is not modelled. The numeric parameters (`limit`, `page`, `sale`, and the form's `price` and `discount`) are integers, and NaN and non-numeric strings are outside the model. `Text.ParseDecimal` (used by `QueryPlanner.ReadNumber`) reads an optional minus sign followed by decimal digits, leading zeros and `-0` included, as `+` does. The other strings that `+` turns into numbers (empty, surrounding white space, `0x…`, exponents, `Infinity`) read as no request. A `sale` given as a string is taken as its number. JavaScript numbers are exact only up to 2^53, while the model's integers are unbounded, so limits, pages, offsets and discounts beyond that are not modelled.
- `QueryString.Decode`: percent-escapes in a link are not decoded, and a component holding `%` reads as no request. `qs` decodes a well-formed escape and keeps a malformed one such as `100%` as it is written. The listing never writes `%` into a plain link.
- `Text.ToUpper` and `Text.ToLower` map ASCII letters, U+0131 (upper case `I`), U+017F (upper case `S`) and U+212A (lower case `k`). Those three are the only non-ASCII characters whose JavaScript case mapping is a single ASCII letter. Only U+017F can affect a whitelist, because `ASC` and `DESC` hold an `S` but no `I`, and no sort key holds a `k`. Other Unicode case mappings keep the character unchanged, including the ones that change the length (their results are never exactly one of the whitelisted words), and so cannot change whether a string is accepted.
- A parameter given twice (`?order=ASC&order=DESC`) is read by the `qs` parser as an array. `toUpperCase`/`toLowerCase` (lines 24–25) then throw into the `catch`. `QueryString.Lookup` takes the first value instead. The other features of `qs` are not modelled either: nested keys (`a[b]=`), the limit of 1000 parameters, dropping segments with an empty key, and charset handling. The parser itself is Express configuration and is not part of the source.
- `Thousands.ToThousand` is modelled for naturals only. The exponent form that `toString` uses for very large numbers, and non-integers, are not modelled.
- `ProductFile.Updated`: a record has only the seven fields that `update` writes. So the model cannot show that `update` drops any other field a stored product has.
- `QueryPlanner.FollowPageLink`, `QueryPlanner.FollowNext` and `QueryPlanner.FollowPrev` require a search without `&`, `#`, `%`, `+` or `]`. The source does not escape the search. The trip is lost for a search holding `&`, `#`, `+`, a `]=` or a well-formed percent-escape (`QueryPlanner.AmpersandSearchLost`, `QueryString.BracketMovesKey`). Searches holding a `]` without `=` after it, or a `%` that starts no escape, are outside these lemmas, though the first kind also reads back (`QueryString.LoneBracketKept`).

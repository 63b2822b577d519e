# VaeDB, verified

VaeDB answers queries over one XML document per site. This project models the hand-written logic
of that server in Dafny and proves properties of it for all inputs, all runs and all
interleavings:

- **Sorting.** The tokenizer, the float merging and the tolerance comparison of `str_compare_nat`
  (`Tokenizer`, `Numerals`, `DoublePrecision`, `NaturalOrder`), what that order looks like in digits
  and characters (`NaturalOrderLaws`), and the multi-key comparator that hands it to `std::sort`
  (`SortOrder`, `StrictWeakOrders`).
- **The result pipeline.** Filtering, de-duplicating, paging, grouping, ordering and re-windowing
  in `Response::query` (`Selection`, `SinglePrecision`, `Paging`, `ResponseQuery`). Both
  floating-point formats are instances of one rounding function (`Rounding`).
- **Caching.** The LRU cache with real list nodes on the heap (`LinkedList`, `RecencyList`,
  `LruCache`), its use in `Site::fetch_query` (`SiteQueries`), and the two-level cache over MySQL
  and memcache, call by call (`CacheKeys`, `TieredCache`, `CacheLaws`) and with the calls of many
  threads interleaved (`CacheInterleaving`).
- **Concurrency.** The connection pools (`ConnectionPool`) and the site-loading locks
  (`SiteLoading`) as step relations over any number of threads, and the lease in the `locks`
  table (`SiteLock`).
- **Queries.** Permalink resolution (`Permalinks`, `Paths`) and the five rewriting loops
  (`IdRule`, `MarkRules`, `QueryRewriting`), spelled out in characters (`QueryLaws`).

Code that changes state step by step is a method with loops, or a class with the source's fields,
proved equal to a function of its inputs or of its old state; the theorems are lemmas about these
functions. Concurrent code is a relation between states, one action of one thread at a time, and
its theorems hold in every state of every run. `Wrappers` holds `Option` and `Result`, `Characters`
and `Alternation` what several modules say about strings and positions. There is one module per
file; `dafny verify dfyconfig.toml` checks them all.

## What does not hold

Some properties one would expect fail. Each is stated with the condition under which it holds, as
an if-and-only-if, and with an input on which it fails.

- `str_compare_nat` is not transitive on all strings. Numbers are cast to doubles and differences
  below 1e-10 are ties, so with ten fractional digits ties chain: 0.0000000005, 0.0000000006,
  0.0000000007. A number too large for a double is compared as text, so 9, 10 and 2 * 10^308 form a
  cycle. The order is transitive on all strings whose numbers have at most W digits before and D
  behind the point if and only if W = 0, or D <= 9 and W <= 308
  (`NaturalOrder.TransitiveExactly`, `TenDigitsNotTransitive`, `HugeNumbersNotTransitive`).
- The cast of a number token throws if and only if its value is 2^1024 - 2^970 or more
  (`NaturalOrder.CastSucceedsExactly`, `HugeNumber`).
- Names that differ in a whole number at their end are ordered by its value, for all numbers up to
  N, if and only if N <= 2^53 (`NaturalOrder.ByValueExactlyUpToTwoTo53`, `NextToTwoTo53`).
- `sortCallback` is not always the strict weak ordering that `std::sort` asks for. As far as comparing
  does not throw, it is one on all contexts whose compared data hold numbers of at most W digits
  before and D behind the point if and only if the field that always decides is not `DESC(id)`,
  which answers true on equal ids, and either no data field is compared, or W = 0, or D <= 9 and
  W <= 308 (`SortOrder.OrdersExactly`, `DescIdIsReflexive`, `CircleIsNoOrder`).
- The single-precision page count is exact for all counts up to N if and only if N <= 2^24
  (`SinglePrecision.ExactUpToTwoTo24`, `CeilQuotientFailsBeyond`).
- `last()` is computed before filtering. As long as at most 2^24 items are behind skip, it shows the
  last item of the filtered list if and only if filtering has not lowered the number of pages
  (`Paging.LastPage`, `LastPageMissesItem`).
- A filter without terms should change nothing. It changes the answer if and only if the answer is
  not ordered, some node in the window has no context and some node behind it has one
  (`ResponseQuery.EmptyFilterChangesNothing`, `EmptyFilterWitness`).
- Unique-field keys are joined with `~!~`. A value with another field behind it can be mistaken for
  a shorter one if and only if it contains the separator or ends in `~!` (`Selection.SafeExactly`,
  `KeysCollide`). The last field's value never can (`Selection.JoinedInjective`).
- The memcache keys of two sites can meet. An answer of `longTermCacheGet` was set for that site and
  key, on every run and in every interleaving, if and only if the sites are apart: for no two of
  them is one's short-term head `VaedbProxy:a:` a prefix of the other's long-term head
  `VaedbProxy:bLongTerm2:` or the other way round, and no long-term head is a prefix of another
  site's (`TieredCache.AnswersWereSetExactly`, `CacheInterleaving.AnswersAreGivenExactly`). The sites
  `x` and `xLongTerm2` are not apart, nor are `x` and `xLongTerm2:y` (`SitesCollide`,
  `SitesWithColonCollide`). Without `:` in the names, sites are apart if and only if none is called
  like another one followed by `LongTerm2` (`CacheKeys.ColonFreeApartExactly`).
- `useShortTermCache` can change the answer. While the stores can be read, it does so if and only if
  memcache holds a non-empty value other than the row's (`TieredCache.GetsAgreeExactly`). A call
  avoids that in every state if and only if it changes both stores alike and puts nothing but empty
  values under a memcache key that another of the sites reads (`TieredCache.StepKeepsFreshExactly`).
  `longTermCacheEmpty` does not: afterwards the answers agree if and only if memcache held nothing
  for the key (`TieredCache.EmptyAgreesExactly`, `EmptyLeavesStaleAnswers`). Nor does a get that is
  overtaken by a set: when it stores what it has read, the key stays fresh if and only if that is
  empty or still the row's value (`CacheInterleaving.StoreKeepsFreshExactly`,
  `RaceLeavesStaleAnswer`).
- `fetch_ptr` ignores its flag and always touches, although its comment says otherwise. With
  touch = false the recency order stays as it is if and only if the key is unknown or already first
  (`LruCache.Cache.FetchPtr`, `RecencyList.ToFrontUnchanged`, `TouchSwapsTwo`).

## Model

| member | source | states |
|---|---|---|
| Tokenizer.RunEndIsMaximal | cpp/util.cpp:31-35 | a token ends exactly where its run of text or digits does: nothing of the other kind inside, the other kind (or the end) behind |
| Tokenizer.TokenEnd | cpp/util.cpp:31-35 | the loop finds that end |
| Tokenizer.TokenizeString | cpp/util.cpp:37-50 | the do-while, whose first round may not advance, ends and produces the tokens of the string |
| Tokenizer.TokensFromShape | cpp/util.cpp:37-50 | the tokens put together are the input, kinds alternate, only the first and the last may be empty and the last is |
| Tokenizer.TokenizationIsUnique | cpp/util.cpp:37-50 | any list of strings with that shape is the tokenizer's output |
| Tokenizer.MergeFloats | cpp/util.cpp:52-71 | the two index loops compute the merge of "digits . digits" |
| Tokenizer.MergedTokensShape | cpp/util.cpp:52-71 | for every string, merging loses nothing, keeps text at even and numbers at odd positions, leaves every number empty, digits or digits.digits, and leaves nothing to merge |
| Rounding.RoundErrorPositive | cpp/util.cpp:103-105 | rounding moves a number by less than one part in twice the unit, for any significand width |
| Rounding.RoundMonotone | cpp/util.cpp:103-105 | rounding is monotone |
| Rounding.RoundFixesIntegers | cpp/util.cpp:103-105 | rounding fixes the integers up to twice the unit |
| Rounding.RoundDoubled | cpp/util.cpp:103-105 | rounding commutes with scaling by powers of two |
| Rounding.RoundIsInteger | cpp/util.cpp:103-105 | from the unit on, rounded numbers are integers |
| DoublePrecision.FitsExactly | cpp/util.cpp:103-104 | a number rounds to a finite double if and only if it is below 2^1024 - 2^970 |
| DoublePrecision.TiedSymmetric | cpp/util.cpp:105 | the tolerance test is reflexive and symmetric |
| DoublePrecision.FarIsNotTied | cpp/util.cpp:105 | doubles at least 2^-33 apart are told apart |
| DoublePrecision.NinePlacesTieOnlyIfEqual | cpp/util.cpp:105 | for numbers of whole billionths, of any size, the tolerance test on their doubles is equality of the doubles |
| DoublePrecision.TiesChain | cpp/util.cpp:105 | the doubles of 7e-10 and 6e-10 are tied, those of 6e-10 and 5e-10 too, those of 7e-10 and 5e-10 are not |
| Numerals.NumeralBelow | cpp/util.cpp:61-62 | a numeral's value is below ten to the number of its digits before the point |
| Numerals.NumeralIsMultipleOfNano | cpp/util.cpp:61-62 | with at most nine fractional digits it is a whole number of billionths |
| NaturalOrder.CastSucceedsExactly | cpp/util.cpp:101-108 | number tokens are numerals, and the cast of one succeeds if and only if its value is below 2^1024 - 2^970; with 308 digits before the point it always does |
| NaturalOrder.HugeNumber | cpp/util.cpp:103-108 | a numeral of 309 digits on which it throws |
| NaturalOrder.StrCompareNat | cpp/util.cpp:73-117 | the comparison loop computes the lexicographic comparison of the merged tokens, numbers as doubles, or as text when one cannot be cast |
| NaturalOrder.NumbersCompareByValue | cpp/util.cpp:101-107 | names that differ in a whole number of at most 2^53 at their end are ordered by its value |
| NaturalOrder.NextToTwoTo53 | cpp/util.cpp:103-105 | 2^53 and 2^53 + 1 are not told apart |
| NaturalOrder.ByValueExactlyUpToTwoTo53 | cpp/util.cpp:101-107 | the order by value holds for all numbers up to N if and only if N <= 2^53 |
| NaturalOrder.TextComparesByCharacters | cpp/util.cpp:110-111 | strings without digits are ordered character by character, the smaller one first |
| NaturalOrder.CompareNatAntisymmetric | cpp/util.cpp:73-117 | for all strings compare(a, b) = -compare(b, a) and compare(a, a) = 0 |
| NaturalOrder.ToleranceIsEquality | cpp/util.cpp:105 | on numerals with at most nine fractional digits the tolerance test is equality of their doubles |
| NaturalOrder.CompareNatTransitive | cpp/util.cpp:73-117 | on strings whose numbers have at most nine fractional digits and fit a double, the order is transitive, and ties compose only with ties |
| NaturalOrder.TenDigitsNotTransitive | cpp/util.cpp:105 | three strings with ten fractional digits on which it is not |
| NaturalOrder.HugeNumbersNotTransitive | cpp/util.cpp:102-111 | three whole numbers, one of 309 digits, that form a cycle |
| NaturalOrder.BeyondReach | cpp/util.cpp:101-111 | for W > 0 and D > 9 or W > 308, three strings within these digits that go round in a circle |
| NaturalOrder.TransitiveExactly | cpp/util.cpp:73-117 | transitivity on all strings whose numbers have at most W digits before and D behind the point holds if and only if W = 0, or D <= 9 and W <= 308 |
| NaturalOrderLaws.DigitsConcat | cpp/util.cpp:103-104 | digits are read by place value: the value of two runs of digits put together is the first times ten to the length of the second, plus the second |
| NaturalOrderLaws.LongerIsLarger | cpp/util.cpp:103-106 | of two whole numbers, the one with more digits and no leading zero is larger |
| NaturalOrderLaws.FirstDigitDecides | cpp/util.cpp:103-106 | of two whole numbers with equally many digits, the first different digit decides |
| NaturalOrderLaws.FewerDigitsComeFirst | cpp/util.cpp:73-117 | behind the same text, a number of fewer digits comes first, for up to 15 digits |
| NaturalOrderLaws.SmallerDigitComesFirst | cpp/util.cpp:73-117 | behind the same text, of two numbers with equally many digits the one with the smaller first different digit comes first, for up to 15 digits |
| NaturalOrderLaws.LeadingZeroTies | cpp/util.cpp:103-105 | a leading zero makes no difference |
| NaturalOrderLaws.DecimalIsFraction | cpp/util.cpp:61-62 | "l.r" is the number of all its digits, divided by ten to the number of digits behind the point |
| NaturalOrderLaws.DecimalsCompareByValue | cpp/util.cpp:101-107 | names that end in decimals with equally many, at most nine, digits behind the point are ordered by the number that all their digits make, for up to 2^51 |
| NaturalOrderLaws.TrailingZeroTies | cpp/util.cpp:103-105 | a zero behind the digits of a fraction makes no difference |
| NaturalOrderLaws.ZeroFractionTies | cpp/util.cpp:103-105 | nor does the fraction ".0" behind a whole number |
| NaturalOrderLaws.QuarterBeforeHalf | cpp/util.cpp:103-106 | 1.25 comes before 1.5 |
| NaturalOrderLaws.CompareNatRange | cpp/util.cpp:73-117 | the answer is -1, 0 or 1 |
| NaturalOrderLaws.SmallerCharacterComesFirst | cpp/util.cpp:110-111 | without digits, the string with the smaller first different character comes first, and a prefix before the longer string |
| NaturalOrderLaws.NumbersComeBeforeText | cpp/util.cpp:97-99 | a string that begins with a digit comes before one that begins with another character |
| NaturalOrderLaws.EmptyComesFirst | cpp/util.cpp:97-99 | the empty string comes before every other |
| NaturalOrderLaws.NameComesBeforeNumbered | cpp/util.cpp:115-116 | a name comes before the same name with a number behind it |
| NaturalOrderLaws.TextBehindNumber | cpp/util.cpp:73-117 | behind equal text the numbers decide, and only if they are equal the text behind them |
| SortOrder.SortCallback | cpp/response.cpp:300-323 | the loop over the sort fields computes the callback's answer, or the exception of an empty data query |
| SortOrder.CallbackIsRank | cpp/response.cpp:300-323 | the callback says "comes first by the fields up to the first id", except that a final DESC(id) turns ties into true |
| SortOrder.RankAntisymmetric | cpp/response.cpp:300-323 | swapping the two contexts negates their rank, for every list of fields |
| SortOrder.RankTransitive | cpp/response.cpp:300-323 | rank is transitive, and ties compose only with ties, over any mix of ascending and descending id, count and data fields with such numbers |
| SortOrder.OneFieldDecides | cpp/response.cpp:303-319 | by a single field, the smaller id, count or natural-order value comes first, and with Desc the larger |
| SortOrder.FieldsDecideInTurn | cpp/response.cpp:302-320 | a field has its say only when those before it tie |
| SortOrder.ConsultedExactly | cpp/response.cpp:303-320 | all fields can be consulted, or those up to and including the first id |
| SortOrder.ThrowsExactly | cpp/response.cpp:311-312 | comparing throws exactly when it comes to an empty data query, all fields before it being ties and none of them id |
| SortOrder.CallbackIsStrictWeakOrder | cpp/response.cpp:300-323 | on contexts whose compared numbers have at most nine fractional digits and fit a double, the callback is a strict weak ordering if and only if it does not end in DESC(id) |
| SortOrder.CircleIsNoOrder | cpp/response.cpp:300-323 | three values that go round in a circle by the first compared data field give three contexts on which the callback is no strict weak ordering, whatever the other fields |
| SortOrder.OrdersExactly | cpp/response.cpp:300-323 | where comparing does not throw, the callback is a strict weak ordering on all lists of contexts with at most W digits before and D behind the point if and only if it does not end in DESC(id), and compares no data, or W = 0, or D <= 9 and W <= 308 |
| SortOrder.DescIdIsReflexive | cpp/response.cpp:303-319 | sorted by DESC(id), every context comes before itself |
| SortOrder.InsertionPoint | cpp/response.cpp:282-284 | the list splits into a part whose last element the new one does not come before, and a part that it comes before |
| SortOrder.StdSort | cpp/response.cpp:282-284 | with a strict weak ordering the result is a sorted rearrangement of the contexts; on comparable contexts without a final DESC(id), none has a negative rank against a later one; comparing throws only where a consulted field is the empty data query |
| SortOrder.SortedById | cpp/response.cpp:282-304 | sorted by id, ids never fall; sorted by DESC(id), they never rise |
| StrictWeakOrders.InsertKeepsSorted | cpp/response.cpp:282-284 | under a strict weak ordering, inserting behind the first element that is not after it keeps a sorted rearrangement |
| Selection.NothingUnmatched | cpp/response.cpp:184-204 | erasing each term as some visited text contains it leaves none exactly when every term occurs in a text child or in a text child of an element child |
| Selection.FoundExactly | cpp/response.cpp:196 | a term is found exactly where its characters stand, ASCII letters in either case |
| Selection.FoundInAnyCase | cpp/response.cpp:196 | "JAZZ" is found in "all that jazz" |
| Selection.TwoLevels | cpp/response.cpp:190-204 | a text is searched as a child and as a grandchild, not deeper |
| Selection.JoinedInjective | cpp/response.cpp:325-336 | between tuples whose values are safe but for the last one, equal joined keys mean equal tuples |
| Selection.SafeExactly | cpp/response.cpp:328-330 | a value neither contains the separator nor ends in "~!" if and only if, with another field behind it, it cannot be mistaken for a shorter value |
| Selection.KeySpelled | cpp/response.cpp:328-330 | the key of the values a and b is "a~!~b~!~" |
| Selection.KeysCollide | cpp/response.cpp:328-330 | two different pairs of values with the same key |
| Selection.ChosenByTuple | cpp/response.cpp:251-270 | if all but the last field's values are safe, a node is chosen exactly if it passes the filter and differs in some unique field from every passing node before it |
| Selection.SelectedInOrder | cpp/response.cpp:251-270 | the selected nodes are exactly the chosen ones, at rising positions |
| SinglePrecision.FloatError | cpp/response.cpp:222-226 | rounding to a float moves a number by less than 2^-24 of its magnitude |
| SinglePrecision.FloatMonotone | cpp/response.cpp:222-226 | it is monotone |
| SinglePrecision.FloatFixesIntegers | cpp/response.cpp:222-226 | it fixes the integers up to 2^24 in magnitude |
| SinglePrecision.CeilQuotientIsExact | cpp/response.cpp:222-226 | (int)ceil((float)n / g) is the integer ceiling for -2^24 < n <= 2^24 and every g >= 1 |
| SinglePrecision.CeilQuotientFailsBeyond | cpp/response.cpp:222-226 | it is off by one for n = 2^24 + 1 and g = 1 |
| SinglePrecision.ExactUpToTwoTo24 | cpp/response.cpp:222-226 | exactness for all counts up to N holds if and only if N <= 2^24 |
| Paging.AdjustWindow | cpp/response.cpp:212-238 | the in-place arithmetic on skip_, paginate_ and page_ computes the adjusted window, which has skip_ >= 0 and paginate_ >= 1 |
| Paging.RoundsExact | cpp/response.cpp:216-223 | after p rounds the loop stands at skip + (p-1)*q + min(p-1, r) with q items, or q + 1 for the first r groups |
| Paging.GroupedPage | cpp/response.cpp:216-238 | page p shows just these items: the clamp to one never adds one |
| Paging.GroupsPartition | cpp/response.cpp:216-238 | every position from skip on is shown by exactly one of the pages 1..groups |
| Paging.GroupSizesEven | cpp/response.cpp:216-238 | later pages are never longer, and sizes differ by at most one |
| Paging.GroupsPastTheEnd | cpp/response.cpp:216-238 | with skip past the end, no group shows anything |
| Paging.PagesBeforeTheFirst | cpp/response.cpp:213-231 | a page number of zero or less shows the first page, except -1 without groups |
| Paging.FirstPage | cpp/response.cpp:224-238 | the first page begins at skip, at 0 if that is negative, and has paginate items, one if that is less |
| Paging.PlainPagesPartition | cpp/response.cpp:224-238 | without groups, a position is shown by page (k - skip) / paginate + 1 and by no other |
| Paging.LastPage | cpp/response.cpp:225-231 | last() shows the final item of the unfiltered result; of a filtered one if and only if filtering has not lowered the number of pages |
| Paging.LastPageMissesItem | cpp/response.cpp:225-231 | three items in pages of two, one of them kept by a filter: last() shows none |
| ResponseQuery.Response.EraseTermsIn | cpp/response.cpp:195-202 | erasing while iterating removes exactly the terms that the text contains, keeping the order of the others |
| ResponseQuery.Response.FilterMatchRecursive | cpp/response.cpp:190-204 | the recursion leaves the terms that no visited text contains |
| ResponseQuery.Response.FilterMatch | cpp/response.cpp:184-188 | true exactly when every term occurs in a text child or in a text child of an element child |
| ResponseQuery.Response.UniqueMatch | cpp/response.cpp:325-336 | true exactly when the joined key was not found before; afterwards it is |
| ResponseQuery.Response.Selects | cpp/response.cpp:258 | the short-circuited condition selects the chosen nodes, asking uniqueMatch about passing nodes only, and throws exactly when it asks with an empty unique field |
| ResponseQuery.ChosenByKeysFound | cpp/response.cpp:255-258 | against the keys of the earlier passing nodes, an unseen key means the first node with that key |
| ResponseQuery.Response.CollectSelected | cpp/response.cpp:251-270 | the counters of the loop select the chosen nodes, total them, skip `start` of them and collect the contexts that fit; it throws exactly when uniqueMatch is asked with an empty unique field |
| ResponseQuery.Response.CollectPlain | cpp/response.cpp:271-277 | the contexts of the nodes in the window, and the number of all nodes |
| ResponseQuery.RandomShuffle | cpp/response.cpp:280-281 | a rearrangement, whatever is drawn |
| ResponseQuery.Response.Order | cpp/response.cpp:278-284 | the contexts as they are; backwards, position by position; rearranged; or, on comparable contexts without a final DESC(id), rearranged so that none has a negative rank against a later one |
| ResponseQuery.ReversedAt | cpp/response.cpp:278-279 | position k of the reversed list is position n - 1 - k of the list |
| ResponseQuery.SliceIsWindow | cpp/response.cpp:285-296 | a slice has what the window shows of the list: so many items, in order, from skip on |
| ResponseQuery.Response.Rewindow | cpp/response.cpp:285-296 | erase and resize are drop skip_, then take paginate_ |
| ResponseQuery.Response.Query | cpp/response.cpp:206-298 | one call appends one answer: select, order and window, with nodes without context counted as the code counts them; an exception appends nothing |
| ResponseQuery.AllPathsArePipeline | cpp/response.cpp:239-297 | if every node has a context, all paths are one pipeline: total = number selected, result = take(paginate_, drop(skip_, order(select(nodes)))) |
| ResponseQuery.EmptyFilterSelectsEverything | cpp/response.cpp:251-270 | filtering by no terms selects every node, as not filtering does |
| ResponseQuery.EmptyFilterChangesNothing | cpp/response.cpp:251-277 | a query that filters by no terms has the same answers as one that does not filter if and only if the answer is ordered, no node of the window lacks a context, or none behind it has one |
| ResponseQuery.EmptyFilterWitness | cpp/response.cpp:251-277 | two nodes, the first without context, in a window of one: the filtered answer has a context, the plain one none |
| ResponseQuery.GroupedPagesShowEverything | cpp/response.cpp:216-298 | the windows of pages 1..groups, one after the other, are the list from skip on, also for a list that filtering made shorter |
| LinkedList.List.Attach | cpp/lru_cache.h:222 | the node becomes the first of the ring, the others keep their identity and order |
| LinkedList.List.Erase | cpp/lru_cache.h:268 | the ring without that node, the others keep their identity and order |
| LinkedList.List.SpliceToFront | cpp/lru_cache.h:258 | the same nodes, that one first |
| LruCache.Cache.constructor | cpp/lru_cache.h:105-108 | an empty cache whose list, index and size agree |
| LruCache.Cache.Clear | cpp/lru_cache.h:124-129 | list, index and size are emptied together |
| LruCache.Cache.Exists | cpp/lru_cache.h:135-142 | says whether the key is among the pairs |
| LruCache.Cache.Remove | cpp/lru_cache.h:147-154 | exactly that key's pair is gone, the others keep their order; list, index and size agree |
| LruCache.Cache.Touch | cpp/lru_cache.h:159-162 | the key's pair, if any, is first, the others keep their order |
| LruCache.Cache.FetchPtr | cpp/lru_cache.h:169-175 | the node that holds the key's pair, after touching it whatever the flag says; null exactly for unknown keys; with touch = false the order is unchanged if and only if the key is unknown or already first |
| LruCache.Cache.Fetch | cpp/lru_cache.h:182-207 | the key's data, and a touch exactly if asked for |
| LruCache.Cache.Insert | cpp/lru_cache.h:214-236 | the new pair followed by the others in recency order, cut to what fits; list, index and size agree and size <= max |
| LruCache.Cache.EvictOverflow | cpp/lru_cache.h:229-235 | the eviction loop ends, even when one item exceeds the maximum, and drops pairs from the back until the rest fits |
| LruCache.Cache.TouchEntry | cpp/lru_cache.h:254-260 | moves the node of a known key to the front without touching index or size |
| LruCache.Cache.RemoveEntry | cpp/lru_cache.h:266-278 | one list node, one index entry and that data's size go together |
| LruCache.Cache.GetAllKeys | cpp/lru_cache.h:241-247 | the keys, most recent first |
| RecencyList.FitIsLongestPrefix | cpp/lru_cache.h:229-235 | what eviction keeps is the longest prefix that fits |
| RecencyList.ToFrontAt | cpp/lru_cache.h:254-260 | the touched pair is first and the others keep their order |
| RecencyList.InsertedAt | cpp/lru_cache.h:214-236 | after an insertion the cache is the new pair, then the others without that key, and as many of these from the front as fit |
| RecencyList.OversizedInsertEmptiesCache | cpp/lru_cache.h:229-235 | an insertion leaves the cache empty if and only if the item alone exceeds the maximum |
| RecencyList.WithoutToFront | cpp/lru_cache.h:217-219 | touching a key before removing it makes no difference |
| RecencyList.ToFrontUnchanged | cpp/lru_cache.h:254-260 | touching leaves the order alone if and only if the key is unknown or already first |
| RecencyList.TouchSwapsTwo | cpp/lru_cache.h:169-175 | touching the older of two pairs swaps them |
| SiteQueries.FetchIsTransparent | cpp/site.cpp:164-171 | for every history of calls the answer is that of a freshly built query, and the cached keys are the last 384 misses in insertion order |
| SiteQueries.InterleavedFetchIsTransparent | cpp/site.cpp:164-171 | in every interleaving of the fetch, build and insert steps of any number of threads, answers are those of freshly built queries, and the cache holds at most 384 built queries, one per key |
| SiteQueries.Site.constructor | cpp/site.cpp:18 | a site starts with an empty cache for 384 queries |
| SiteQueries.Site.FetchQuery | cpp/site.cpp:164-171 | one call on the real cache answers and caches as the history says; a query that throws leaves the cache alone |
| ConnectionPool.InvariantHolds | cpp/mysql_proxy.cpp:57-81 | in every state of every run, spurious wakeups included: the counter counts the free entries, each connection in use has exactly one borrower, the "Should never get here" exception has not been thrown, and while a thread waits there are no more free connections than woken threads |
| ConnectionPool.WaitersAreServed | cpp/mysql_proxy.cpp:59-61 | whenever a thread waits in a pool with connections, some thread is woken or some borrower is still to return one |
| ConnectionPool.FreedAt | cpp/mysql_proxy.cpp:74-79 | with distinct connections, freeing changes one entry and counts once |
| ConnectionPool.Pool.constructor | cpp/mysql_proxy.cpp:18-29 | the pool holds exactly the connections that could be made, all free and all counted |
| ConnectionPool.Pool.GetConnection | cpp/mysql_proxy.cpp:57-70 | the critical section waits exactly if nothing is available, else takes the first free entry; the throw behind the loop is unreachable |
| ConnectionPool.Pool.MarkFree | cpp/memcache_proxy.cpp:47-52 | the loop frees every entry of that connection and counts each |
| ConnectionPool.Pool.FreeConnection | cpp/memcache_proxy.cpp:45-54 | the borrower has given its connection back and one waiting thread, if any, is woken; the invariant is kept |
| SiteLoading.InvariantHolds | cpp/vae_db_handler.cpp:21-67 | in every state of every interleaving of getSite, resetSite and reloadSite: each mutex is held by exactly the thread inside its section, keys have distinct mutexes, a key that getSite is loading is not live, and loads, revivals and erasures balance |
| SiteLoading.MutualExclusion | cpp/vae_db_handler.cpp:24-47 | two threads inside the critical sections of one site key are the same thread |
| SiteLoading.LoadNeverOverwrites | cpp/vae_db_handler.cpp:26-33 | when a getSite stores its site, that key is not live, and afterwards it is |
| SiteLoading.LoadsBoundedByErasures | cpp/vae_db_handler.cpp:192-239 | a key has been loaded by getSite at most once more than it has been erased, and with the stores of reloadSite onto erased keys the balance is exact |
| SiteLoading.SnapshotIsOfLiveKeys | cpp/vae_db_handler.cpp:192-216 | reloadSite takes down which of the production and the staging key are live, in that order |
| SiteLoading.ResetKillsBoth | cpp/vae_db_handler.cpp:218-239 | a reset kills the production and the staging key and no other, unless validation throws; then it has killed nothing or the production key alone |
| SiteLoading.StoreRevives | cpp/vae_db_handler.cpp:49-56 | a store brings its key to life and no other; reloadSite goes on with the next of its keys |
| SiteLoading.GetSiteLoads | cpp/vae_db_handler.cpp:21-67 | a getSite that nothing disturbs can end with its site live, no other site changed and no mutex held |
| SiteLoading.BlockedOnlyByMutex | cpp/vae_db_handler.cpp:21-67 | a thread under way can take a step unless a mutex it needs is held |
| SiteLoading.NoDeadlock | cpp/vae_db_handler.cpp:192-239 | in every reachable state, while some thread is under way, some thread under way can take a step |
| CacheKeys.HeadsMeetExactly | cpp/vae_db_handler.cpp:281-408 | two heads can be completed to one memcache key if and only if one is a prefix of the other |
| CacheKeys.ApartKeys | cpp/vae_db_handler.cpp:281-408 | if the sites are apart, a long-term key is used by its own site only and a short-term key by no long-term call |
| CacheKeys.KeysCollideExactly | cpp/vae_db_handler.cpp:281-408 | for sites without ':', two calls use the same memcache key exactly when site and key agree, or one is short-term and its site is the other's followed by LongTerm2 |
| CacheKeys.ColonFreeApartExactly | cpp/vae_db_handler.cpp:281-408 | sites without ':' are apart if and only if none is called like another one followed by LongTerm2 |
| CacheLaws.KeysSpelled | cpp/vae_db_handler.cpp:281-408 | the short-term memcache key is "VaedbProxy:site:key", the long-term one "VaedbProxy:siteLongTerm2:key" |
| CacheLaws.ColonFreeShortApart | cpp/vae_db_handler.cpp:281-408 | for sites without ':', short-term keys meet no others if and only if the sites are apart |
| CacheLaws.ShortSetIsReadExactly | cpp/vae_db_handler.cpp:270-299 | what shortTermCacheSet has put into memcache is what shortTermCacheGet answers, after any calls of these sites that do not set, delete or evict that value, if and only if short-term keys meet no others |
| CacheLaws.ShortDeleteIsRead | cpp/vae_db_handler.cpp:270-314 | then what shortTermCacheDelete has removed is answered as "" until it is set again |
| CacheLaws.ShortAnswersWereSetExactly | cpp/vae_db_handler.cpp:270-299 | non-empty shortTermCacheGet answers were passed to shortTermCacheSet for that site and key, on every run, if and only if short-term keys meet no others |
| CacheLaws.LastWriteIsRead | cpp/vae_db_handler.cpp:358-425 | a get that goes to MySQL answers what the last call stored that wrote or deleted the row, or "" if that call deleted it, be it set, delete, empty or the sweep |
| TieredCache.GetsAgreeExactly | cpp/vae_db_handler.cpp:358-379 | a get answers the same whether it asks memcache first or not if and only if memcache holds nothing, an empty value, or the row's value |
| TieredCache.StepKeepsFreshExactly | cpp/vae_db_handler.cpp:286-425 | for any sites, a call keeps that for all keys, from every state in which it holds, if and only if it writes and deletes in both stores alike and puts nothing but empty values under a memcache key that another of the sites reads: get, set, delete, empty, sweep, short-term set, each with its failures |
| TieredCache.KeepsFreshIfApart | cpp/vae_db_handler.cpp:286-425 | for sites that are apart, the second half of that condition always holds |
| TieredCache.RunsStayFresh | cpp/vae_db_handler.cpp:358-425 | after every run of such calls and any evictions it holds for all keys |
| TieredCache.ShortTermCacheIsInvisible | cpp/vae_db_handler.cpp:358-379 | after such a run, a longTermCacheGet that can read MySQL answers the row, whether it asks memcache first or not |
| TieredCache.EmptyAgreesExactly | cpp/vae_db_handler.cpp:413-425 | after longTermCacheEmpty the two ways of asking agree if and only if memcache has nothing for the key |
| TieredCache.EmptyLeavesStaleAnswers | cpp/vae_db_handler.cpp:413-425 | a run of set and empty after which they do not |
| TieredCache.RunsAreHonest | cpp/vae_db_handler.cpp:358-425 | for sites that are apart, whatever fails, is emptied, swept or evicted, non-empty rows and memcache values were set for that site and key |
| TieredCache.AnswersWereSetExactly | cpp/vae_db_handler.cpp:286-425 | non-empty answers were set for that site and key, on every run over these sites, if and only if the sites are apart |
| TieredCache.SitesCollide | cpp/vae_db_handler.cpp:297-369 | a short-term value of one site is answered as a long-term value of another |
| TieredCache.SitesWithColonCollide | cpp/vae_db_handler.cpp:297-369 | so it is for the sites x and xLongTerm2:y |
| CacheInterleaving.InvariantHolds | cpp/vae_db_handler.cpp:286-425 | for sites that are apart, in every interleaving of the backend calls of any number of threads, each of which may fail: every row and long-term memcache value, and every value on its way to a store or a caller, is empty or was passed to longTermCacheSet for that site and key |
| CacheInterleaving.AnswersAreGivenExactly | cpp/vae_db_handler.cpp:286-425 | no interleaving makes longTermCacheGet answer a value that was not passed to longTermCacheSet for that site and key, if and only if the sites are apart |
| CacheInterleaving.StoreKeepsFreshExactly | cpp/vae_db_handler.cpp:377-378 | a get's write to memcache leaves its key fresh if and only if what it read is empty or still in the row |
| CacheInterleaving.RaceLeavesStaleAnswer | cpp/vae_db_handler.cpp:358-395 | a get and a set in two threads, no call failing, after which memcache holds the old value and the row the new one |
| CacheInterleaving.UninterruptedCall | cpp/vae_db_handler.cpp:286-425 | the steps of a call, with no other thread's in between, do to the stores and answer what the undivided call does, whichever of them fail |
| TieredCache.Handler.MysqlGet | cpp/mysql_proxy.cpp:95-120 | the row's value, or "" without one or on failure |
| TieredCache.Handler.MemcacheGet | cpp/memcache_proxy.cpp:56-67 | the value under the key, or "" without one or on failure |
| TieredCache.Handler.LongTermCacheGet | cpp/vae_db_handler.cpp:358-379 | memcache's answer if asked for and not empty, else the row's, which is then put into memcache; an unknown session answers "" and changes nothing |
| TieredCache.Handler.LongTermCacheSet | cpp/vae_db_handler.cpp:381-395 | the row is deleted and inserted anew as far as no statement fails, then memcache is set |
| TieredCache.Handler.LongTermCacheDelete | cpp/vae_db_handler.cpp:397-411 | the row and the memcache value go, each unless its call fails |
| TieredCache.Handler.LongTermCacheEmpty | cpp/vae_db_handler.cpp:413-425 | exactly the rows of that site go; memcache is as before |
| TieredCache.Handler.ShortTermCacheGet | cpp/vae_db_handler.cpp:270-284 | the memcache value under the site's short-term key |
| TieredCache.Handler.ShortTermCacheSet | cpp/vae_db_handler.cpp:286-299 | sets that key and no other, unless the session is unknown or the call fails |
| TieredCache.Handler.ShortTermCacheDelete | cpp/vae_db_handler.cpp:301-314 | removes that key and no other, unless the session is unknown or the call fails |
| SiteLock.RowStays | cpp/mysql_proxy.cpp:240-259 | until a minute has passed, the row of a successful lock outlives every lock call and purge of every subdomain |
| SiteLock.LeaseHolds | cpp/mysql_proxy.cpp:240-273 | two successful locks of one subdomain with no effective unlock of it in between are more than 60 seconds apart |
| SiteLock.RowStaysAway | cpp/mysql_proxy.cpp:240-273 | a row that is gone stays away until someone acquires the lock |
| SiteLock.StaleLockIsStolen | cpp/mysql_proxy.cpp:240-259 | in every run, a lock call more than a minute after the row was made is refused but clears the way, and the next one whose INSERT works gets the lock |
| SiteLock.FirstLockAcquires | cpp/mysql_proxy.cpp:240-259 | in every run, the first lock call of a subdomain whose INSERT works gets the lock |
| SiteLock.UnlockFrees | cpp/mysql_proxy.cpp:240-273 | so does the first one after an unlock that took effect, however recent the lock was |
| SiteLock.LockTable.Lock | cpp/mysql_proxy.cpp:240-259 | 1 and a new row, or 0 and a purge of rows older than a minute |
| SiteLock.LockTable.Unlock | cpp/mysql_proxy.cpp:261-273 | the subdomain's row goes, unless the statement fails |
| Paths.JoinSplit | cpp/query.cpp:26-44 | joining what was split gives the string back |
| Paths.SplitPiecesFree | cpp/query.cpp:26-27 | no piece contains the separator |
| Permalinks.Resolve | cpp/query.cpp:22-50 | a leading slash drops the context; exactly the queries that begin with "permalink/" (and have no newline behind it) are resolved |
| Permalinks.ResolvePath | cpp/query.cpp:26-49 | a registered path is that node; otherwise the longest registered path prefix, with the rest of the path as query; nothing exactly when no path prefix is registered |
| Permalinks.ResolutionIsUnique | cpp/query.cpp:26-49 | only one result meets that description |
| Permalinks.PartsArePathPrefixes | cpp/query.cpp:35-46 | the first i parts joined are a path prefix, and prefix, slash and remaining query give the path back |
| IdRule.ReplaceIds | cpp/query.cpp:87 | replacing the leftmost "/digits" until there is none ends, and equals one reading of the part from left to right |
| IdRule.ReplaceIdStep | cpp/query.cpp:87 | one replacement lowers the number of slashes and does not change that reading |
| IdRule.IdsGone | cpp/query.cpp:87 | afterwards no slash is followed by a digit |
| QueryLaws.IdWritten | cpp/query.cpp:87 | "/digits" anywhere becomes "[@id='digits']", and what is in front of it and behind it is rewritten on its own |
| MarkRules.FirstMatch | cpp/query.cpp:88-91 | the match that is replaced is a leftmost one, and there is one exactly if the pattern matches |
| MarkRules.MatchEndIsUnique | cpp/query.cpp:88-91 | from one starting point a pattern matches in one way only |
| MarkRules.InsertClosesOneEnd | cpp/query.cpp:88-91 | every insertion removes one place where something could be inserted, so the loops end |
| MarkRules.ReplaceUntilNoMatch | cpp/query.cpp:88-91 | each of the four loops ends, having inserted at the leftmost match as long as there was one |
| MarkRules.InsertCreatesNoMatch | cpp/query.cpp:88-91 | an insertion by one pattern creates no match of any of the four |
| MarkRules.InsertCreatesNoId | cpp/query.cpp:87-91 | nor one of the first pattern |
| MarkRules.ExhaustLeavesNone | cpp/query.cpp:88-91 | a finished loop leaves no match of its pattern and brings back none of the others |
| MarkRules.ExhaustOnlyMarks | cpp/query.cpp:88-91 | a loop adds "/text()"s and changes nothing else |
| QueryLaws.MatchIsSpelled | cpp/query.cpp:88-91 | the four patterns match exactly where a lead, a name of at least two characters and a tail stand as the regular expressions spell them |
| QueryLaws.MarkedInOneReading | cpp/query.cpp:88-91 | replacing until nothing matches is one reading from left to right: the leftmost match gets "/text()" behind its name, and the reading goes on there |
| QueryRewriting.RewritePart | cpp/query.cpp:87-91 | the five loops in order |
| QueryRewriting.RewrittenIsSettled | cpp/query.cpp:87-91 | after all five, none of the five patterns matches; a part where none matches is left alone |
| QueryRewriting.RewritingTwice | cpp/query.cpp:87-91 | running the five again changes nothing |
| QueryRewriting.RewritingOnlyMarks | cpp/query.cpp:87-91 | without its "/text()"s the result is the part with its ids rewritten |
| QueryLaws.OneRuleApplies | cpp/query.cpp:87-91 | if only one of the four patterns matches a part without ids, the part is rewritten by that one alone |
| QueryLaws.IdExample | cpp/query.cpp:87 | "a/5" becomes "a[@id='5']" |
| QueryLaws.BracketExample | cpp/query.cpp:88 | "a[bc=1]" becomes "a[bc/text()=1]" |
| QueryLaws.AfterWordExample | cpp/query.cpp:89 | "1 and bc=2" becomes "1 and bc/text()=2" |
| QueryLaws.BeforeWordExample | cpp/query.cpp:90 | "1=bc or 2" becomes "1=bc/text() or 2" |
| QueryLaws.BeforeBracketExample | cpp/query.cpp:91 | "a[1=bc]" becomes "a[1=bc/text()]" |
| QueryRewriting.EveryOtherAt | cpp/query.cpp:86-91 | quoted parts pass through unchanged, every other part is rewritten |
| QueryRewriting.RewriteEveryOther | cpp/query.cpp:86-97 | the in-place loop over the parts refuses exactly when some rewritten part has a double slash, else rewrites every other part |
| QueryRewriting.RewriteParts | cpp/query.cpp:83-98 | split at quotes, rewritten, joined again |
| QueryLaws.UnquotedQuery | cpp/query.cpp:83-98 | a query without quotes is rewritten as one part, and refused exactly when it has a double slash then |
| QueryLaws.QuotedText | cpp/query.cpp:83-98 | text between two quotes passes through, the parts in front of it and behind it are rewritten on their own, and the query is refused exactly when one of these has a double slash then |
| QueryLaws.DoubleSlashSpelled | cpp/query.cpp:92 | a double slash is "//" somewhere |
| QueryRewriting.PassIsIdempotent | cpp/query.cpp:83-98 | a query that the whole pass accepts is rewritten to one that it accepts and leaves alone, although the pass itself adds quotes |

## Left out

- Tokenizer.TokenEnd: isdigit is taken to answer 0 or 1; the source exclusive-ors it with a bool, so any other non-zero answer would run text and digits together.
- SortOrder.SortCallback: getData and getCount are given per context as maps; apart from the empty data query, a sort field on which the XPath engine throws is not modelled.
- SortOrder.StdSort: without a strict weak ordering std::sort has undefined behaviour; the contract then promises neither order nor contents, and the model's insertion sort stands for any sort the library may use.
- ResponseQuery.Response.Query: requires what the code needs to have defined behaviour: a page number and page size for which the floating-point division has a non-zero divisor, and a context on every node that uniqueMatch dereferences.
- ResponseQuery.Response.constructor: parsing of the option strings (atoi, the patterns for order and fields) is not modelled, nor is the loop that runs one query per context of a parent response; the fields are given and Query is one round of it.
- ResponseQuery.RandomShuffle: nothing is said about the distribution of the order; the draws are a parameter.
- ResponseQuery.AllPathsArePipeline: for nodes without a context the paths really differ; what each answers then is the contract of Query, and EmptyFilterChangesNothing says when that shows.
- NaturalOrder.StrCompareNat: the cast is taken to give the nearest double and to throw on overflow, as the C library's conversion behind it does; a conversion that may be off by a bit is not modelled. Doubles below 2^-1022 keep all their bits in the model; they are too far below the tolerance to be told apart. Characters are compared as char_traits does for bytes.
- SinglePrecision.CeilQuotientIsExact: the exponent range of a float is unbounded in the model; the values at hand, between 2^-31 and 2^31, never leave the real one.
- Paging.AdjustWindow: integers are unbounded, so overflow of (page-1)*paginate and of skip + paginate is not modelled.
- LruCache.Cache.FetchPtr: writing to the cached data through the returned pointer, which would leave the size counter stale, is not modelled.
- LruCache.Cache.Insert: the size counter is an unbounded integer, not an unsigned long; the mutex makes each operation one step.
- SiteQueries.Site.FetchQuery: the call is one step; its three steps are those of InterleavedFetchIsTransparent. That the cached keys are the last 384 misses is stated for sequential histories only.
- ConnectionPool.Pool.GetConnection: covers one stretch of the critical section at a time; waiting, waking and the other threads are the ghost state and the step relation. Pool entries are listed in creation order instead of pointer order.
- ConnectionPool.WaitersAreServed: no fairness: a woken thread can be overtaken by a newcomer forever, as in the source.
- SiteLoading.InvariantHolds: the protocol is a step relation on values rather than a class, since its subject is the interleaving; the object identities of the sites are not modelled.
- SiteLoading.NoDeadlock: fetching, parsing and key validation are steps that may succeed or fail but do end; a slower reload that stores older XML last is not ruled out.
- TieredCache.ShortTermCacheIsInvisible: for a get whose read of MySQL fails nothing is said beyond RunsAreHonest; the calls of a run are sequential, and RaceLeavesStaleAnswer shows that they have to be.
- TieredCache.Handler.MysqlGet: rows are keyed by exact strings: collation, column truncation and expiry dates are not modelled, and renewing an expiry changes nothing that the model sees.
- SiteLock.LeaseHolds: the clock is the database's, monotone and in whole seconds; subdomains are compared exactly.
- Permalinks.Resolve: the lookup of "<digits>/rest" by id, prev() and next(), and the [@id!=''] inserted into the first step of plain paths come before or after the modelled part and are not modelled.
- QueryRewriting.RewriteParts: that the rewritten query means the same to the XPath engine is not claimed; upper-case and longer names are rewritten oddly. A NUL character, at which strstr stops, is not treated specially.
- XPath evaluation, libxml trees and the pointer splicing of contexts: query results are given lists of nodes.
- The session cache, sessions, the reaper and the query log: append-only tables and single-pass sweeps that would only add easy members.
- S3, Thrift, zmq, logging and process set-up: input and output.

# Polis client logic, modelled in Dafny

This project models three small pieces of sequential logic from the Polis web client, and proves properties of each:

- **Comment ranking and the analyze-group view** (`js/views/analyze-group.js`). This part covers:
  - the property comparators `bbCompare` and `bbCompareAscending`;
  - `compareTieBreaker` and the four ranking comparators (agree, disagree, divisive, stars);
  - the collection sort with the chosen comparator;
  - the view state: the current comparator and the "enabled" sort button;
  - the choice of a group's representative comments for the carousel, with its position→tid table (`indexToTid`).
  
  Modules `Comparators` (comparators.dfy) and `AnalyzeGroup` (analyze_group.dfy).
- **The embed script** (`api/embed.js`). This part covers:
  - `getConfig`, modelled as `Embed.GetConfig`, which builds a plain record of the data attributes;
  - `createPolisIframe`, which yields either an error or a `src` URL plus size and style defaults;
  - `encodeReturnUrl`, with a decoder that proves it injective;
  - the loop that fills only the empty `polis` divs.
  
  Module `Embed` (embed.dfy).
- **The graph page's render computations** (`vis2/vis2.js`). This part covers:
  - the `maxTid` scan and `tidWidth`;
  - `pad` and `formatTid`;
  - the per-group agree/disagree bucketing of the repness entries.
  
  Module `Vis2` (vis2.dfy).

`Common` (common.dfy) holds the values the parts share: `Option`, `Result`, the comment record and a repness entry.

Modelling choices:
- A comparator returns the number that the JavaScript returns: a difference of two properties, chained with `||`. The chaining is `Comparators.Or`. A negative result puts the first argument first. The divisive comparator is the exception: when its first key decides, it returns a number with the same sign as the JavaScript difference, not the same value.
- The divisive key `A·D/(A+D+1)` is compared exactly. The model uses the numerator of the difference of the two fractions over their common denominator. That denominator is positive because vote counts are natural numbers, and this is the model's stand-in for the source's floating-point division. `Comparators.Score` gives the exact rational score of a comment, and the contracts are stated about it.
- Backbone's `collection.sort()` is modelled as a stable insertion sort, `Comparators.SortBy`, that takes the comparator as a parameter.
- The view is a class (`AnalyzeGroup.AnalyzeGroupView`) whose methods reassign the comparator, the model sequence and the set of enabled buttons.
- The page address (`window.location + ""`) is the parameter `location`. `encodeURIComponent` is the parameter `enc`, an arbitrary string function. A JavaScript string given to `encodeReturnUrl` is a sequence of UTF-16 code units (`Embed.CodeUnit`).
- A missing attribute (`getAttribute` returning null) is `None`. JavaScript truthiness of an attribute (`Embed.Truthy`) means present and non-empty.
- The alerts of `createPolisIframe` are the two `Embed.EmbedError` values.
- The repness object of the graph page, which maps a gid to its entries, is a `map<string, seq<RepnessEntry>>`. The bucketing loop visits its keys in an arbitrary order. The result does not depend on that order.

Two facts about the code that the model keeps:
- No comparator falls back to the id. `Comparators.DistinctCommentsMayTie` states that any two comments with equal votes, stars, text length and creation time compare equal, whatever their ids.
- The view sorts its collection in place (`AnalyzeGroup.AnalyzeGroupView.Sort`) rather than returning a new sequence.

## Model

| member | source | states |
|---|---|---|
| `Comparators.Or` | js/views/analyze-group.js:60-61 | `x || y` on numbers: `x` unless it is 0, then `y`; zero exactly when both are zero, negative exactly when `x` is negative or `x` is zero and `y` negative |
| `Comparators.Get` | js/views/analyze-group.js:49 | `get` reads the agree count, disagree count, stars or creation time of the comment, as the property names |
| `Comparators.BbCompare` | js/views/analyze-group.js:51-54 | negative exactly when `a`'s property is larger, zero exactly when the two are equal |
| `Comparators.BbCompareAscending` | js/views/analyze-group.js:55-57 | negative exactly when `a`'s property is smaller, zero exactly when equal |
| `Comparators.TieBreak` | js/views/analyze-group.js:58-64 | `a` first exactly when it has more stars, or equal stars and a shorter text, or both equal and a larger `created`; zero only when all three are equal |
| `Comparators.TieBreakAntisymmetric` | js/views/analyze-group.js:58-64 | swapping the comments negates the tie-breaker |
| `Comparators.ComparatorAgree` | js/views/analyze-group.js:65-69 | more agrees first, then fewer disagrees, then the tie-breaker; zero exactly when A, D and the tie-breaker keys are equal; the tie-breaker decides when A and D tie |
| `Comparators.ComparatorDisagree` | js/views/analyze-group.js:70-74 | more disagrees first, then fewer agrees, then the tie-breaker; zero exactly when all keys tie |
| `Comparators.QuotientOrder` | js/views/analyze-group.js:80-84 | over positive denominators, comparing two quotients is the same as comparing their cross products (strict and equal) |
| `Comparators.Score` | js/views/analyze-group.js:78-84 | the exact quotient `A·D / (A+D+1)`: non-negative, times the denominator gives the product, and zero exactly when A or D is zero |
| `Comparators.DivisiveDifference` | js/views/analyze-group.js:80-84 | the cross-multiplied key difference is negative exactly when `a`'s exact score A·D/(A+D+1) is higher, and zero exactly when the scores are equal |
| `Comparators.ComparatorDivisive` | js/views/analyze-group.js:75-87 | higher score first, then fewer agrees, then the tie-breaker; zero exactly when all tie |
| `Comparators.ComparatorStars` | js/views/analyze-group.js:89-92 | orders exactly as the tie-breaker (its first key is the stars again) |
| `Comparators.CompareAntisymmetric` | js/views/analyze-group.js:51-92 | every comparator satisfies cmp(a,b) = -cmp(b,a) |
| `Comparators.CompareTransitive` | js/views/analyze-group.js:51-92 | every comparator is transitive as "not after", so each is a total preorder |
| `Comparators.DistinctCommentsMayTie` | js/views/analyze-group.js:58-64 | comments equal on votes, stars, text length and creation time compare 0 under every mode, whatever their ids |
| `Comparators.InsertSorted` | js/views/analyze-group.js:140 | inserting into an ordered sequence keeps it ordered |
| `Comparators.SortBy` | js/views/analyze-group.js:140 | the sorted collection has the same multiset of comments as before |
| `Comparators.SortBySorted` | js/views/analyze-group.js:140 | the sorted collection is ordered by the comparator and is a permutation of the input |
| `Comparators.SortBySortedIsIdentity` | js/views/analyze-group.js:139-142 | sorting an already ordered collection leaves it unchanged |
| `Comparators.SortByIdempotent` | js/views/analyze-group.js:139-142 | sorting twice with the same comparator gives the same order as sorting once |
| `Comparators.DivisiveUnvotedLast` | js/views/analyze-group.js:80-84 | in a sequence ordered by the divisive comparator, a comment with A=D=0 comes after every comment with A>0 and D>0 |
| `AnalyzeGroup.AnalyzeGroupView.constructor` | js/views/analyze-group.js:364-367 | the view keeps the collection and its comparator starts as Agree |
| `AnalyzeGroup.AnalyzeGroupView.SelectSortModes` | js/views/analyze-group.js:124-127 | afterwards exactly the chosen button is enabled; nothing else changes |
| `AnalyzeGroup.AnalyzeGroupView.Sort` | js/views/analyze-group.js:139-142 | the collection becomes an ordered permutation of itself under the current comparator |
| `AnalyzeGroup.AnalyzeGroupView.SortAgree` | js/views/analyze-group.js:143-148 | comparator becomes Agree, the collection is an Agree-ordered permutation of its old contents, and only the Agree button is enabled |
| `AnalyzeGroup.AnalyzeGroupView.SortDisagree` | js/views/analyze-group.js:149-154 | the same for Disagree |
| `AnalyzeGroup.AnalyzeGroupView.SortDivisive` | js/views/analyze-group.js:155-160 | the same for Divisive |
| `AnalyzeGroup.IndexById` | js/views/analyze-group.js:215 | an id is a key exactly when some comment has it, and it maps to a comment of the collection with that id |
| `AnalyzeGroup.Tids` | js/views/analyze-group.js:206 | the k-th tid is the k-th repness entry's tid |
| `AnalyzeGroup.PresentTids` | js/views/analyze-group.js:217-221 | a tid is kept exactly when it is a repness tid that has a comment |
| `AnalyzeGroup.PresentTidsAppend` | js/views/analyze-group.js:219-221 | the filter commutes with concatenation, so the kept tids stay in repness order |
| `AnalyzeGroup.KeepPresent` | js/views/analyze-group.js:219-221 | the filter loop computes exactly the kept tids |
| `AnalyzeGroup.BuildSlides` | js/views/analyze-group.js:224-243 | slide k holds the comment of the k-th kept tid, `indexToTid` equals the kept tids, and slide k's `data-idx` (line 268) is k |
| `AnalyzeGroup.RenderWithCarousel` | js/views/analyze-group.js:186-243 | missing or empty repness gives no output; otherwise `indexToTid` is the repness tids that have a comment, in repness order, and entry k is the tid of the k-th selected comment |
| `Embed.Truthy` | api/embed.js:21-40 | the truthiness of an attribute: null and "" are falsy, any non-empty string is truthy |
| `Embed.OrElse` | api/embed.js:24-51 | `a || fallback`: the attribute when it is truthy, otherwise the fallback |
| `Embed.Join` | api/embed.js:38-44 | `join(sep)`: "" for no parts, the part itself for one, and the first part followed by the separator for more |
| `Embed.JoinPrefix` | api/embed.js:38 | joining with "/", a head in front of a non-empty rest gives the head, "/", then the joined rest |
| `Embed.GetAttribute` | api/embed.js:7-14 | `getAttribute`: the value when the attribute is present, None (null) exactly when it is absent |
| `Embed.GetConfig` | api/embed.js:5-16 | one field per `data-` attribute, None when the attribute is absent and its value when present |
| `Embed.PathSegments` | api/embed.js:20-37 | path segments exist exactly when there is a conversation id or both a site and a page id; the page-id error exactly for a site id without page id and no conversation id; "demo" comes first when demo is truthy, and the last segment is the conversation id, otherwise the page id |
| `Embed.IframeFor` | api/embed.js:18-53 | an iframe exactly when the path can be built, and the path's error otherwise |
| `Embed.IframeForErrors` | api/embed.js:25-37 | error "need page_id" exactly for a site id without a page id and no conversation id; error "need conversation or site" exactly when both are falsy; otherwise an iframe is produced |
| `Embed.IframeForPath` | api/embed.js:20-38 | `src` starts with `https://preprod.pol.is/`, then `demo/` when demo is truthy, then the conversation id, otherwise `site_id/page_id` |
| `Embed.IframeForQuery` | api/embed.js:24-45 | `?parent_url=` plus the encoded parent URL is appended exactly when the parent URL, defaulted to the page address, is non-empty |
| `Embed.IframeForDefaults` | api/embed.js:47-51 | width is always "100%"; height, border and radius default to 930, "1px solid #ccc" and "4px" |
| `Embed.CreatePolisIframe` | api/embed.js:18-53 | the push-based construction returns exactly that iframe or error, and appends the iframe to the parent only on success |
| `Embed.PopulateOne` | api/embed.js:96-101 | a div with children is left unchanged; an empty one gets at most one child |
| `Embed.PopulateOneIdempotent` | api/embed.js:91-102 | running the script a second time changes no div |
| `Embed.PopulateDivs` | api/embed.js:93-102 | every div ends up as one populate pass leaves it, and every div that already had children is unchanged |
| `Embed.ToHex` | api/embed.js:71 | `toString(16)`: at least one digit and no leading zero |
| `Embed.ToHexLength` | api/embed.js:71 | `toString(16)` has exactly as many digits as the number needs: 16^(len-1) <= n < 16^len |
| `Embed.FromHexToHex` | api/embed.js:71 | reading the hex form back gives the number |
| `Embed.SliceLast4` | api/embed.js:72 | `slice(-4)`: the last four characters, or the whole string when it is shorter |
| `Embed.PaddedHex` | api/embed.js:71-72 | `("000" + c.toString(16)).slice(-4)` is the four-digit zero-padded lowercase hex of the code unit |
| `Embed.FixedHexIsPaddedHex` | api/embed.js:71-72 | a number below 16^k has at most k hex digits, and its k-digit form is its hex with leading zeros |
| `Embed.Encoded` | api/embed.js:67-75 | the encoding is four times as long as its input |
| `Embed.EncodedAt` | api/embed.js:70-73 | characters 4i..4i+3 of the encoding are the four hex digits of code unit i |
| `Embed.EncodeReturnUrl` | api/embed.js:67-75 | the loop's result has length 4·n and chunk i is the padded hex of code unit i |
| `Embed.DecodeEncoded` | api/embed.js:70-73 | splitting the encoding into four-digit chunks gives back the original code units |
| `Embed.EncodedInjective` | api/embed.js:67-75 | different strings have different encodings |
| `Vis2.MaxTidOf` | vis2/vis2.js:28-33 | the result is at least -1, no tid is larger, and it is -1 or some comment's tid |
| `Vis2.MaxTid` | vis2/vis2.js:28-33 | the loop computes that maximum; -1 for an empty list |
| `Vis2.NatToString` | vis2/vis2.js:34 | the decimal form has as many digits as the number (10^(len-1) <= n < 10^len), all digits, with no leading zero |
| `Vis2.FromDecimalNatToString` | vis2/vis2.js:34-43 | the decimal form spells the number: reading its digits back gives `n`, for every `n` |
| `Vis2.IntToString` | vis2/vis2.js:34-43 | `"" + n`: non-empty, starts with '-' exactly for a negative number, otherwise only digits |
| `Vis2.TidWidth` | vis2/vis2.js:34 | 2 for -1; for a non-negative maximum, its number of decimal digits |
| `Vis2.NatToStringLengthMonotone` | vis2/vis2.js:34 | a larger number never has a shorter decimal form |
| `Vis2.Repeat` | vis2/vis2.js:39 | k copies of z: k times as long as z, starting with z when k > 0, and repeating with period |z|, so the characters are fixed for a filler of any length |
| `Vis2.Filler` | vis2/vis2.js:37 | `z || '0'`: `z` when it is a non-empty string, otherwise "0" |
| `Vis2.Pad` | vis2/vis2.js:36-40 | `n` unchanged when at least `width` long; the result always ends with `n`; when shorter, the padding is (width - |n|) copies of the filler: it starts with the filler and repeats with the filler's period; with a one-character filler ('0' by default) the result is exactly `width` long |
| `Vis2.FormatTid` | vis2/vis2.js:41-44 | "#" then the padded decimal tid: exactly "#" and the decimal tid when that is at least `tidWidth` long, otherwise zero-padded to `1 + tidWidth` and ending with the decimal tid |
| `Vis2.FormatTidLength` | vis2/vis2.js:34-44 | every non-negative tid of the list is formatted to length 1 + tidWidth |
| `Vis2.TidsFor` | vis2/vis2.js:51-58 | a tid is listed exactly when some entry with it has the tag |
| `Vis2.TidsForAppend` | vis2/vis2.js:52-58 | the filter commutes with concatenation, so the tids stay in entry order |
| `Vis2.TidsForPartition` | vis2/vis2.js:52-58 | the two lists together are never longer than the entries, and exactly as long precisely when every entry is tagged agree or disagree |
| `Vis2.Buckets` | vis2/vis2.js:47-61 | a gid is a key exactly when it has an entry with the tag, and maps to that gid's tagged tids in entry order |
| `Vis2.AddGroup` | vis2/vis2.js:51-59 | the inner loop adds the gid's agree and disagree lists, creating a key only for a non-empty list |
| `Vis2.BucketRepness` | vis2/vis2.js:47-61 | no repness gives two empty maps; otherwise the agree and disagree maps are exactly the buckets of every gid |

## Left out

- The DOM, jQuery and owlCarousel work is left out. This includes `addMultipleOwlItems` (it relies on the plugin's own `unWrap`, `setVars` and `$userItems`), the carousel setup, the `afterMove` and click callbacks, and the hover classes. These are browser and plugin behaviour.
- The HTML strings of the slides are left out. This covers the header, the percentage `(gA_total / count * 100) >> 0`, the colours and the text. The percentage uses floating-point rounding.
- AnalyzeGroup.RenderWithCarousel assumes that the lookups the HTML assembly makes succeed: `tidToR[tid]` and `info.votes[tid]` for every selected tid. Both tables come from code that is not part of this model. In the source, a missing entry throws inside the map, after the earlier tids were pushed.
- `setTimeout`, the promise chains (`firstFetchPromise`, `getTidsForGroup`, `getLocations`) and the event bus are left out. This includes the auto-selection `eb.trigger(eb.commentSelected, indexToTid[0])`. These are asynchronous glue.
- `updateSearch`, `deselectComments`, `useCarousel`, `showCarousel` and `hideCarousel` are left out. `showCarousel` and `hideCarousel` only touch the DOM; `deselectComments` only triggers the event bus; `updateSearch` stores the search string in `searchString`, which nothing in this model reads, and then deselects; `useCarousel` always returns true.
- The d3 Mercator map is left out. It is floating-point rendering.
- Comparators.DivisiveDifference compares the divisive scores as exact fractions. The source divides in floating point, and very large counts could round two different scores to the same double. The integer differences of the other keys are exact below 2^53.
- Comparators.SortBy is one particular stable sort. Backbone delegates to `Array.prototype.sort`, which may order tied comments differently. The view's sort methods ensure `models == SortBy(...)`, so they fix the order of tied comments as this insertion sort leaves it. Only their "ordered" and "permutation" ensures hold for every correct sort.
- Vis2.IntToString writes the plain decimal form of an unbounded integer. JavaScript's `"" + n` gives that form only for the integers a double holds exactly and that are below 10^21 in magnitude; it switches to exponent form from 10^21 up, where the length that `TidWidth` and `FormatTid` rely on differs. Tids above 2^53 are not modelled faithfully.
- Comparators.TieBreak compares `|txt|`, a count of Unicode characters. JavaScript's `length` counts UTF-16 code units, so the two differ for characters outside the Basic Multilingual Plane.
- The collection shared with the other analyze view is not modelled. The model does not capture that aliasing. `Stars` is a mode of the model, but this view never installs it.
- `cookiesEnabledAtTopLevel` and the `message` listener with its origin check and `window.location` redirect are left out. So is the `firstRun` flag that guards that listener. All of these are browser I/O. `encodeReturnUrl` itself is modelled.
- `encodeURIComponent` is an arbitrary string function. It is not re-implemented.
- The alerts are the error values. `document.createElement` is not modelled.
- Embed.CreatePolisIframe does not write the defaulted `parent_url` back into the configuration record. No caller reads the record afterwards.
- The iframe's default height 930 is a number in the source and the string "930" here, which is how the DOM reflects it.
- Embed.PopulateDivs requires the divs to be distinct, which `getElementsByClassName` guarantees. The collection being live is not modelled.
- React rendering and the `Graph` component are left out. The disagree buckets are modelled, but the source computes them and never passes them on (`vis2/vis2.js:70`).

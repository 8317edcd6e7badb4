# Restaurant directory page: data helper, cache and detail page

A Dafny model of the logic under the restaurant directory page
(`front-end/js/dbhelper.js` and `front-end/js/restaurant_info.js`), with
proofs of what that logic guarantees.

- `Restaurants` (`restaurants.dfy`): the derived queries of the data helper.
  Each query takes what the fetch-all primitive hands its callback, as an
  error-first outcome `Reply` (`Ok(value)` or `Err(error)`), and returns what
  the query's own callback receives. Also the page-URL and image-path
  builders.
- `RestaurantCache` (`cache.dfy`): the fetch-all primitive `fetchRestaurants`.
  The browser's object store is the class `RestaurantDb`. It keeps its records
  in ascending key order and stands for the map `Store()` from id to record.
  `Put`, the put loop and the cursor-walk trim change that state. The
  `callbackSent` rule is `Deliveries`: what the callback receives, in order,
  for a given cache content and network response.
- `UriComponent` (`uri.dfy`): `decodeURIComponent`, meaning percent escapes
  (section 2.1 of RFC 3986) holding well-formed UTF-8 (section 3 of RFC 3629).
  A failure, where the browser throws `URIError`, is `None`. Its partner is the
  encoder `Encode`, and `DecodeEncode` proves the round trip.
- `QueryString` (`querystring.dfy`): `getParameterByName`. It finds the
  leftmost match of `[?&]name(=([^&#]*)|&|#|$)`, cuts the value at `&` or
  `#`, turns `+` into a space, then decodes.
- `RestaurantInfo` (`restaurant_info.dfy`): the detail page. This covers the
  branch of `fetchRestaurantFromURL`, the lookup callback that writes
  `self.restaurant` (class `RestaurantPage`), and the placeholder-image choice
  in `fillRestaurantHTML`.
- `Seqs`, `Decimal`, `Outcomes`: helpers.
  - `Seqs` has the order-preserving filter, first-occurrence de-duplication
    (`indexOf(v) == i`) and the substring test.
  - `Decimal` has the decimal text of an integer id and its parsing back.
  - `Outcomes` has `Option` and `Reply`.

Inputs the page gets from outside become parameters:
- the cache contents (`RestaurantDb.records`);
- the network's answer (`Response`: no load event at all, or a status with a
  body that may fail to parse);
- the page address (`href`).

What the code does with the cache and the callback:
- The trim walks the store in descending key order, skips 15 and deletes the
  rest, so it keeps the 15 largest ids, which need not be the 15 most recently
  written (`KeptIffLate`, `TrimmedKeepsLargest`).
- Once the cache has answered, a network success is not delivered; only the
  status error can be a second delivery (`Deliveries`).

## Model

| member | source | states |
|---|---|---|
| Restaurants.FindById | front-end/js/dbhelper.js:103 | `find` yields nothing exactly when no record has the id, and otherwise the first record with it |
| Restaurants.FetchRestaurantById | front-end/js/dbhelper.js:97-113 | an upstream error is passed through; no match gives `Restaurant does not exist`; otherwise the first record with the id |
| Restaurants.FindsEveryRestaurant | front-end/js/dbhelper.js:103-106 | when ids are distinct, looking up any fetched record's id returns that record |
| Restaurants.WithCuisine | front-end/js/dbhelper.js:125 | exactly the records with that cuisine, each as often as in the input, as an order-preserving subsequence |
| Restaurants.InNeighborhood | front-end/js/dbhelper.js:141 | exactly the records in that neighborhood, each as often as in the input, as an order-preserving subsequence |
| Restaurants.FetchRestaurantByCuisine | front-end/js/dbhelper.js:118-129 | an error is passed through; otherwise the reply is `WithCuisine` of the fetched list: the records of that cuisine, in order |
| Restaurants.FetchRestaurantByNeighborhood | front-end/js/dbhelper.js:134-145 | an error is passed through; otherwise the reply is `InNeighborhood` of the fetched list: the records of that neighborhood, in order |
| Restaurants.WithCuisineAndNeighborhood | front-end/js/dbhelper.js:160-169 | `('all','all')` returns the input unchanged; the result is an order-preserving subsequence holding exactly the records that match both constraints, where `'all'` means no constraint |
| Restaurants.CombinedIsOneFilter | front-end/js/dbhelper.js:160-169 | the two conditional filter steps equal one filter by the combined condition |
| Restaurants.FetchRestaurantByCuisineAndNeighborhood | front-end/js/dbhelper.js:150-172 | an error is passed through; otherwise the reply is `WithCuisineAndNeighborhood` of the fetched list; `('all','all')` returns the fetched list; otherwise an order-preserving subsequence of exactly the matching records |
| Restaurants.NeighborhoodsOf | front-end/js/dbhelper.js:184-186 | the list of neighborhoods, one per record, at the record's position |
| Restaurants.CuisinesOf | front-end/js/dbhelper.js:207 | the list of cuisines, one per record, at the record's position |
| Restaurants.FetchNeighborhoods | front-end/js/dbhelper.js:177-194 | an error is passed through; otherwise no duplicates, exactly the neighborhoods present, ordered by first occurrence |
| Restaurants.FetchCuisines | front-end/js/dbhelper.js:200-215 | an error is passed through; otherwise no duplicates, exactly the cuisines present, ordered by first occurrence |
| Seqs.Filter | front-end/js/dbhelper.js:125 | `filter` keeps exactly the elements satisfying the predicate, with their multiplicities, as a subsequence |
| Seqs.FilterFilter | front-end/js/dbhelper.js:163-167 | filtering twice equals filtering once by the conjunction |
| Seqs.FilterAll | front-end/js/dbhelper.js:160 | a filter every element passes returns the input |
| Seqs.IndexOf | front-end/js/dbhelper.js:189 | `indexOf` is -1 for an absent value, else the first index holding it |
| Seqs.FirstOccurrences | front-end/js/dbhelper.js:188-190 | `filter((v, i) => s.indexOf(v) == i)` has no duplicates, the same elements as the input, in order of first occurrence |
| Seqs.Contains | front-end/js/restaurant_info.js:63-64 | the `/undefined/` test holds exactly when the text occurs at some position |
| Decimal.IntToString | front-end/js/dbhelper.js:221 | `${id}` of an integer is non-empty and made of digits, with a leading minus only for a negative id, and no leading zero except for 0 itself |
| Decimal.ParseIntToString | front-end/js/dbhelper.js:221 | reading the decimal text of an id as a number gives back the id |
| Decimal.IntToStringInjective | front-end/js/dbhelper.js:221 | distinct ids have distinct decimal texts |
| Decimal.ParseInteger | front-end/js/dbhelper.js:103 | text reads as a number exactly when it is digits, or `-` and digits; digits read as their decimal value, `-` and digits as its negation |
| RestaurantCache.MapOfSorted | front-end/js/dbhelper.js:33 | key-ordered records stand for a map keyed by id, with one entry per record, each record under its own id |
| RestaurantCache.PutSorted | front-end/js/dbhelper.js:69 | `put` keeps the records key-ordered and adds only the new record |
| RestaurantCache.PutSortedMap | front-end/js/dbhelper.js:69 | `put` on the records is the map update `store[r.id := r]` |
| RestaurantCache.PutAll | front-end/js/dbhelper.js:68-71 | after the puts, the keys are the old keys plus the fetched ids |
| RestaurantCache.PutAllLastWins | front-end/js/dbhelper.js:68-71 | the last restaurant put under an id is the one stored there |
| RestaurantCache.PutAllKeepsOthers | front-end/js/dbhelper.js:68-71 | entries under ids not fetched are untouched by the puts |
| RestaurantCache.PutAllContents | front-end/js/dbhelper.js:68-71 | keys, last-write-wins and untouched other entries, together |
| RestaurantCache.Trimmed | front-end/js/dbhelper.js:74-80 | the trim only removes entries and changes no kept value |
| RestaurantCache.RankInSorted | front-end/js/dbhelper.js:74-75 | in key order, the record at position `i` has exactly the later records' keys above it |
| RestaurantCache.KeptIffLate | front-end/js/dbhelper.js:74-80 | a record survives the trim exactly when it is among the last 15 in key order |
| RestaurantCache.TrimmedSuffix | front-end/js/dbhelper.js:74-80 | trimming the store leaves exactly the map of the 15 highest-keyed records |
| RestaurantCache.TrimmedSize | front-end/js/dbhelper.js:74-80 | the trim leaves min(size, 15) entries |
| RestaurantCache.TrimmedKeepsLargest | front-end/js/dbhelper.js:74-80 | every kept key is larger than every removed key |
| RestaurantCache.TrimmedSmallUnchanged | front-end/js/dbhelper.js:74-80 | a store of at most 15 entries is left unchanged |
| RestaurantCache.TrimmedAtMost | front-end/js/dbhelper.js:74-80 | whatever the store held, at most 15 entries remain after the trim |
| RestaurantCache.FewLargerBounded | front-end/js/dbhelper.js:75 | keys that each have fewer than 15 larger keys among them number at most 15 |
| RestaurantCache.StatusMessage | front-end/js/dbhelper.js:86 | the error text is `Request failed. Returned status of ` followed by text that reads back as the status |
| RestaurantCache.StatusMessageDistinct | front-end/js/dbhelper.js:86 | different statuses give different error texts |
| RestaurantCache.StoreAfterShape | front-end/js/dbhelper.js:54-80 | only a parsed 200 response changes the store; then at most 15 entries remain, each under an old key or a fetched id, and nothing is removed when the two together number at most 15 |
| RestaurantCache.DeleteBelowLast | front-end/js/dbhelper.js:76-80 | the cursor loop, going down past the first 15 and deleting every record after that, leaves the last 15 records in key order |
| RestaurantCache.Deliveries | front-end/js/dbhelper.js:43-88 | at most one success is delivered; a non-empty cache is delivered first and suppresses the network success; with an empty cache a 200 body is delivered once; every success is either the cache at position 0 or, with an empty cache, the parsed 200 body; a non-200 status always ends with `Request failed. Returned status of <status>`, that error is delivered exactly once, as the last delivery, after the cache when the cache is non-empty, and it is the only error delivered; an empty cache with no parsed 200 body and no error status delivers nothing |
| RestaurantCache.RestaurantDb.constructor | front-end/js/dbhelper.js:32-34 | the new store is empty |
| RestaurantCache.RestaurantDb.Put | front-end/js/dbhelper.js:69 | the store becomes `old store[r.id := r]` and stays key-ordered |
| RestaurantCache.RestaurantDb.PutAllOf | front-end/js/dbhelper.js:68-71 | the store becomes `PutAll(old store, fetched)` |
| RestaurantCache.RestaurantDb.Trim | front-end/js/dbhelper.js:74-80 | the records become the last 15 in key order, the store becomes `Trimmed(old store)`, and at most 15 entries remain |
| RestaurantCache.RestaurantDb.FetchRestaurants | front-end/js/dbhelper.js:29-92 | delivers `Deliveries(cache, response)`; the store is put-then-trimmed after a parsed 200 body, then holding at most 15 entries, and unchanged otherwise |
| UriComponent.DecodeEscape | front-end/js/restaurant_info.js:183 | a decoded escape sequence is 1 to 4 complete `%XY` escapes; a `%` without two hexadecimal digits fails |
| UriComponent.Decode | front-end/js/restaurant_info.js:183 | a decoded text is no longer than its input, and a first character that is not `%` is kept |
| UriComponent.DecodePlain | front-end/js/restaurant_info.js:183 | text without `%` decodes to itself |
| UriComponent.DecodeRejectsBrokenEscape | front-end/js/restaurant_info.js:183 | the first `%` not followed by two hexadecimal digits makes decoding throw |
| UriComponent.DecodeRejectsStrayContinuation | front-end/js/restaurant_info.js:183 | an escaped UTF-8 continuation octet cannot start a character, so decoding throws |
| UriComponent.DecodeRejectsSurrogate | front-end/js/restaurant_info.js:183 | escaped UTF-8 for a surrogate code point makes decoding throw |
| UriComponent.DecodeRejectsOverlongPair | front-end/js/restaurant_info.js:183 | a two-octet overlong form (lead `%C0` or `%C1`) makes decoding throw |
| UriComponent.DecodeRejectsOverlongTriple | front-end/js/restaurant_info.js:183 | a three-octet overlong form (`%E0` then `%80` to `%9F`) makes decoding throw |
| UriComponent.DecodeRejectsOverlongQuad | front-end/js/restaurant_info.js:183 | a four-octet overlong form (`%F0` then `%80` to `%8F`) makes decoding throw |
| UriComponent.DecodeRejectsAboveMax | front-end/js/restaurant_info.js:183 | a code point above U+10FFFF (`%F4` then `%90` or more, or a lead `%F5` to `%F7`) makes decoding throw |
| UriComponent.DecodeRejectsExamples | front-end/js/restaurant_info.js:183 | `%C0%80` and `%F4%90%80%80` make decoding throw |
| UriComponent.EscapesReadBack | front-end/js/restaurant_info.js:183 | the `%XY` escapes of some octets read back as those octets, whatever follows |
| UriComponent.Utf8Value | front-end/js/restaurant_info.js:183 | the shortest UTF-8 form of a character passes the length, continuation and overlong checks and decodes to its code point |
| UriComponent.DecodeEscapedChar | front-end/js/restaurant_info.js:183 | the escaped UTF-8 octets of a character decode to that character |
| UriComponent.DecodeEncode | front-end/js/restaurant_info.js:183 | decoding undoes encoding for every string |
| UriComponent.EncodeHasNoDelimiters | front-end/js/restaurant_info.js:177 | encoded text contains no `&`, `#` or `+`, so it survives value extraction intact |
| QueryString.LeftmostFrom | front-end/js/restaurant_info.js:177-178 | no result exactly when the pattern matches nowhere from that point; otherwise the leftmost match |
| QueryString.NameNeedsBoundary | front-end/js/restaurant_info.js:177 | the name must be followed by `=`, `&`, `#` or the end: `?idx=3` holds no `id` |
| QueryString.LaterParameterFound | front-end/js/restaurant_info.js:177-183 | `&id=` after another parameter is found, and its value stops at `#`: `?x=1&id=2#top` gives `2` |
| QueryString.BareNameReadsEmpty | front-end/js/restaurant_info.js:177-182 | the leftmost match decides: `?id&id=2` gives `''` |
| QueryString.ValuePrefix | front-end/js/restaurant_info.js:177 | `[^&#]*` is the longest prefix without `&` or `#` |
| QueryString.PlusToSpace | front-end/js/restaurant_info.js:183 | every `+` becomes a space and every other character stays |
| QueryString.ParameterIn | front-end/js/restaurant_info.js:176-183 | null exactly when `[?&]name` followed by `=`, `&`, `#` or the end occurs nowhere; `''` when the leftmost match has no `=`; otherwise the decoded leftmost value text, or a `URIError` exactly when that text does not decode |
| QueryString.EffectiveUrl | front-end/js/restaurant_info.js:174-175 | a missing or empty `url` falls back to the page address |
| QueryString.GetParameterByName | front-end/js/restaurant_info.js:173-184 | on the page address when `url` is missing or empty, and on `url` otherwise: null exactly when `[?&]name` followed by `=`, `&`, `#` or the end occurs nowhere; `''` when the leftmost match has no `=`; otherwise the decoded leftmost value text, or a `URIError` exactly when that text does not decode |
| QueryString.FirstMatchAfterPrefix | front-end/js/restaurant_info.js:177-178 | with no `?` or `&` before it, the first `?name=` is the leftmost match and takes the value branch |
| QueryString.ParameterRoundTrip | front-end/js/restaurant_info.js:177-183 | `?name=` plus the encoded value, followed by nothing or by `&` or `#`, reads back as the value |
| QueryString.IdRoundTrip | front-end/js/restaurant_info.js:173-184 | reading `id` from `urlForRestaurant(r)` gives the decimal text of `r.id`, which parses back to `r.id` |
| Restaurants.UrlsIdentifyRestaurants | front-end/js/dbhelper.js:221 | restaurants with the same page URL have the same id (that the URL's `id` parameter reads back as the id is `QueryString.IdRoundTrip`) |
| Restaurants.ImageUrlsIdentifyPhotographs | front-end/js/dbhelper.js:228 | restaurants with the same image URL have the same photograph text (`undefined` when absent) between `/img/` and `.jpg` |
| RestaurantInfo.ImageSource | front-end/js/restaurant_info.js:63-70 | the placeholder is chosen exactly when the image path contains `undefined`, and the path itself otherwise |
| RestaurantInfo.ImagePathMentionsUndefined | front-end/js/restaurant_info.js:63-64 | `/img/<p>.jpg` contains `undefined` exactly when `p` does |
| RestaurantInfo.PlaceholderWhenNoPhotograph | front-end/js/restaurant_info.js:63-70 | the placeholder is shown exactly when there is no photograph or its text contains `undefined`; otherwise `/img/<photograph>.jpg` is shown |
| RestaurantInfo.LookupByUrlId | front-end/js/restaurant_info.js:36 | an error is passed through; id text that is not an integer finds nothing; integer text gives `fetchRestaurantById` of the integer it stands for; a found record has that id and is one of the fetched records |
| RestaurantInfo.PageUrlFindsRestaurant | front-end/js/restaurant_info.js:31-36 | with distinct ids, the id taken from a restaurant's own page URL looks that restaurant up |
| RestaurantInfo.StepForId | front-end/js/restaurant_info.js:32-36 | a missing or empty id gives `No restaurant id in URL`; any other id text starts the lookup with that text |
| RestaurantInfo.PageUrlStartsLookup | front-end/js/restaurant_info.js:31-36 | on any page address with `?id=` and a restaurant's id after a part without `?` or `&`, and before nothing, `&` or `#`, the lookup starts with the text of that id |
| RestaurantInfo.ShownAfter | front-end/js/restaurant_info.js:37-38 | `self.restaurant` holds a restaurant exactly when the lookup succeeded, and it holds that restaurant |
| RestaurantInfo.ShownAfterAll | front-end/js/restaurant_info.js:36-44 | over the deliveries of one fetch, the last delivery decides the page's restaurant |
| RestaurantInfo.Lookups | front-end/js/restaurant_info.js:36 | one lookup reply per delivery, at the delivery's position |
| RestaurantInfo.CallbacksAfterAll | front-end/js/restaurant_info.js:36-44 | the page's callback receives exactly the successful lookup replies to the deliveries, in delivery order, so at most one per delivery |
| RestaurantInfo.NetworkErrorAfterCacheHit | front-end/js/restaurant_info.js:36-44 | after a cached success and then a failed request, the callback has received the cached restaurant (when found), and the page's restaurant is null again |
| RestaurantInfo.RestaurantPage.constructor | front-end/js/restaurant_info.js:1 | the page starts with no restaurant and no image |
| RestaurantInfo.RestaurantPage.FetchRestaurantFromUrl | front-end/js/restaurant_info.js:26-46 | an already-loaded restaurant is returned with no lookup; otherwise the step is decided by the `id` parameter of the page address |
| RestaurantInfo.RestaurantPage.OnRestaurantById | front-end/js/restaurant_info.js:36-44 | the page's restaurant becomes the lookup result, or null on failure; on success the image source is set and the callback receives the restaurant; on failure the callback is not invoked |

## Left out

- The lazy-load image listener (front-end/js/dbhelper.js:2-10) is not modelled. It is DOM event wiring.
- Opening the IndexedDB database and its transactions and promises, `XMLHttpRequest` and `JSON.parse` are not modelled. They are I/O and library calls. The cache contents and the network response (`Response`) are inputs instead.
- The order of events is fixed: the cache read is delivered before the network response, and the puts and the trim run after the response's delivery. Interleavings and failed transactions are not modelled.
- Map and marker construction, and the `latlng`, `operating_hours` and `reviews` fields, are not modelled. They are a third-party API, floating point, and rendering.
- DOM rendering is left out: hours, reviews, breadcrumb, and the text and `alt` written in `fillRestaurantHTML`. Only the image source is modelled.
- Console logging is left out.
- QueryString.GetParameterByName: parameter names must not contain pattern metacharacters other than `]`. The escaping at front-end/js/restaurant_info.js:176 escapes only `]`, so other such names would be read as patterns.
- RestaurantInfo.LookupByUrlId: only an optional `-` followed by digits is compared by value. Other text that JavaScript reads as a number counts as matching no restaurant: surrounding spaces, `+`, fractions such as `5.0`, exponents, hexadecimal.
- Decimal.IntToString: ids are integers. The exponent form for magnitudes of 10^21 and above, and the loss of precision beyond 2^53, are not modelled.
- UriComponent.Decode: strings are sequences of Unicode scalar values, not UTF-16 code units. A supplementary character decodes to one character, not a surrogate pair. Lone surrogates cannot appear in the input.
- UriComponent.Encode is a reference definition serving as the decoder's partner. The page itself never encodes.
- RestaurantInfo.RestaurantPage.FetchRestaurantFromUrl: a `URIError` thrown while reading the id ends the call, and is modelled as the step `Threw`. What the caller does with the exception is not modelled.

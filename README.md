# Modernariato visual search: a Dafny model of its core

Modernariato is a client-side browser for Italian designers drawn from Wikidata,
with a "search by photo" feature. This project models the logic of `app.js`
that is more than network or page glue:

- the 8x8 average hash of an image (`imageToAHash`): one gray value per pixel,
  their mean, and one bit per pixel, '1' when the pixel is strictly brighter
  than the mean;
- the Hamming distance extended to strings of different lengths (`hamming`);
- the url -> hash memo `state.imageHashes` behind `hashFromUrl`;
- the photo search: candidates with an image, capped at 300, scored by
  distance, failures scored `1e9`, sorted stably, first 12 kept;
- how one query row becomes a designer record, and the de-duplication by id
  at start-up, as written and as evidently intended;
- the text and decade filter of `render`, and the favourites toggle.

Modules, one per concern: `Wrappers` (Option, Result), `Seqs` (order-preserving
filter, subsequences), `AHash`, `Hamming`, `Designers`, `HashMemo` (class
`HashCache`), `Ranking`, `Catalog` (render filter, class `Favorites`).

Imperative parts of the source are imperative here: the gray loop, the
Hamming counter loop, the de-duplication loop, the memo and the favourites as
classes whose methods update their fields, and the in-place stable sort of the
scored array. Each method is proved against a specification function, and the
properties are proved about those functions.

Modelling choices:

- The canvas read-back (`getImageData`) enters as a sequence of RGBA bytes,
  four per pixel. On the 8x8 canvas that is 256 bytes and the hash has 64
  characters.
- Luminance is `Math.round(0.299r + 0.587g + 0.114b)` computed exactly in
  thousandths: `(299r + 587g + 114b + 500) / 1000`.
- The mean comparison `v > sum / n` is stated as `v * n > sum`, and a lemma
  shows the two agree over the reals.
- Loading an image is the host's work. Each memo request receives what the
  load yields: the pixel bytes, or nothing when the image fails to load or its
  pixels cannot be read.
- The photo search takes the loads as a map from url to pixels; a url missing
  from the map fails to load.
- The sort's input order is made explicit. Each scored entry carries `at`, its
  position among the candidates, which is the order `Promise.all` returns them
  in. Stability is then "sorted by score, then by `at`".
- The memo is modelled sequentially. In the code, all lookups of one search
  check the memo before any of them stores, so a url that appears twice in one
  search is decoded twice. With a deterministic load the answers are the same
  as here: every lookup answers as the memo stood before the search
  (`Ranking.HashAll`).
- The comment at app.js:7 says "Promise cached", but the memo stores only
  resolved hashes, never promises, so concurrent requests for one url are not
  coalesced. It stores nothing on failure, so a failed url is tried again on
  the next search. The model follows the code.

## Model

| member | source | states |
|---|---|---|
| AHash.Luma | app.js:136 | the luma is the integer nearest to `0.299r + 0.587g + 0.114b`, halves rounded up as `Math.round` does; it lies between the smallest and largest channel, and a gray pixel keeps its value |
| AHash.GrayAt | app.js:134-137 | gray value `k` is the luma of bytes `4k`, `4k+1`, `4k+2` of the pixel data |
| AHash.AboveMeanIsDivision | app.js:138-139 | for a non-empty gray list, `v * n > sum` holds exactly when `v > sum / n` |
| AHash.Threshold | app.js:139 | one character per gray value, each '0' or '1', and '1' exactly when that value is above the mean |
| AHash.ImageToAHash | app.js:126-140 | the loop's hash equals `AHashOf(data)`, the threshold of the gray values; one character per pixel, 64 for the 8x8 canvas |
| AHash.HashHasZeroBit | app.js:138-139 | a non-empty hash always has a '0' bit: a darkest pixel is never above the mean |
| AHash.AllZeroIffUniform | app.js:138-139 | the hash is all '0' exactly when every pixel has the same gray value |
| Hamming.Hamming | app.js:142-146 | the counter loop returns the mismatches over the shared prefix plus the length difference, which equals the reference distance |
| Hamming.DistanceCountsMismatches | app.js:144-145 | the reference distance equals the number of differing positions below the shorter length plus the length difference |
| Hamming.DistanceToSelf | app.js:142-146 | `hamming(a, a) == 0` |
| Hamming.DistanceZeroIffEqual | app.js:142-146 | the distance is 0 exactly when the strings are equal |
| Hamming.DistanceSymmetric | app.js:142-146 | `hamming(a, b) == hamming(b, a)` for strings of any length |
| Hamming.DistanceBounds | app.js:145 | the distance is at least the length difference and at most the longer length |
| Hamming.DistanceTriangle | app.js:142-146 | the triangle inequality holds for strings of any length |
| Designers.Truthy | app.js:72-77 | `x?.value \|\| null` keeps a value exactly when it is present and not empty |
| Designers.LastSegment | app.js:71 | the id is a suffix of the entity uri with no '/', preceded by '/' unless it is the whole uri |
| Designers.TagsOf | app.js:84 | the tags are the movement then the occupation, each only when present and not empty |
| Designers.ShapeDesigner | app.js:70-86 | the id is the last segment of the entity uri; the name is the label when it is present and not empty, otherwise the id; the image is the image value when truthy; the decades are the birth date's decade when a birth date is present, otherwise none; the tags are `TagsOf` the movement and occupation |
| Designers.LastSegmentOfEntityUri | app.js:71 | for an entity uri `base/id` whose id has no '/', the id taken back is exactly `id` |
| Designers.LastById | app.js:307-316 | as written, the de-duplicated object has exactly one entry per id present in the list |
| Designers.LastByIdKeepsLast | app.js:310 | as written, the entry kept for an id is the last record with that id, whole, with only its own tags |
| Designers.DedupAsWritten | app.js:307-316 | the loop as written, where `has` never sees the property writes, yields the last record per id |
| Designers.DedupDropsEarlierTags | app.js:310-314 | two records with one id and different tags: as written the first record's tag is lost, while merging keeps it |
| Designers.Distinct | app.js:313 | `Array.from(new Set(s))` has the same values as `s`, each once |
| Designers.DistinctKeepsFirstOrder | app.js:313 | the values come in the order of their first occurrence in `s` |
| Designers.MergeById | app.js:307-316 | the intended de-duplication has one entry per id present in the list |
| Designers.MergeByIdKeepsFirst | app.js:310 | the intended merged record is the first record with its id, apart from its tags |
| Designers.MergeByIdUnitesTags | app.js:312-314 | the intended merged record carries exactly the tags of all records with its id |
| Designers.DedupMerged | app.js:307-316 | the loop with `Map` `has`/`get`/`set` computes the intended merge |
| HashMemo.Resolve | app.js:148-162 | a hit returns the stored hash; a miss succeeds exactly when the image loads, with the hash of its pixels |
| HashMemo.HashCache.constructor | app.js:7 | the memo starts empty |
| HashMemo.HashCache.HashFromUrl | app.js:148-162 | a hit leaves the memo unchanged; a successful load stores the new hash under the url and changes no other key; a failure stores nothing; every hash it answers is the aHash of the image stored for the url |
| HashMemo.MemoIsTransparent | app.js:149-160 | when every stored hash is the hash of its url's image, a hit answers what a fresh load would compute |
| HashMemo.SecondRequestHits | app.js:149-160 | after a url's hash is stored, any later request for it answers that hash, whatever its load would yield |
| Seqs.Filter | app.js:204-210 | filtering keeps every occurrence of each element that passes and no occurrence of one that fails |
| Seqs.FilterTwice | app.js:203-211 | filtering by one predicate and then another is filtering once by both |
| Seqs.FilterIsSubsequence | app.js:204-210 | filtering keeps the order of the elements it keeps |
| Ranking.ScoreOf | app.js:282-284 | a failed lookup scores `1e9`; a computed hash scores `Distance` (the Hamming distance) between it and the query hash, below `1e9` when both are shorter than `1e9` |
| Ranking.Lookups | app.js:279-281 | one answer per candidate: the stored hash when its url is in the memo, otherwise a success exactly when its image loads, carrying the aHash of the loaded pixels; `HashAll` computes it |
| Ranking.Candidates | app.js:278 | the candidates are the first `min(300, k)` of the `k` designers with an image, in catalogue order |
| Ranking.StableSortByScore | app.js:288 | the in-place sort leaves a permutation of the entries, ascending by score, with equal scores in input order |
| Ranking.Rank | app.js:288-289 | the result has `min(12, n)` entries from the candidates, in stable score order, and every entry left out comes after every entry kept |
| Ranking.FailureShownOnlyAfterAllSuccesses | app.js:283-289 | when the query and the hashes are shorter than `1e9`: if any failed candidate is among the twelve shown, every candidate whose hash was computed is shown too |
| Ranking.SuccessesBeforeFailures | app.js:282-288 | when the hashes are shorter than `1e9`, every candidate whose hash failed comes after every candidate that was scored |
| Ranking.UrlsAreImages | app.js:278-281 | the urls the memo may gain are exactly the image urls of the candidates |
| Ranking.HashAll | app.js:279-286 | each lookup answers as the memo stood before the search; the memo gains exactly the hashes of the candidate images that load and were not stored |
| Ranking.SearchByPhoto | app.js:268-295 | the handler ranks the candidates by distance to the photo's hash and returns the top designers in ranked order |
| Catalog.Trim | app.js:200 | `trim` leaves the slice between the leading and trailing white space; the result is empty exactly for an all-space query |
| Catalog.Lower | app.js:200 | lowercasing keeps the length, maps each upper-case ASCII letter to its lower-case letter and keeps every other character |
| Catalog.JoinContainsTags | app.js:206 | every tag occurs in the space-joined tags |
| Catalog.LowerKeepsContains | app.js:205-206 | an occurrence of `q` in `s` stays an occurrence after both are lowercased |
| Catalog.MatchesQuery | app.js:204-207 | the name-or-tags test; the empty query matches every designer |
| Catalog.TagQueryMatches | app.js:200-206 | a query equal to one of a designer's tags, once lowercased, matches that designer |
| Catalog.Render | app.js:199-211 | the shown list is no longer than the catalogue, and holds only catalogue designers that list the chosen decade; `RenderSpec` gives it exactly |
| Catalog.TagSearchShows | app.js:199-211 | searching for a tag (without surrounding white space) with no decade chosen shows every designer that carries the tag |
| Catalog.RenderSpec | app.js:199-211 | the shown list is the catalogue filtered once by "passes the query and the decade filter": every occurrence of a passing designer, in catalogue order; with no query and no decade it is the whole list |
| Catalog.Favorites.constructor | app.js:8 | the favourites start as the set of saved ids |
| Catalog.Favorites.Toggle | app.js:220-223 | the star button deletes the id when it is a favourite and adds it otherwise |
| Catalog.Toggled | app.js:222-223 | toggling flips the id's membership and changes no other id |
| Catalog.ToggleTwice | app.js:222-223 | toggling one id twice restores the favourites |

## Left out

- Resampling onto the canvas (`drawImage`, `getImageData`, app.js:127-132) is a browser call. The model takes its pixel bytes as input.
- AHash.Luma: it computes the luma exactly. The source uses floating point, so at a value exactly halfway between two integers the float sum can land just below the half and round down.
- Image loading and decoding in `hashFromUrl` are host calls; their outcome is a parameter of `HashMemo.HashCache.HashFromUrl`.
- Ranking.SearchByPhoto: it takes the uploaded photo already decoded, as pixel bytes. When `img.decode()` (app.js:274) rejects, the handler stops before any lookup; the model does not cover that case. Neither does it cover the missing-file alert at app.js:270.
- Promise scheduling: the concurrent lookups of `Promise.all` run one after the other here. The code does no coalescing, so concurrency adds nothing to the stored hashes.
- The Wikidata and Wikipedia fetches (`fetchDesigners`, `fetchWorksByDesigner`, `fetchBio`, app.js:53-123) are network I/O. `fetchDesigners` enters through one binding row (`Designers.ShapeDesigner`).
- Date parsing for the birth decade (app.js:83) uses the host's `Date`. `Designers.ShapeDesigner` takes it as a function parameter.
- Designers.Designer: it omits the display-only fields birth, death, movement and occupation. Only the card and the modal read them.
- Sorting the de-duplicated designers by `localeCompare` (app.js:317) depends on the locale. The de-duplication results are maps by id, not an ordered list.
- Catalog.Lower: it lowercases ASCII letters only. `toLowerCase` also maps the rest of Unicode.
- Card and modal HTML, event wiring, the theme, `localStorage` persistence, clearing the favourites and the favourites list view (app.js:12-46, 165-197, 224-265) are view glue.
- `sw.js` is service-worker asset caching, pure I/O plumbing.

## Findings

| source | as written | input that shows it | evidently intended | confidence | as-written member | corrected member |
|---|---|---|---|---|---|---|
| app.js:307-316 | records are stored with `dedup[key] = d`, a property write, but the check `dedup.has(key)` reads the Map's entries. It is always false, the merge branch never runs, and a later record with an id replaces the earlier one with only its own tags | two rows for one designer, tags `["Razionalismo"]` then `["architetto"]`: the result carries `["architetto"]` only | repeated ids merge: the first record is kept and carries the union of all the records' tags (`get`/`set` on the Map) | high; not executed | Designers.DedupAsWritten | Designers.DedupMerged |

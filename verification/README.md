# Signpost sticker map: image resolution and gallery carousel

This project models the part of the signpost sticker map that decides which
photos a region has and lets the visitor step through them. Clicking a
prefecture on the map triggers three steps:

1. The region's English name is normalised into an image key
   (`sanitizeKey`).
2. The gallery builds every candidate path for that key. Candidates are
   numbered files `images/{key}/{i}.{ext}` for slots `1..maxImages`, then the
   flat files `images/{key}.{ext}`, over the extensions png, jpg, jpeg and
   webp.
3. The gallery probes all candidates, keeps the ones that load, sorts them
   by the order key `(i * 10 + rank)` or `(9999 + rank)` with the candidate
   index as tie-break, removes duplicates and caps the list. It then shows
   the first image.

After that, next and prev wrap around the list. A click on a preview
thumbnail jumps to that image. An image that fails to decode empties the
gallery. Every image except the one on show is preloaded. A separate cheap
existence check (`hasImageForKey`) probes the numbered paths of slots
`1..maxNumbered` (slot 1 only by default), then the flat paths, one at a time,
and stops at the first hit. Its single probe (`probeImageUrl`) settles exactly
once, whichever of its timer, load handler and error handler runs first.

The modules follow the source:

- **`Paths`**: the path strings shared by both files.
- **`Keys`**: `sanitizeKey`.
- **`Probe`**: the settle-once probe.
- **`Availability`**: `hasImageForKey`.
- **`Resolution`**: `#loadImagesForKey`.
  - `Resolve` is its declarative meaning.
  - `LoadImagesForKey` follows the source's loops, and its contract shows it computes `Resolve`.
- **`Carousel`**: the `Gallery` state and the page's click handler.
- **`Scenarios`**: concrete hosting layouts.

The two probes are two oracles:

- `hosted: string -> bool` says whether the gallery's untimed probe
  (`#probeImage`) of a path reports success.
- `answered: string -> bool` says whether `probeImageUrl`, with its timeout,
  reports success.

A path that answers the timed probe also loads in the untimed one, so where
the two are compared, `answered` implies `hosted`. The converse fails: a slow
image can be hosted without answering.

Three behaviours of the code that are easy to miss:

- **Length of the result.** The result holds at most `max(maxImages, 1)`
  paths. The loop checks the length only after pushing, so a non-positive
  `maxImages` still yields one path.
- **Flat files versus numbered files.** Flat files sort after numbered files
  only for slots up to 999. From slot 1000 on, a numbered file's order key
  (10000 and up) exceeds the flat keys (9999 to 10002).
- **Nothing is cached per key.** Every selection probes all candidates
  again. The map colouring in main.js uses only the boolean that
  `loadForKey` returns.

## Model

| member | source | states |
|---|---|---|
| Paths.CandidateUrlsLength | signpost_sticker_map/js/utils.js:70-85 | the probed path list has `4` paths per slot for `max(maxNumbered, 0)` slots plus `4` flat paths |
| Paths.CandidateUrlsMonotone | signpost_sticker_map/js/utils.js:70-77 | every path probed with `k` slots is also probed with any `m >= k` slots |
| Keys.TrimStart | signpost_sticker_map/js/utils.js:10 | the result is a suffix of the input, what was dropped is all white space, and the result does not start with white space |
| Keys.TrimEnd | signpost_sticker_map/js/utils.js:10 | the result is a prefix of the input, what was dropped is all white space, and the result does not end with white space |
| Keys.FirstToken | signpost_sticker_map/js/utils.js:11 | the result is a white-space-free prefix that is either the whole string or is followed by white space |
| Keys.LowerAndFilter | signpost_sticker_map/js/utils.js:12-13 | the result consists of `[a-z0-9]` characters only and is no longer than the input |
| Keys.LowerAndFilterTwoPasses | signpost_sticker_map/js/utils.js:12-13 | for every input without U+212A and U+0130, lower-casing and filtering equals lower-casing every character (`A`-`Z` to `a`-`z`) and then keeping the `[a-z0-9]` characters in order |
| Keys.LowerAndFilterAppend | signpost_sticker_map/js/utils.js:12-13 | lower-casing and filtering a concatenation is the concatenation of the two results, so each character is handled on its own |
| Keys.LowerAndFilterKeeps | signpost_sticker_map/js/utils.js:12-13 | a string already made of `[a-z0-9]` is unchanged by lower-casing and filtering |
| Keys.SanitizeKey | signpost_sticker_map/js/utils.js:7-14 | every character of a key is in `[a-z0-9]` |
| Keys.SanitizeBlank | signpost_sticker_map/js/utils.js:8-11 | an empty or all-white-space name gives the empty key |
| Keys.SanitizeIdempotent | signpost_sticker_map/js/utils.js:7-14 | normalising a key a second time changes nothing |
| Keys.SanitizeFirstToken | signpost_sticker_map/js/utils.js:9-13 | leading white space is skipped and everything after the first word is ignored: the key is the lower-cased, filtered first word |
| Keys.TrimAroundWord | signpost_sticker_map/js/utils.js:10 | trimming white space, a word and a rest that starts with white space keeps the whole word, followed only by a part of the rest that starts with white space |
| Keys.SanitizeTokyo | signpost_sticker_map/js/utils.js:5 | "Tokyo Metropolis" becomes "tokyo" |
| Probe.Run | signpost_sticker_map/js/utils.js:21-49 | after any sequence of callbacks the promise has settled iff some callback ran, it settled exactly once, to true iff the first callback was the load handler, and a load or error first leaves the timer cleared |
| Probe.Outcome | signpost_sticker_map/js/utils.js:26-45 | the settled value is true exactly when the image loaded before the timer and the error handler, and exactly one value was resolved |
| Probe.LateEventsIgnored | signpost_sticker_map/js/utils.js:27-44 | callbacks running after the promise settled change neither the resolved values nor the outcome |
| Availability.ProbeSerially | signpost_sticker_map/js/utils.js:71-76 | the probes issued are a prefix of the paths, all but the last answered false, and the loop reports a hit exactly when the last probe answered true, otherwise having probed every path |
| Availability.ProbeNumbered | signpost_sticker_map/js/utils.js:70-77 | the same serial-probe property over the numbered paths of slots `1..maxNumbered` |
| Availability.SerialProbeFinds | signpost_sticker_map/js/utils.js:70-87 | a serial probe that stops at the first success reports a hit iff some path in the list answers true |
| Availability.HasImageForKey | signpost_sticker_map/js/utils.js:60-88 | an empty key returns false with no probe; otherwise the result is true iff some path of slots `1..maxNumbered` or some flat path answers true, the probes are a prefix of that list in order, every probe before the last answered false, and on false every path was probed |
| Resolution.CandidatesShape | signpost_sticker_map/js/gallery.js:194-211 | the candidate list has `4N + 4` entries: position `k < 4N` is slot `k/4 + 1` with extension `k % 4` and order key `slot*10 + k%4`, and the last four are the flat files with keys `9999 + rank` |
| Resolution.NumberedOrderLexicographic | signpost_sticker_map/js/gallery.js:201 | numbered order keys compare like (slot, extension rank) pairs |
| Resolution.NumberedBeforeFlat | signpost_sticker_map/js/gallery.js:199-210 | every numbered key of slot `i` is below every flat key iff `i <= 999` |
| Resolution.CandidateOrdersIncrease | signpost_sticker_map/js/gallery.js:197-211 | with at most 999 slots the order keys strictly increase along the candidate list |
| Resolution.OrderEncodingBreaksAt1000 | signpost_sticker_map/js/gallery.js:197-211 | with 1000 or more slots, `images/{key}/1000.png` has key 10000 while the flat `images/{key}.png` has key 9999 |
| Resolution.CandidateUrlsAgree | signpost_sticker_map/js/gallery.js:194-211 | the gallery's candidate paths are exactly those the cheap existence check probes for the same number of slots |
| Resolution.Hits | signpost_sticker_map/js/gallery.js:217-226 | each hit is a hosted candidate carrying that candidate's path, order key and index, indices strictly increase, and every hosted candidate is a hit |
| Resolution.HitUrls | signpost_sticker_map/js/gallery.js:217-226 | the hits' paths are the hosted candidate paths in candidate order |
| Resolution.Insert | signpost_sticker_map/js/gallery.js:228 | inserting into a list sorted by (order, index) keeps it sorted and adds exactly that element |
| Resolution.SortFound | signpost_sticker_map/js/gallery.js:228 | the sorted list is ordered by (order, index) and is a permutation of its input |
| Resolution.SortedUnique | signpost_sticker_map/js/gallery.js:228 | two lists sorted by (order, index) that are permutations of each other and have distinct indices are equal |
| Resolution.SettlementOrderIrrelevant | signpost_sticker_map/js/gallery.js:213-228 | in whatever order the probe results are collected, sorting them gives the same list |
| Resolution.SortKeepsHitOrder | signpost_sticker_map/js/gallery.js:197-228 | with at most 999 slots, sorting leaves the hits in candidate order |
| Resolution.Dedup | signpost_sticker_map/js/gallery.js:230-236 | the result has no duplicates and holds exactly the elements of the input |
| Resolution.DedupPrefix | signpost_sticker_map/js/gallery.js:232-237 | deduplicating a prefix of the paths gives a prefix of deduplicating all of them, so stopping early loses no earlier path |
| Resolution.DedupHead | signpost_sticker_map/js/gallery.js:232-236 | the first path is always kept, in first place |
| Resolution.DedupOfDistinct | signpost_sticker_map/js/gallery.js:232-236 | a list without duplicates is left as it is |
| Resolution.Truncate | signpost_sticker_map/js/gallery.js:237 | the result is a prefix of the deduplicated list of length `min(length, cap)` |
| Resolution.DistinctHits | signpost_sticker_map/js/gallery.js:193-236 | the sorted, deduplicated hits have no duplicates and contain exactly the hosted candidate paths |
| Resolution.Resolve | signpost_sticker_map/js/gallery.js:193-241 | the result has no duplicates, holds only hosted candidate paths, has at most `max(maxImages, 1)` of them, holds every hosted candidate when shorter than that, and is empty iff no candidate is hosted |
| Resolution.ResolveInCandidateOrder | signpost_sticker_map/js/gallery.js:193-241 | with at most 999 slots the result is the hosted candidate paths in generation order, deduplicated and cut to `max(maxImages, 1)` |
| Resolution.AppendSlot | signpost_sticker_map/js/gallery.js:198-203 | the inner loop appends slot `i`'s four candidates with order keys `i*10 + rank` |
| Resolution.AppendFlat | signpost_sticker_map/js/gallery.js:206-211 | the flat loop appends the four flat candidates with order keys `9999 + rank` |
| Resolution.GenerateCandidates | signpost_sticker_map/js/gallery.js:194-211 | the two loops build exactly the candidate list described by `CandidatesShape` |
| Resolution.DedupTruncate | signpost_sticker_map/js/gallery.js:230-240 | the loop with the seen-set and the break after the push returns a prefix of the deduplicated paths of length `min(distinct count, max(maxImages, 1))` |
| Resolution.CollectHits | signpost_sticker_map/js/gallery.js:217-226 | the loop over the settled probes yields exactly `Hits` of the candidates |
| Resolution.LoadImagesForKey | signpost_sticker_map/js/gallery.js:193-241 | the method as written returns exactly `Resolve(key, maxImages, hosted)` |
| Carousel.Reset | signpost_sticker_map/js/gallery.js:40-42 | after a reset the list is empty and the index is 0 |
| Carousel.LoadForKey | signpost_sticker_map/js/gallery.js:59-79 | it reports success iff the key is non-empty and some candidate is hosted; on success the list is the resolved paths shown from index 0, otherwise the gallery is empty |
| Carousel.Next | signpost_sticker_map/js/gallery.js:87-91 | the list is unchanged, an empty gallery is left as it is, and otherwise the index moves one forward, from the last image to the first |
| Carousel.Prev | signpost_sticker_map/js/gallery.js:81-85 | the list is unchanged, an empty gallery is left as it is, and otherwise the index moves one back, from the first image to the last |
| Carousel.NextThenPrev | signpost_sticker_map/js/gallery.js:81-91 | prev undoes next |
| Carousel.PrevThenNext | signpost_sticker_map/js/gallery.js:81-91 | next undoes prev |
| Carousel.NextTimesClimbs | signpost_sticker_map/js/gallery.js:87-91 | `k` presses of next that stay inside the list add `k` to the index |
| Carousel.NextTimesAdd | signpost_sticker_map/js/gallery.js:87-91 | `a + b` presses of next are `a` presses followed by `b` presses |
| Carousel.NextCycles | signpost_sticker_map/js/gallery.js:87-91 | as many presses of next as there are images come back to the same image |
| Carousel.PreviewClick | signpost_sticker_map/js/gallery.js:151-163 | a click on thumbnail `i` shows image `i` and keeps the list |
| Carousel.DecodeFailed | signpost_sticker_map/js/gallery.js:130-134 | a failed decode leaves the gallery empty |
| Carousel.PreloadUrls | signpost_sticker_map/js/gallery.js:252-254 | the preloaded paths are the list without the element at `skipIndex`, or the whole list when the index is out of range |
| Carousel.PreloadAfterLoad | signpost_sticker_map/js/gallery.js:77 | after a successful load, everything but the first image is preloaded, `n - 1` paths for `n` images |
| Carousel.StepValid | signpost_sticker_map/js/main.js:58-73 | every page event keeps the index inside the list (or 0 on an empty list) |
| Carousel.RunValid | signpost_sticker_map/js/main.js:58-73 | every sequence of page events keeps the index inside the list |
| Carousel.CheapCheckAgreesWithLoad | signpost_sticker_map/js/utils.js:60-88 | when every path that answers the timed probe is also hosted, a hit of the cheap check with `k` slots guarantees that a load with at least `k` slots succeeds |
| Scenarios.TokyoResolves | signpost_sticker_map/js/gallery.js:193-241 | with `tokyo/1.jpg` and `tokyo/2.png` hosted, the resolved list is exactly those two in slot order |
| Scenarios.TokyoLoads | signpost_sticker_map/js/gallery.js:59-79 | loading tokyo succeeds and shows `tokyo/1.jpg` first |
| Scenarios.OsakaLoads | signpost_sticker_map/js/gallery.js:206-211 | a region with only the flat `osaka.webp` loads that single image |
| Scenarios.SlowImageMissedByCheapCheck | signpost_sticker_map/js/utils.js:26-31 | with one hosted image that never answers before the timer, the cheap check finds nothing while the gallery load succeeds |
| Scenarios.UnknownFails | signpost_sticker_map/js/gallery.js:69-73 | when nothing is hosted the load fails and the gallery is empty |

## Left out

- Browser image loading. The DOM updates, opacity transitions, `#fitImage` sizing, the preview strip's pixel offset and the placeholder texts are all rendering. Which text is shown (`NO_META` or a message) does not affect state.
- Cache-busting query strings built from `Date.now()`. A clock value only makes each request unique, so the probed path is modelled without it.
- The concurrent `Promise.allSettled` fan-out. The model collects every probe's result in candidate-index order. `SettlementOrderIrrelevant` shows that any other arrival order gives the same sorted list.
- `#probeImage` in gallery.js has no timeout. A probe that never settles would leave the resolver waiting forever. The oracle assumes every probe settles.
- The 6000 ms timeout of `probeImageUrl` in utils.js. A timeout is its own event, `TimerFired`, with no duration. In `hasImageForKey`, a timed-out probe answers false. Which paths answer is the oracle `answered`, not derived from load times.
- Carousel.CheapCheckAgreesWithLoad: does not promise that a failed cheap check means the load fails. `probeImageUrl`'s timer can answer false for an image that the gallery's untimed probe later loads. `Scenarios.SlowImageMissedByCheapCheck` exhibits such a case.
- The `requestIdleCallback` / `setTimeout` scheduling of the background preload. Only the list of preloaded paths is modelled.
- Overlapping asynchronous loads. Two region clicks whose loads interleave are not modelled: each load is one atomic step.
- Unicode lower-casing beyond ASCII, U+212A and U+0130. Other characters lower-case to characters outside `[a-z0-9]` and are removed anyway. Lone UTF-16 surrogates are not modelled.
- Absent or non-string names and keys (`null`, `undefined`). main.js:59 always passes a string, with `'Unknown'` as the default, and `!key` holds for a string only when it is empty.
- Non-integer or non-numeric `maxImages` and `maxNumbered`. Both are modelled as integers.
- `hasImageForKey`'s `exts` option is a parameter of `HasImageForKey`. The gallery's extension list is fixed.
- map.js and sidebar.js, the map styling in main.js (`layer.setStyle`) and the Python scripts are not part of this model.
- Carousel.PreviewClick: requires an index inside the current list. The source only builds thumbnails and their handlers for the indices of the list on show.

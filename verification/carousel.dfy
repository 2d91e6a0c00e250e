/** The gallery's carousel state (`Gallery` in gallery.js): the resolved paths
    of the selected region and the index of the image on show, driven by
    `loadForKey`, `reset`, `next`, `prev`, a click on a preview thumbnail and
    the fallback when the image on show fails to decode.
 */
module Carousel {
  import opened Paths
  import Resolution
  import Keys

  datatype Gallery = Gallery(urls: seq<string>, idx: int)

  /** The state after construction and after every reset. */
  const Empty: Gallery := Gallery([], 0)

  /** The index points at an image, or the gallery is empty with index 0. */
  predicate Valid(g: Gallery) {
    if |g.urls| == 0 then g.idx == 0 else 0 <= g.idx < |g.urls|
  }

  /** JavaScript's `%`: the remainder takes the sign of the dividend. */
  function JsRem(a: int, b: int): int
    requires b != 0
  {
    if a >= 0 then a % b else -((-a) % b)
  }

  /** `reset` clears the list and the index, whatever the state before. */
  function Reset(g: Gallery): (r: Gallery)
    ensures Valid(r) && r.urls == [] && r.idx == 0
  {
    Empty
  }

  datatype LoadResult = LoadResult(loaded: bool, gallery: Gallery)

  /** `loadForKey`: an empty key, or a key with no hosted image, leaves the
      gallery empty and reports false; otherwise the resolved list is shown
      from its first image. */
  function LoadForKey(g: Gallery, key: string, maxImages: int, hosted: string -> bool): (r: LoadResult)
    ensures Valid(r.gallery)
    ensures r.loaded <==> |key| > 0 && AnyHosted(CandidateUrls(key, maxImages, Exts), hosted)
    ensures r.loaded ==> r.gallery.idx == 0 && r.gallery.urls == Resolution.Resolve(key, maxImages, hosted)
    ensures !r.loaded ==> r.gallery == Empty
  {
    if |key| == 0 then LoadResult(false, Reset(g))
    else
      var urls := Resolution.Resolve(key, maxImages, hosted);
      if |urls| == 0 then LoadResult(false, Reset(Gallery(urls, 0)))
      else LoadResult(true, Gallery(urls, 0))
  }

  /** `next`: a no-op on an empty gallery, otherwise one step forward with
      wrap-around. */
  function Next(g: Gallery): (r: Gallery)
    ensures r.urls == g.urls
    ensures |g.urls| == 0 ==> r == g
    ensures Valid(g) ==> Valid(r)
    ensures Valid(g) && |g.urls| > 0 ==> r.idx == if g.idx == |g.urls| - 1 then 0 else g.idx + 1
  {
    if |g.urls| == 0 then g else g.(idx := JsRem(g.idx + 1, |g.urls|))
  }

  /** `prev`: a no-op on an empty gallery, otherwise one step back with
      wrap-around. */
  function Prev(g: Gallery): (r: Gallery)
    ensures r.urls == g.urls
    ensures |g.urls| == 0 ==> r == g
    ensures Valid(g) ==> Valid(r)
    ensures Valid(g) && |g.urls| > 0 ==> r.idx == if g.idx == 0 then |g.urls| - 1 else g.idx - 1
  {
    if |g.urls| == 0 then g else g.(idx := JsRem(g.idx - 1 + |g.urls|, |g.urls|))
  }

  /** A click on thumbnail `i`. Thumbnails are built for the indices of the
      current list only, so `i` is in range. */
  function PreviewClick(g: Gallery, i: int): (r: Gallery)
    requires 0 <= i < |g.urls|
    ensures Valid(r) && r.urls == g.urls && r.idx == i
  {
    g.(idx := i)
  }

  /** The image on show failed to decode: fall back to the empty state. */
  function DecodeFailed(g: Gallery): (r: Gallery)
    ensures Valid(r) && r.urls == []
  {
    Reset(g)
  }

  /** The paths preloaded in the background: every path except the one at
      `skipIndex`. */
  function PreloadUrls(urls: seq<string>, skipIndex: int): (r: seq<string>)
    ensures 0 <= skipIndex < |urls| ==> r == urls[..skipIndex] + urls[skipIndex + 1..]
    ensures !(0 <= skipIndex < |urls|) ==> r == urls
    decreases |urls|
  {
    if |urls| == 0 then []
    else
      var last := |urls| - 1;
      assert urls == urls[..last] + [urls[last]];
      PreloadUrls(urls[..last], skipIndex) + (if last == skipIndex then [] else [urls[last]])
  }

  /** After a successful load, everything but the first image is preloaded. */
  lemma PreloadAfterLoad(g: Gallery, key: string, maxImages: int, hosted: string -> bool)
    requires LoadForKey(g, key, maxImages, hosted).loaded
    ensures var urls := LoadForKey(g, key, maxImages, hosted).gallery.urls;
      PreloadUrls(urls, 0) == urls[1..] && |PreloadUrls(urls, 0)| == |urls| - 1
  {
    var urls := LoadForKey(g, key, maxImages, hosted).gallery.urls;
    assert urls[..0] + urls[1..] == urls[1..];
  }

  // ---------------------------------------------------------------------------
  // Navigation
  // ---------------------------------------------------------------------------

  lemma NextThenPrev(g: Gallery)
    requires Valid(g)
    ensures Prev(Next(g)) == g
  {
  }

  lemma PrevThenNext(g: Gallery)
    requires Valid(g)
    ensures Next(Prev(g)) == g
  {
  }

  /** `k` calls of `next`. */
  function NextTimes(g: Gallery, k: nat): Gallery {
    if k == 0 then g else Next(NextTimes(g, k - 1))
  }

  lemma {:induction false} NextTimesClimbs(g: Gallery, k: nat)
    requires Valid(g) && g.idx + k < |g.urls|
    ensures NextTimes(g, k) == g.(idx := g.idx + k)
  {
    if k > 0 {
      NextTimesClimbs(g, k - 1);
    }
  }

  lemma {:induction false} NextTimesAdd(g: Gallery, a: nat, b: nat)
    ensures NextTimes(g, a + b) == NextTimes(NextTimes(g, a), b)
  {
    if b > 0 {
      NextTimesAdd(g, a, b - 1);
    }
  }

  /** `n` calls of `next` on a gallery of `n` images come back to the start. */
  lemma NextCycles(g: Gallery)
    requires Valid(g)
    ensures NextTimes(g, |g.urls|) == g
  {
    var n := |g.urls|;
    if n > 0 {
      var up := n - g.idx;
      NextTimesClimbs(g, up - 1);
      assert NextTimes(g, up) == g.(idx := 0);
      NextTimesAdd(g, up, g.idx);
      NextTimesClimbs(g.(idx := 0), g.idx);
    }
  }

  // ---------------------------------------------------------------------------
  // Whole sessions
  // ---------------------------------------------------------------------------

  /** What the page does to the gallery. A region click resets the gallery,
      normalises the region's English name and loads up to 12 images for it. */
  datatype Event =
    | RegionClicked(nameEn: string)
    | NextClicked
    | PrevClicked
    | ThumbnailClicked(i: int)
    | ImageDecodeFailed

  /** One event. A click on a thumbnail that is not on the strip cannot happen
      and leaves the state as it is. */
  function Step(g: Gallery, e: Event, hosted: string -> bool): Gallery {
    match e
    case RegionClicked(nameEn) => LoadForKey(Reset(g), Keys.SanitizeKey(nameEn), 12, hosted).gallery
    case NextClicked => Next(g)
    case PrevClicked => Prev(g)
    case ThumbnailClicked(i) => if 0 <= i < |g.urls| then PreviewClick(g, i) else g
    case ImageDecodeFailed => DecodeFailed(g)
  }

  function Run(g: Gallery, evs: seq<Event>, hosted: string -> bool): Gallery
    decreases |evs|
  {
    if |evs| == 0 then g else Run(Step(g, evs[0], hosted), evs[1..], hosted)
  }

  /** Every step keeps the index in range. */
  lemma StepValid(g: Gallery, e: Event, hosted: string -> bool)
    requires Valid(g)
    ensures Valid(Step(g, e, hosted))
  {
  }

  /** From the initial state, every sequence of events keeps the index in
      range. */
  lemma {:induction false} RunValid(g: Gallery, evs: seq<Event>, hosted: string -> bool)
    requires Valid(g)
    ensures Valid(Run(g, evs, hosted))
    decreases |evs|
  {
    if |evs| > 0 {
      StepValid(g, evs[0], hosted);
      RunValid(Step(g, evs[0], hosted), evs[1..], hosted);
    }
  }

  /** The cheap check and the gallery probe with different primitives: the
      check's probe (`answered`) gives up after a timeout, the gallery's
      (`hosted`) waits, so every path the check sees answer also loads in the
      gallery. A region whose cheap check succeeds with `k` slots therefore
      also loads with `maxImages >= k` slots. */
  lemma CheapCheckAgreesWithLoad(g: Gallery, key: string, k: int, maxImages: int,
                                 hosted: string -> bool, answered: string -> bool)
    requires |key| > 0 && k <= maxImages
    requires forall u :: answered(u) ==> hosted(u)
    ensures AnyHosted(CandidateUrls(key, k, Exts), answered) ==> LoadForKey(g, key, maxImages, hosted).loaded
  {
    if AnyHosted(CandidateUrls(key, k, Exts), answered) {
      var u :| u in CandidateUrls(key, k, Exts) && answered(u);
      CandidateUrlsMonotone(key, k, maxImages, Exts);
      assert u in CandidateUrls(key, maxImages, Exts) && hosted(u);
    }
  }
}

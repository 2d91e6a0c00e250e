/** The cheap existence check (`hasImageForKey` in utils.js).

    It probes the numbered paths of slots `1..maxNumbered` (one slot unless the
    caller asks for more) over every extension, then the flat paths, one probe
    at a time, and stops at the first path whose probe answers true.

    Each probe here is a `probeImageUrl` call, whose timer answers false when
    the image has not loaded in time (see the `Probe` module). Its answers are
    the oracle `answered`, which is separate from the gallery's `hosted`: the
    gallery's own probe has no timer, so an image that loads slowly can be
    hosted and still not answered.
 */
module Availability {
  import opened Paths

  /** `probed` is what a serial probe of `urls` that stops at the first path
      that loads issues, and `hit` says whether it stopped at one. */
  predicate SerialProbe(urls: seq<string>, answered: string -> bool, hit: bool, probed: seq<string>) {
    && probed <= urls
    && (forall k :: 0 <= k < |probed| - 1 ==> !answered(probed[k]))
    && (hit ==> |probed| > 0 && answered(probed[|probed| - 1]))
    && (!hit ==> probed == urls && forall k :: 0 <= k < |probed| ==> !answered(probed[k]))
  }

  /** Probe `urls` one at a time, stopping at the first that loads: the body of
      each `for (const ext of exts)` loop. */
  method ProbeSerially(urls: seq<string>, answered: string -> bool) returns (hit: bool, probed: seq<string>)
    ensures SerialProbe(urls, answered, hit, probed)
  {
    probed := [];
    var r := 0;
    while r < |urls|
      invariant 0 <= r <= |urls|
      invariant probed == urls[..r]
      invariant forall k :: 0 <= k < |probed| ==> !answered(probed[k])
    {
      probed := probed + [urls[r]];
      if answered(urls[r]) {
        return true, probed;
      }
      r := r + 1;
    }
    return false, probed;
  }

  /** The numbered phase: slots `1..maxNumbered`, each over every extension. */
  method ProbeNumbered(key: string, maxNumbered: int, exts: seq<string>, answered: string -> bool)
    returns (hit: bool, probed: seq<string>)
    ensures SerialProbe(NumberedUrls(key, 1, maxNumbered, exts), answered, hit, probed)
  {
    probed := [];
    var i := 1;
    while i <= maxNumbered
      invariant 1 <= i
      invariant SerialProbe(NumberedUrls(key, 1, i - 1, exts), answered, false, probed)
      invariant i <= maxNumbered + 1 || i == 1
      decreases maxNumbered - i
    {
      var slotHit, slotProbed := ProbeSerially(SlotUrls(key, i, exts), answered);
      NumberedUrlsSplit(key, 1, i - 1, i, exts);
      assert NumberedUrls(key, i, i, exts) == SlotUrls(key, i, exts) by {
        assert NumberedUrls(key, i + 1, i, exts) == [];
      }
      SerialProbeConcat(NumberedUrls(key, 1, i - 1, exts), SlotUrls(key, i, exts), answered, probed, slotHit, slotProbed);
      probed := probed + slotProbed;
      if slotHit {
        NumberedUrlsSplit(key, 1, i, maxNumbered, exts);
        SerialProbeExtend(NumberedUrls(key, 1, i, exts), NumberedUrls(key, i + 1, maxNumbered, exts), answered, probed);
        return true, probed;
      }
      i := i + 1;
    }
    if maxNumbered < 1 {
      assert NumberedUrls(key, 1, maxNumbered, exts) == [];
      assert NumberedUrls(key, 1, 0, exts) == [];
    }
    return false, probed;
  }

  /** A probe that found nothing in `a` and then probed `b`. */
  lemma SerialProbeConcat(a: seq<string>, b: seq<string>, answered: string -> bool,
                          pa: seq<string>, hit: bool, pb: seq<string>)
    requires SerialProbe(a, answered, false, pa)
    requires SerialProbe(b, answered, hit, pb)
    ensures SerialProbe(a + b, answered, hit, pa + pb)
  {
    var p := pa + pb;
    forall k | 0 <= k < |p| - 1 ensures !answered(p[k]) {
      if k >= |pa| {
        assert p[k] == pb[k - |pa|];
      }
    }
    if !hit {
      forall k | 0 <= k < |p| ensures !answered(p[k]) {
        if k >= |pa| {
          assert p[k] == pb[k - |pa|];
        }
      }
    }
  }

  /** A probe that stopped at a hit in `a` never reaches `b`. */
  lemma SerialProbeExtend(a: seq<string>, b: seq<string>, answered: string -> bool, p: seq<string>)
    requires SerialProbe(a, answered, true, p)
    ensures SerialProbe(a + b, answered, true, p)
  {
  }

  /** A serial probe reports a hit exactly when some path's probe answers true. */
  lemma SerialProbeFinds(urls: seq<string>, answered: string -> bool, hit: bool, probed: seq<string>)
    requires SerialProbe(urls, answered, hit, probed)
    ensures hit <==> AnyHosted(urls, answered)
  {
    if hit {
      assert probed[|probed| - 1] == urls[|probed| - 1];
    } else {
      forall u | u in urls ensures !answered(u) {
        var k :| 0 <= k < |urls| && urls[k] == u;
        assert probed[k] == u;
      }
    }
  }

  /** `probed` lists the paths in the order they were probed. */
  method HasImageForKey(key: string, maxNumbered: int, exts: seq<string>, answered: string -> bool)
    returns (found: bool, probed: seq<string>)
    ensures |key| == 0 ==> !found && probed == []
    ensures |key| > 0 ==> (found <==> AnyHosted(CandidateUrls(key, maxNumbered, exts), answered))
    ensures |key| > 0 ==> probed <= CandidateUrls(key, maxNumbered, exts)
    ensures forall k :: 0 <= k < |probed| - 1 ==> !answered(probed[k])
    ensures found ==> |probed| > 0 && answered(probed[|probed| - 1])
    ensures |key| > 0 && !found ==> probed == CandidateUrls(key, maxNumbered, exts)
  {
    if |key| == 0 {
      return false, [];
    }
    var numbered := NumberedUrls(key, 1, maxNumbered, exts);
    var flat := FlatUrls(key, exts);
    var hit, numberedProbed := ProbeNumbered(key, maxNumbered, exts, answered);
    if hit {
      SerialProbeExtend(numbered, flat, answered, numberedProbed);
      found, probed := true, numberedProbed;
    } else {
      var flatHit, flatProbed := ProbeSerially(flat, answered);
      SerialProbeConcat(numbered, flat, answered, numberedProbed, flatHit, flatProbed);
      found, probed := flatHit, numberedProbed + flatProbed;
    }
    SerialProbeFinds(numbered + flat, answered, found, probed);
  }
}

/** End-to-end outcomes of selecting a region, for three hosting layouts. */
module Scenarios {
  import opened Paths
  import opened Resolution
  import opened Carousel

  /** Only `images/tokyo/1.jpg` and `images/tokyo/2.png` are served. */
  predicate TokyoHost(u: string) {
    u == "images/tokyo/1.jpg" || u == "images/tokyo/2.png"
  }

  /** Only the flat `images/osaka.webp` is served. */
  predicate OsakaHost(u: string) {
    u == "images/osaka.webp"
  }

  predicate NothingHosted(u: string) {
    false
  }

  /** A duplicate-free list drawn from `{x, y}` has at most two elements. */
  lemma AtMostTwo(r: seq<string>, x: string, y: string)
    requires NoDup(r)
    requires forall u :: u in r ==> u == x || u == y
    ensures |r| <= 2
  {
    forall k | 0 <= k < |r| ensures r[k] in {x, y} {
      assert r[k] in r;
    }
    NoDupLength(r, {x, y});
  }

  /** A duplicate-free, non-empty list of paths drawn from one path is that
      path. */
  lemma Single(r: seq<string>, x: string)
    requires NoDup(r) && |r| > 0
    requires forall u :: u in r ==> u == x
    ensures r == [x]
  {
    AtMostTwo(r, x, x);
    if |r| == 2 {
      assert r[0] == x && r[1] == x by {
        assert r[0] in r && r[1] in r;
      }
      assert false;
    }
    assert r[0] in r;
  }

  /** A duplicate-free list of paths drawn from two paths, starting with the
      first and containing the second, is exactly those two. */
  lemma Pair(r: seq<string>, x: string, y: string)
    requires NoDup(r) && |r| > 0 && r[0] == x && x != y && y in r
    requires forall u :: u in r ==> u == x || u == y
    ensures r == [x, y]
  {
    AtMostTwo(r, x, y);
    assert |r| == 2;
    assert r[1] in r;
  }

  lemma TokyoCandidates()
    ensures var cs := CandidateUrls("tokyo", 12, Exts);
      |cs| > 4 && cs[0] == "images/tokyo/1.png" && cs[1] == "images/tokyo/1.jpg" && cs[4] == "images/tokyo/2.png"
  {
    var cs := CandidateUrls("tokyo", 12, Exts);
    CandidatesShape("tokyo", 12);
    CandidateUrlsAgree("tokyo", 12);
    assert Decimal(1) == "1" && Decimal(2) == "2";
    assert cs[0] == UrlsOf(Candidates("tokyo", 12))[0] == NumberedUrl("tokyo", 1, "png");
    assert cs[1] == UrlsOf(Candidates("tokyo", 12))[1] == NumberedUrl("tokyo", 1, "jpg");
    assert cs[4] == UrlsOf(Candidates("tokyo", 12))[4] == NumberedUrl("tokyo", 2, "png");
  }

  lemma TokyoPaths()
    ensures "images/tokyo/1.jpg" != "images/tokyo/2.png"
    ensures !TokyoHost("images/tokyo/1.png")
  {
    assert "images/tokyo/1.jpg"[13] != "images/tokyo/2.png"[13];
    assert "images/tokyo/1.png"[15] != "images/tokyo/1.jpg"[15];
    assert "images/tokyo/1.png"[13] != "images/tokyo/2.png"[13];
  }

  /** The first image of the tokyo gallery is slot 1's jpg. */
  lemma TokyoFirst()
    ensures var r := Resolve("tokyo", 12, TokyoHost);
      |r| > 0 && r[0] == "images/tokyo/1.jpg"
  {
    var cs := CandidateUrls("tokyo", 12, Exts);
    TokyoCandidates();
    TokyoPaths();
    FirstHosted(cs, TokyoHost, 1);
    DedupHead(HostedUrls(cs, TokyoHost));
    ResolveInCandidateOrder("tokyo", 12, TokyoHost);
  }

  /** The tokyo gallery holds its two hosted images, in slot order. */
  lemma TokyoResolves()
    ensures Resolve("tokyo", 12, TokyoHost) == ["images/tokyo/1.jpg", "images/tokyo/2.png"]
  {
    var r := Resolve("tokyo", 12, TokyoHost);
    TokyoCandidates();
    TokyoPaths();
    TokyoFirst();
    AtMostTwo(r, "images/tokyo/1.jpg", "images/tokyo/2.png");
    assert "images/tokyo/2.png" in CandidateUrls("tokyo", 12, Exts);
    Pair(r, "images/tokyo/1.jpg", "images/tokyo/2.png");
  }

  /** Selecting tokyo shows its numbered images from the first one. */
  lemma TokyoLoads()
    ensures LoadForKey(Empty, "tokyo", 12, TokyoHost)
         == LoadResult(true, Gallery(["images/tokyo/1.jpg", "images/tokyo/2.png"], 0))
  {
    TokyoResolves();
    TokyoCandidates();
    var cs := CandidateUrls("tokyo", 12, Exts);
    assert cs[1] in cs && TokyoHost(cs[1]);
  }

  lemma OsakaCandidate()
    ensures "images/osaka.webp" in CandidateUrls("osaka", 12, Exts)
  {
    var cs := CandidateUrls("osaka", 12, Exts);
    CandidateUrlsLength("osaka", 12, Exts);
    assert cs[51] == FlatUrls("osaka", Exts)[3] == "images/osaka.webp";
  }

  /** A single flat image is found after all numbered candidates miss. */
  lemma OsakaLoads()
    ensures LoadForKey(Empty, "osaka", 12, OsakaHost) == LoadResult(true, Gallery(["images/osaka.webp"], 0))
  {
    OsakaCandidate();
    assert AnyHosted(CandidateUrls("osaka", 12, Exts), OsakaHost);
    Single(Resolve("osaka", 12, OsakaHost), "images/osaka.webp");
  }

  /** Nothing served: the load fails and the gallery is empty. */
  lemma UnknownFails()
    ensures LoadForKey(Empty, "unknown", 12, NothingHosted) == LoadResult(false, Empty)
  {
  }

  /** Only `images/slow/1.png` is served, and it loads too slowly for a
      timed probe. */
  predicate SlowHost(u: string) {
    u == "images/slow/1.png"
  }

  lemma SlowCandidate()
    ensures "images/slow/1.png" in CandidateUrls("slow", 12, Exts)
  {
    var cs := CandidateUrls("slow", 12, Exts);
    CandidatesShape("slow", 12);
    CandidateUrlsAgree("slow", 12);
    assert Decimal(1) == "1";
    assert cs[0] == UrlsOf(Candidates("slow", 12))[0] == NumberedUrl("slow", 1, "png");
    assert NumberedUrl("slow", 1, "png") == "images/slow/1.png";
    assert cs[0] in cs;
  }

  /** The converse of `CheapCheckAgreesWithLoad` fails: when the only image
      outlasts the check's timeout, the check answers false for every path
      while the gallery's untimed probe loads it. */
  lemma SlowImageMissedByCheapCheck()
    ensures !AnyHosted(CandidateUrls("slow", 1, Exts), NothingHosted)
    ensures LoadForKey(Empty, "slow", 12, SlowHost).loaded
  {
    SlowCandidate();
    assert AnyHosted(CandidateUrls("slow", 12, Exts), SlowHost);
  }
}

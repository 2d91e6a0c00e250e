/** Image path resolution for the gallery (`#loadImagesForKey` in gallery.js).

    Every candidate path of a key gets an integer order key. All candidates are
    probed; the ones that load are kept with their candidate index, sorted by
    (order, index), deduplicated by path and cut off once `maxImages` paths have
    been collected. Whether a probe reports success is the oracle `hosted`.
 */
module Resolution {
  import opened Paths

  datatype Candidate = Candidate(url: string, order: int)

  /** A candidate whose probe succeeded, with its position in the candidate list. */
  datatype Found = Found(url: string, order: int, idx: nat)

  /** Order key of slot `i` with extension rank `rank` (the extension's index
      in `Exts`). */
  function NumberedOrder(i: int, rank: int): int {
    i * 10 + rank
  }

  /** Order key of the flat file with extension rank `rank`. */
  function FlatOrder(rank: int): int {
    9999 + rank
  }

  /** The candidate of slot `i` with extension `Exts[r]`. */
  function NumberedCandidate(key: string, i: nat, r: nat): Candidate
    requires r < 4
  {
    Candidate(NumberedUrl(key, i, Exts[r]), NumberedOrder(i, r))
  }

  function SlotCandidates(key: string, i: nat): seq<Candidate> {
    seq(4, r requires 0 <= r < 4 => NumberedCandidate(key, i, r))
  }

  function NumberedCandidates(key: string, i: nat, n: int): seq<Candidate>
    decreases n - i
  {
    if i > n then [] else SlotCandidates(key, i) + NumberedCandidates(key, i + 1, n)
  }

  function FlatCandidates(key: string): seq<Candidate> {
    seq(4, r requires 0 <= r < 4 => Candidate(FlatUrl(key, Exts[r]), FlatOrder(r)))
  }

  /** The candidates of `key`, in generation order. */
  function Candidates(key: string, maxImages: int): seq<Candidate> {
    NumberedCandidates(key, 1, maxImages) + FlatCandidates(key)
  }

  function UrlsOf(cs: seq<Candidate>): (us: seq<string>)
    ensures |us| == |cs|
  {
    seq(|cs|, k requires 0 <= k < |cs| => cs[k].url)
  }

  function FoundUrls(fs: seq<Found>): (us: seq<string>)
    ensures |us| == |fs|
  {
    seq(|fs|, k requires 0 <= k < |fs| => fs[k].url)
  }

  /** The slot of position `k` among the numbered candidates. */
  function SlotOf(k: nat): nat {
    k / 4 + 1
  }

  // ---------------------------------------------------------------------------
  // Shape of the candidate list
  // ---------------------------------------------------------------------------

  lemma SlotOfFirst(k: nat)
    requires k < 4
    ensures SlotOf(k) == 1 && k % 4 == k
  {
  }

  lemma SlotOfShift(k: nat)
    requires k >= 4
    ensures SlotOf(k - 4) == SlotOf(k) - 1 && (k - 4) % 4 == k % 4
  {
  }

  lemma {:induction false} NumberedCandidatesShape(key: string, i: nat, n: int)
    requires i <= n + 1
    ensures |NumberedCandidates(key, i, n)| == 4 * (n - i + 1)
    ensures forall k: nat :: k < 4 * (n - i + 1) ==>
      NumberedCandidates(key, i, n)[k] == NumberedCandidate(key, i - 1 + SlotOf(k), k % 4)
    decreases n - i
  {
    if i <= n {
      NumberedCandidatesShape(key, i + 1, n);
      forall k: nat | k < 4 * (n - i + 1)
        ensures NumberedCandidates(key, i, n)[k] == NumberedCandidate(key, i - 1 + SlotOf(k), k % 4)
      {
        NumberedCandidateAt(key, i, n, k);
      }
    }
  }

  /** Position `k` of the candidates from slot `i` on, given the shape of the
      candidates from slot `i + 1` on. */
  lemma NumberedCandidateAt(key: string, i: nat, n: int, k: nat)
    requires i <= n && k < 4 * (n - i + 1)
    requires |NumberedCandidates(key, i + 1, n)| == 4 * (n - i)
    requires forall q: nat :: q < 4 * (n - i) ==>
      NumberedCandidates(key, i + 1, n)[q] == NumberedCandidate(key, i + SlotOf(q), q % 4)
    ensures NumberedCandidates(key, i, n)[k] == NumberedCandidate(key, i - 1 + SlotOf(k), k % 4)
  {
    var slot := SlotCandidates(key, i);
    var rest := NumberedCandidates(key, i + 1, n);
    assert NumberedCandidates(key, i, n) == slot + rest;
    assert 4 * (n - i + 1) == 4 * (n - i) + 4;
    if k < 4 {
      SlotOfFirst(k);
      assert NumberedCandidates(key, i, n)[k] == slot[k];
    } else {
      SlotOfShift(k);
      var q: nat := k - 4;
      assert q < 4 * (n - i);
      assert NumberedCandidates(key, i, n)[k] == rest[q];
    }
  }

  /** For `maxImages = n`, the list holds `4n` numbered candidates, slot by slot
      with the extensions in preference order, then the 4 flat candidates. */
  lemma CandidatesShape(key: string, n: int)
    ensures var N := if n > 0 then n else 0;
      && |Candidates(key, n)| == 4 * N + 4
      && (forall k: nat :: k < 4 * N ==>
            Candidates(key, n)[k] == Candidate(NumberedUrl(key, SlotOf(k), Exts[k % 4]), NumberedOrder(SlotOf(k), k % 4)))
      && (forall r :: 0 <= r < 4 ==>
            Candidates(key, n)[4 * N + r] == Candidate(FlatUrl(key, Exts[r]), FlatOrder(r)))
  {
    var N := if n > 0 then n else 0;
    var cs := Candidates(key, n);
    if n > 0 {
      NumberedCandidatesShape(key, 1, n);
      forall k: nat | k < 4 * N
        ensures cs[k] == Candidate(NumberedUrl(key, SlotOf(k), Exts[k % 4]), NumberedOrder(SlotOf(k), k % 4))
      {
        assert cs[k] == NumberedCandidates(key, 1, n)[k];
      }
    } else {
      assert NumberedCandidates(key, 1, n) == [];
    }
    forall r | 0 <= r < 4 ensures cs[4 * N + r] == Candidate(FlatUrl(key, Exts[r]), FlatOrder(r)) {
      assert cs[4 * N + r] == FlatCandidates(key)[r];
    }
  }

  /** Numbered order keys compare like (slot, extension rank) pairs. */
  lemma NumberedOrderLexicographic(i: int, r: int, j: int, s: int)
    requires 0 <= r < 4 && 0 <= s < 4
    ensures NumberedOrder(i, r) < NumberedOrder(j, s) <==> i < j || (i == j && r < s)
  {
  }

  /** Every numbered key of slot `i` sorts before every flat key exactly when
      `i <= 999`. */
  lemma NumberedBeforeFlat(i: int)
    ensures (forall r, s :: 0 <= r < 4 && 0 <= s < 4 ==> NumberedOrder(i, r) < FlatOrder(s)) <==> i <= 999
  {
    if i > 999 {
      assert !(NumberedOrder(i, 0) < FlatOrder(0));
    }
  }

  /** Up to 999 slots, the order keys increase along the candidate list, so
      sorting by order key keeps generation order. */
  lemma CandidateOrdersIncrease(key: string, n: int)
    requires n <= 999
    ensures forall a, b :: 0 <= a < b < |Candidates(key, n)| ==> Candidates(key, n)[a].order < Candidates(key, n)[b].order
  {
    CandidatesShape(key, n);
    var cs := Candidates(key, n);
    var N := if n > 0 then n else 0;
    forall a, b | 0 <= a < b < |cs| ensures cs[a].order < cs[b].order {
      if b < 4 * N {
        assert cs[a].order == NumberedOrder(SlotOf(a), a % 4);
        assert cs[b].order == NumberedOrder(SlotOf(b), b % 4);
        NumberedOrderLexicographic(SlotOf(a), a % 4, SlotOf(b), b % 4);
      } else if a < 4 * N {
        assert cs[a].order == NumberedOrder(SlotOf(a), a % 4);
        assert cs[b] == cs[4 * N + (b - 4 * N)];
      } else {
        assert cs[a] == cs[4 * N + (a - 4 * N)];
        assert cs[b] == cs[4 * N + (b - 4 * N)];
      }
    }
  }

  /** From slot 1000 on the encoding breaks: `images/{key}/1000.png` gets key
      10000 and sorts after the flat `images/{key}.png` (key 9999). */
  lemma OrderEncodingBreaksAt1000(key: string, n: int)
    requires n >= 1000
    ensures |Candidates(key, n)| == 4 * n + 4
    ensures Candidates(key, n)[3996] == Candidate(NumberedUrl(key, 1000, "png"), 10000)
    ensures Candidates(key, n)[4 * n] == Candidate(FlatUrl(key, "png"), 9999)
  {
    CandidatesShape(key, n);
    assert SlotOf(3996) == 1000 && 3996 % 4 == 0;
    assert Candidates(key, n)[4 * n + 0] == Candidate(FlatUrl(key, Exts[0]), FlatOrder(0));
  }

  lemma {:induction false} NumberedUrlsAgree(key: string, i: nat, n: int)
    ensures UrlsOf(NumberedCandidates(key, i, n)) == NumberedUrls(key, i, n, Exts)
    decreases n - i
  {
    if i <= n {
      NumberedUrlsAgree(key, i + 1, n);
      var slot := SlotCandidates(key, i);
      var rest := NumberedCandidates(key, i + 1, n);
      assert UrlsOf(slot + rest) == UrlsOf(slot) + UrlsOf(rest);
      assert UrlsOf(slot) == SlotUrls(key, i, Exts);
    }
  }

  /** The gallery's candidate paths are exactly the paths the cheap existence
      check probes with the same number of slots. */
  lemma CandidateUrlsAgree(key: string, n: int)
    ensures UrlsOf(Candidates(key, n)) == CandidateUrls(key, n, Exts)
  {
    NumberedUrlsAgree(key, 1, n);
    var numbered := NumberedCandidates(key, 1, n);
    var flat := FlatCandidates(key);
    assert UrlsOf(numbered + flat) == UrlsOf(numbered) + UrlsOf(flat);
    assert UrlsOf(flat) == FlatUrls(key, Exts);
  }

  // ---------------------------------------------------------------------------
  // Collecting the hits
  // ---------------------------------------------------------------------------

  /** The candidates whose probe succeeded, in candidate order, each with its
      index. */
  function Hits(cs: seq<Candidate>, hosted: string -> bool): (fs: seq<Found>)
    ensures forall k :: 0 <= k < |fs| ==>
      fs[k].idx < |cs| && fs[k].url == cs[fs[k].idx].url && fs[k].order == cs[fs[k].idx].order && hosted(fs[k].url)
    ensures forall a, b :: 0 <= a < b < |fs| ==> fs[a].idx < fs[b].idx
    ensures forall i :: 0 <= i < |cs| && hosted(cs[i].url) ==> Found(cs[i].url, cs[i].order, i) in fs
    decreases |cs|
  {
    if |cs| == 0 then []
    else
      var last := |cs| - 1;
      Hits(cs[..last], hosted) + (if hosted(cs[last].url) then [Found(cs[last].url, cs[last].order, last)] else [])
  }

  // ---------------------------------------------------------------------------
  // Sorting by (order, index)
  // ---------------------------------------------------------------------------

  /** `a` may come before `b`: the comparator `a.order - b.order || a.idx - b.idx`
      is not positive. */
  predicate FoundLe(a: Found, b: Found) {
    a.order < b.order || (a.order == b.order && a.idx <= b.idx)
  }

  predicate SortedFound(fs: seq<Found>) {
    forall a, b :: 0 <= a < b < |fs| ==> FoundLe(fs[a], fs[b])
  }

  /** No two different elements share an index. */
  predicate IdxKeyed(fs: seq<Found>) {
    forall x, y :: x in fs && y in fs && x.idx == y.idx ==> x == y
  }

  function Insert(f: Found, fs: seq<Found>): (r: seq<Found>)
    requires SortedFound(fs)
    ensures SortedFound(r)
    ensures multiset(r) == multiset(fs) + multiset{f}
    decreases |fs|
  {
    if |fs| == 0 then [f]
    else if FoundLe(f, fs[0]) then [f] + fs
    else
      var t := Insert(f, fs[1..]);
      assert fs == [fs[0]] + fs[1..];
      InsertAfterHead(f, fs, t);
      [fs[0]] + t
  }

  /** The head of a sorted list stays ahead of an element inserted behind it. */
  lemma InsertAfterHead(f: Found, fs: seq<Found>, t: seq<Found>)
    requires |fs| > 0 && SortedFound(fs) && !FoundLe(f, fs[0])
    requires SortedFound(t) && multiset(t) == multiset(fs[1..]) + multiset{f}
    ensures SortedFound([fs[0]] + t)
  {
    forall k | 0 <= k < |t| ensures FoundLe(fs[0], t[k]) {
      assert t[k] in multiset(t);
      if t[k] != f {
        assert t[k] in multiset(fs[1..]);
        var j :| 0 <= j < |fs[1..]| && fs[1..][j] == t[k];
        assert fs[j + 1] == t[k];
      }
    }
    var r := [fs[0]] + t;
    forall a, b | 0 <= a < b < |r| ensures FoundLe(r[a], r[b]) {
      if a == 0 {
        assert r[b] == t[b - 1];
      } else {
        assert r[a] == t[a - 1] && r[b] == t[b - 1];
      }
    }
  }

  /** Sort by (order, index). */
  function SortFound(fs: seq<Found>): (r: seq<Found>)
    ensures SortedFound(r)
    ensures multiset(r) == multiset(fs)
    decreases |fs|
  {
    if |fs| == 0 then []
    else
      assert fs == [fs[0]] + fs[1..];
      Insert(fs[0], SortFound(fs[1..]))
  }

  /** The head of a sorted list comes before each of its elements. */
  lemma SortedHeadFirst(a: seq<Found>, x: Found)
    requires SortedFound(a) && x in a
    ensures FoundLe(a[0], x)
  {
    var i :| 0 <= i < |a| && a[i] == x;
    if i > 0 {
      assert FoundLe(a[0], a[i]);
    }
  }

  /** Two sorted arrangements of the same hits are equal: the comparator is a
      total order on hits with distinct indices, so any sort yields the same
      list. */
  lemma {:induction false} SortedUnique(a: seq<Found>, b: seq<Found>)
    requires SortedFound(a) && SortedFound(b)
    requires multiset(a) == multiset(b)
    requires IdxKeyed(a)
    ensures a == b
    decreases |a|
  {
    if |a| == 0 {
      assert |multiset(b)| == 0;
    } else {
      assert |b| > 0 by {
        assert |multiset(b)| == |multiset(a)| > 0;
      }
      assert a[0] in multiset(b) && b[0] in multiset(a);
      SortedHeadFirst(b, a[0]);
      SortedHeadFirst(a, b[0]);
      assert a[0] == b[0];
      SortedTails(a, b);
      SortedUnique(a[1..], b[1..]);
    }
  }

  /** Removing equal heads keeps the hypotheses of `SortedUnique`. */
  lemma SortedTails(a: seq<Found>, b: seq<Found>)
    requires |a| > 0 && |b| > 0 && a[0] == b[0]
    requires SortedFound(a) && SortedFound(b)
    requires multiset(a) == multiset(b)
    requires IdxKeyed(a)
    ensures SortedFound(a[1..]) && SortedFound(b[1..])
    ensures multiset(a[1..]) == multiset(b[1..])
    ensures IdxKeyed(a[1..])
  {
    assert a == [a[0]] + a[1..];
    assert b == [b[0]] + b[1..];
    assert multiset(a) == multiset{a[0]} + multiset(a[1..]);
    assert multiset(b) == multiset{b[0]} + multiset(b[1..]);
    assert multiset(a[1..]) == multiset(a) - multiset{a[0]};
    assert multiset(b[1..]) == multiset(b) - multiset{b[0]};
    forall x, y | x in a[1..] && y in a[1..] && x.idx == y.idx ensures x == y {
      assert x in a && y in a;
    }
  }

  lemma HitsIdxKeyed(cs: seq<Candidate>, hosted: string -> bool)
    ensures IdxKeyed(Hits(cs, hosted))
  {
    var fs := Hits(cs, hosted);
    forall x, y | x in fs && y in fs && x.idx == y.idx ensures x == y {
      var a :| 0 <= a < |fs| && fs[a] == x;
      var b :| 0 <= b < |fs| && fs[b] == y;
      assert a == b;
    }
  }

  /** Probes settle in any order; however the hits arrive, sorting them gives
      the same list. */
  lemma SettlementOrderIrrelevant(cs: seq<Candidate>, hosted: string -> bool, arrived: seq<Found>)
    requires multiset(arrived) == multiset(Hits(cs, hosted))
    ensures SortFound(arrived) == SortFound(Hits(cs, hosted))
  {
    var hits := Hits(cs, hosted);
    var a := SortFound(arrived);
    var b := SortFound(hits);
    HitsIdxKeyed(cs, hosted);
    assert IdxKeyed(a) by {
      forall x, y | x in a && y in a && x.idx == y.idx ensures x == y {
        assert x in multiset(a) && y in multiset(a);
        assert x in hits && y in hits;
      }
    }
    SortedUnique(a, b);
  }

  /** Up to 999 slots the hits are already in (order, index) order, so sorting
      leaves them as collected. */
  lemma SortKeepsHitOrder(key: string, n: int, hosted: string -> bool)
    requires n <= 999
    ensures SortFound(Hits(Candidates(key, n), hosted)) == Hits(Candidates(key, n), hosted)
  {
    var cs := Candidates(key, n);
    var hits := Hits(cs, hosted);
    CandidateOrdersIncrease(key, n);
    assert SortedFound(hits) by {
      forall a, b | 0 <= a < b < |hits| ensures FoundLe(hits[a], hits[b]) {
        assert hits[a].idx < hits[b].idx;
        assert cs[hits[a].idx].order < cs[hits[b].idx].order;
      }
    }
    HitsIdxKeyed(cs, hosted);
    SortedUnique(hits, SortFound(hits));
  }

  // ---------------------------------------------------------------------------
  // Deduplication and the cap
  // ---------------------------------------------------------------------------

  /** The distinct elements of `xs`, in order of first occurrence. */
  function Dedup(xs: seq<string>): (d: seq<string>)
    ensures NoDup(d)
    ensures forall x :: x in d <==> x in xs
    ensures |d| <= |xs|
    decreases |xs|
  {
    if |xs| == 0 then []
    else
      var init := xs[..|xs| - 1];
      assert xs == init + [xs[|xs| - 1]];
      var d := Dedup(init);
      if xs[|xs| - 1] in d then d else d + [xs[|xs| - 1]]
  }

  /** Deduplicating a prefix gives a prefix of the deduplicated whole. */
  lemma {:induction false} DedupPrefix(xs: seq<string>, k: nat)
    requires k <= |xs|
    ensures Dedup(xs[..k]) <= Dedup(xs)
    decreases |xs| - k
  {
    if k < |xs| {
      DedupPrefix(xs, k + 1);
      assert xs[..k + 1][..k] == xs[..k];
    } else {
      assert xs[..k] == xs;
    }
  }

  /** The first element is always kept. */
  lemma {:induction false} DedupHead(xs: seq<string>)
    requires |xs| > 0
    ensures |Dedup(xs)| > 0 && Dedup(xs)[0] == xs[0]
    decreases |xs|
  {
    if |xs| > 1 {
      DedupHead(xs[..|xs| - 1]);
    }
  }

  lemma {:induction false} DedupOfDistinct(xs: seq<string>)
    requires NoDup(xs)
    ensures Dedup(xs) == xs
    decreases |xs|
  {
    if |xs| > 0 {
      var init := xs[..|xs| - 1];
      DedupOfDistinct(init);
      assert xs[|xs| - 1] !in init;
      assert xs == init + [xs[|xs| - 1]];
    }
  }

  /** The number of paths kept: `maxImages`, but at least one, because the
      source checks the length only after pushing. */
  function Cap(maxImages: int): nat {
    if maxImages >= 1 then maxImages else 1
  }

  function Truncate(d: seq<string>, cap: nat): (r: seq<string>)
    ensures r <= d
    ensures |r| == if |d| <= cap then |d| else cap
  {
    if |d| <= cap then d else d[..cap]
  }

  // ---------------------------------------------------------------------------
  // The resolver
  // ---------------------------------------------------------------------------

  /** The hosted candidate paths of `key`, sorted by (order, index) and each
      kept once. */
  function DistinctHits(key: string, maxImages: int, hosted: string -> bool): (d: seq<string>)
    ensures NoDup(d)
    ensures forall u :: u in d <==> u in CandidateUrls(key, maxImages, Exts) && hosted(u)
  {
    var cs := Candidates(key, maxImages);
    var sorted := SortFound(Hits(cs, hosted));
    ResolveFacts(cs, hosted, sorted, Dedup(FoundUrls(sorted)));
    CandidateUrlsAgree(key, maxImages);
    Dedup(FoundUrls(sorted))
  }

  /** What the resolver returns for `key`. */
  function Resolve(key: string, maxImages: int, hosted: string -> bool): (r: seq<string>)
    ensures NoDup(r)
    ensures forall u :: u in r ==> hosted(u) && u in CandidateUrls(key, maxImages, Exts)
    ensures |r| <= Cap(maxImages)
    ensures |r| < Cap(maxImages) ==> forall u :: u in CandidateUrls(key, maxImages, Exts) && hosted(u) ==> u in r
    ensures |r| == 0 <==> !AnyHosted(CandidateUrls(key, maxImages, Exts), hosted)
  {
    var d := DistinctHits(key, maxImages, hosted);
    var r := Truncate(d, Cap(maxImages));
    assert forall k :: 0 <= k < |r| ==> r[k] == d[k];
    assert |d| > 0 ==> d[0] in d && AnyHosted(CandidateUrls(key, maxImages, Exts), hosted);
    assert AnyHosted(CandidateUrls(key, maxImages, Exts), hosted) ==> |d| > 0;
    r
  }

  /** Every hosted candidate survives sorting and deduplication. */
  lemma ResolveComplete(cs: seq<Candidate>, hosted: string -> bool, sorted: seq<Found>, u: string)
    requires sorted == SortFound(Hits(cs, hosted))
    requires u in UrlsOf(cs) && hosted(u)
    ensures u in Dedup(FoundUrls(sorted))
  {
    var i :| 0 <= i < |cs| && UrlsOf(cs)[i] == u;
    assert cs[i].url == u;
    var f := Found(cs[i].url, cs[i].order, i);
    var hits := Hits(cs, hosted);
    assert f in hits;
    assert f in sorted by {
      assert f in multiset(hits);
    }
    UrlIn(sorted, f);
  }

  lemma UrlIn(fs: seq<Found>, f: Found)
    requires f in fs
    ensures f.url in FoundUrls(fs)
  {
    var j :| 0 <= j < |fs| && fs[j] == f;
    assert FoundUrls(fs)[j] == f.url;
  }

  /** Each hit names a hosted candidate by its index. */
  predicate HitsSound(cs: seq<Candidate>, hosted: string -> bool, fs: seq<Found>) {
    forall k :: 0 <= k < |fs| ==> fs[k].idx < |cs| && fs[k].url == cs[fs[k].idx].url && hosted(fs[k].url)
  }

  /** Sorting the hits keeps every entry a hosted candidate. */
  lemma SortedHitSound(cs: seq<Candidate>, hosted: string -> bool, hits: seq<Found>, sorted: seq<Found>, k: int)
    requires HitsSound(cs, hosted, hits)
    requires multiset(sorted) == multiset(hits) && 0 <= k < |sorted|
    ensures sorted[k].url in UrlsOf(cs) && hosted(sorted[k].url)
  {
    assert sorted[k] in multiset(hits);
    var j :| 0 <= j < |hits| && hits[j] == sorted[k];
    assert UrlsOf(cs)[hits[j].idx] == sorted[k].url;
  }

  /** The deduplicated sorted paths are exactly the hosted candidate paths. */
  lemma ResolveFacts(cs: seq<Candidate>, hosted: string -> bool, sorted: seq<Found>, d: seq<string>)
    requires sorted == SortFound(Hits(cs, hosted))
    requires d == Dedup(FoundUrls(sorted))
    ensures forall u :: u in d <==> u in UrlsOf(cs) && hosted(u)
  {
    DistinctHitsSound(cs, hosted, sorted, d);
    forall u | u in UrlsOf(cs) && hosted(u) ensures u in d {
      ResolveComplete(cs, hosted, sorted, u);
    }
  }

  lemma DistinctHitsSound(cs: seq<Candidate>, hosted: string -> bool, sorted: seq<Found>, d: seq<string>)
    requires sorted == SortFound(Hits(cs, hosted))
    requires d == Dedup(FoundUrls(sorted))
    ensures forall u :: u in d ==> u in UrlsOf(cs) && hosted(u)
  {
    var hits := Hits(cs, hosted);
    assert HitsSound(cs, hosted, hits);
    forall u | u in d ensures u in UrlsOf(cs) && hosted(u) {
      assert u in FoundUrls(sorted);
      var k :| 0 <= k < |sorted| && FoundUrls(sorted)[k] == u;
      SortedHitSound(cs, hosted, hits, sorted, k);
    }
  }

  /** The hosted paths of `urls`, in order. */
  function HostedUrls(urls: seq<string>, hosted: string -> bool): seq<string>
    decreases |urls|
  {
    if |urls| == 0 then []
    else HostedUrls(urls[..|urls| - 1], hosted) + (if hosted(urls[|urls| - 1]) then [urls[|urls| - 1]] else [])
  }

  /** The first hosted path of `urls` comes first. */
  lemma {:induction false} FirstHosted(urls: seq<string>, hosted: string -> bool, j: nat)
    requires j < |urls| && hosted(urls[j])
    requires forall i :: 0 <= i < j ==> !hosted(urls[i])
    ensures |HostedUrls(urls, hosted)| > 0 && HostedUrls(urls, hosted)[0] == urls[j]
    decreases |urls|
  {
    var init := urls[..|urls| - 1];
    if j < |urls| - 1 {
      FirstHosted(init, hosted, j);
    } else {
      NoneHosted(init, hosted);
    }
  }

  lemma {:induction false} NoneHosted(urls: seq<string>, hosted: string -> bool)
    requires forall i :: 0 <= i < |urls| ==> !hosted(urls[i])
    ensures HostedUrls(urls, hosted) == []
    decreases |urls|
  {
    if |urls| > 0 {
      NoneHosted(urls[..|urls| - 1], hosted);
    }
  }

  lemma {:induction false} HitUrls(cs: seq<Candidate>, hosted: string -> bool)
    ensures FoundUrls(Hits(cs, hosted)) == HostedUrls(UrlsOf(cs), hosted)
    decreases |cs|
  {
    if |cs| > 0 {
      var init := cs[..|cs| - 1];
      HitUrls(init, hosted);
      assert UrlsOf(cs)[..|cs| - 1] == UrlsOf(init);
      var tail: seq<Found> := if hosted(cs[|cs| - 1].url) then [Found(cs[|cs| - 1].url, cs[|cs| - 1].order, |cs| - 1)] else [];
      assert FoundUrls(Hits(init, hosted) + tail) == FoundUrls(Hits(init, hosted)) + FoundUrls(tail);
    }
  }

  /** Up to 999 slots the result is the hosted candidate paths in generation
      order, deduplicated and cut to the cap. */
  lemma ResolveInCandidateOrder(key: string, n: int, hosted: string -> bool)
    requires n <= 999
    ensures Resolve(key, n, hosted) == Truncate(Dedup(HostedUrls(CandidateUrls(key, n, Exts), hosted)), Cap(n))
  {
    SortKeepsHitOrder(key, n, hosted);
    HitUrls(Candidates(key, n), hosted);
    CandidateUrlsAgree(key, n);
  }

  // ---------------------------------------------------------------------------
  // The algorithm as written
  // ---------------------------------------------------------------------------

  /** The inner loop over the extensions for slot `i`. The order key uses the
      loop position `r` for `exts.indexOf(ext)`; the four extensions are
      distinct, so the two agree. */
  method AppendSlot(cs: seq<Candidate>, key: string, i: nat) returns (cs': seq<Candidate>)
    ensures cs' == cs + SlotCandidates(key, i)
  {
    cs' := cs;
    var r := 0;
    while r < |Exts|
      invariant 0 <= r <= |Exts|
      invariant cs' == cs + SlotCandidates(key, i)[..r]
    {
      assert SlotCandidates(key, i)[..r + 1] == SlotCandidates(key, i)[..r] + [NumberedCandidate(key, i, r)];
      cs' := cs' + [Candidate(NumberedUrl(key, i, Exts[r]), i * 10 + r)];
      r := r + 1;
    }
  }

  /** The loop over the flat files. */
  method AppendFlat(cs: seq<Candidate>, key: string) returns (cs': seq<Candidate>)
    ensures cs' == cs + FlatCandidates(key)
  {
    cs' := cs;
    var r := 0;
    while r < |Exts|
      invariant 0 <= r <= |Exts|
      invariant cs' == cs + FlatCandidates(key)[..r]
    {
      assert FlatCandidates(key)[..r + 1] == FlatCandidates(key)[..r] + [FlatCandidates(key)[r]];
      cs' := cs' + [Candidate(FlatUrl(key, Exts[r]), 9999 + r)];
      r := r + 1;
    }
  }

  /** The two candidate loops: slots `1..maxImages`, then the flat files. */
  method GenerateCandidates(key: string, maxImages: int) returns (cs: seq<Candidate>)
    ensures cs == Candidates(key, maxImages)
  {
    cs := [];
    var i := 1;
    while i <= maxImages
      invariant 1 <= i
      invariant cs + NumberedCandidates(key, i, maxImages) == NumberedCandidates(key, 1, maxImages)
      decreases maxImages - i
    {
      cs := AppendSlot(cs, key, i);
      i := i + 1;
    }
    assert NumberedCandidates(key, i, maxImages) == [];
    cs := AppendFlat(cs, key);
  }

  /** The loop that keeps unseen paths and stops once `maxImages` are kept; the
      length check follows the push, so at least one path is kept whenever
      there is one. */
  method DedupTruncate(xs: seq<string>, maxImages: int) returns (out: seq<string>)
    ensures out <= Dedup(xs)
    ensures |out| == if |Dedup(xs)| <= Cap(maxImages) then |Dedup(xs)| else Cap(maxImages)
  {
    out := [];
    var seen: set<string> := {};
    var k := 0;
    while k < |xs|
      invariant 0 <= k <= |xs|
      invariant out == Dedup(xs[..k])
      invariant forall x :: x in seen <==> x in out
      invariant k > 0 ==> |out| < maxImages
    {
      assert xs[..k + 1][..k] == xs[..k];
      if xs[k] !in seen {
        out := out + [xs[k]];
        seen := seen + {xs[k]};
      }
      if |out| >= maxImages {
        DedupPrefix(xs, k + 1);
        return;
      }
      k := k + 1;
    }
    assert xs[..k] == xs;
  }

  /** The loop over the settled probes that keeps the successful ones with
      their candidate index. */
  method CollectHits(candidates: seq<Candidate>, hosted: string -> bool) returns (found: seq<Found>)
    ensures found == Hits(candidates, hosted)
  {
    found := [];
    var i := 0;
    while i < |candidates|
      invariant 0 <= i <= |candidates|
      invariant found == Hits(candidates[..i], hosted)
    {
      assert candidates[..i + 1][..i] == candidates[..i];
      if hosted(candidates[i].url) {
        found := found + [Found(candidates[i].url, candidates[i].order, i)];
      }
      i := i + 1;
    }
    assert candidates[..i] == candidates;
  }

  /** The resolver as written: generate, probe, collect hits by candidate
      index, sort, deduplicate and cap. */
  method LoadImagesForKey(key: string, maxImages: int, hosted: string -> bool) returns (out: seq<string>)
    ensures out == Resolve(key, maxImages, hosted)
  {
    var candidates := GenerateCandidates(key, maxImages);
    var found := CollectHits(candidates, hosted);
    var sorted := SortFound(found);
    out := DedupTruncate(FoundUrls(sorted), maxImages);
    assert out == Truncate(DistinctHits(key, maxImages, hosted), Cap(maxImages));
  }
}

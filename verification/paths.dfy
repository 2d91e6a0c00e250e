/** Image paths on the static host.

    A region `key` may have numbered images `images/{key}/{i}.{ext}` and flat
    images `images/{key}.{ext}`. Both the cheap existence check and the gallery
    enumerate these paths in the same fixed order: slot 1 over every extension,
    slot 2 over every extension, ..., then the flat files over every extension.
 */
module Paths {

  /** The extensions tried for every slot, in preference order. */
  const Exts: seq<string> := ["png", "jpg", "jpeg", "webp"]

  predicate IsDigit(c: char) {
    '0' <= c <= '9'
  }

  /** No element occurs twice. */
  predicate NoDup<T(==)>(s: seq<T>) {
    forall a, b :: 0 <= a < b < |s| ==> s[a] != s[b]
  }

  /** A sequence without duplicates drawn from `s` is no longer than `s` is large. */
  lemma {:induction false} NoDupLength<T>(r: seq<T>, s: set<T>)
    requires NoDup(r)
    requires forall k :: 0 <= k < |r| ==> r[k] in s
    ensures |r| <= |s|
    decreases |r|
  {
    if |r| > 0 {
      var last := r[|r| - 1];
      var init := r[..|r| - 1];
      forall k | 0 <= k < |init| ensures init[k] in s - {last} {
        assert init[k] == r[k] != r[|r| - 1];
      }
      NoDupLength(init, s - {last});
    }
  }

  /** Decimal rendering of a natural number, as a template literal prints an integer. */
  function Decimal(n: nat): (s: string)
    ensures |s| >= 1
    ensures forall k :: 0 <= k < |s| ==> IsDigit(s[k])
    ensures n < 10 <==> |s| == 1
  {
    if n < 10 then ["0123456789"[n]] else Decimal(n / 10) + ["0123456789"[n % 10]]
  }

  function NumberedUrl(key: string, i: nat, ext: string): string {
    "images/" + key + "/" + Decimal(i) + "." + ext
  }

  function FlatUrl(key: string, ext: string): string {
    "images/" + key + "." + ext
  }

  /** The paths of slot `i`, one per extension. */
  function SlotUrls(key: string, i: nat, exts: seq<string>): seq<string> {
    seq(|exts|, r requires 0 <= r < |exts| => NumberedUrl(key, i, exts[r]))
  }

  /** The paths of slots `i..n`, slot by slot. */
  function NumberedUrls(key: string, i: nat, n: int, exts: seq<string>): seq<string>
    decreases n - i
  {
    if i > n then [] else SlotUrls(key, i, exts) + NumberedUrls(key, i + 1, n, exts)
  }

  function FlatUrls(key: string, exts: seq<string>): seq<string> {
    seq(|exts|, r requires 0 <= r < |exts| => FlatUrl(key, exts[r]))
  }

  /** Every path tried for `key` with `n` numbered slots, in the order tried. */
  function CandidateUrls(key: string, n: int, exts: seq<string>): seq<string> {
    NumberedUrls(key, 1, n, exts) + FlatUrls(key, exts)
  }

  /** Some path of `urls` is served by the host. */
  predicate AnyHosted(urls: seq<string>, hosted: string -> bool) {
    exists u :: u in urls && hosted(u)
  }

  /** Slots `i..n` are slots `i..k` followed by slots `k+1..n`. */
  lemma {:induction false} NumberedUrlsSplit(key: string, i: nat, k: int, n: int, exts: seq<string>)
    requires i <= k + 1 && k <= n
    ensures NumberedUrls(key, i, n, exts) == NumberedUrls(key, i, k, exts) + NumberedUrls(key, k + 1, n, exts)
    decreases k - i
  {
    if i <= k {
      NumberedUrlsSplit(key, i + 1, k, n, exts);
    }
  }

  /** Every path tried with `k` slots is also tried with `m >= k` slots. */
  lemma CandidateUrlsMonotone(key: string, k: int, m: int, exts: seq<string>)
    requires k <= m
    ensures forall u :: u in CandidateUrls(key, k, exts) ==> u in CandidateUrls(key, m, exts)
  {
    if k >= 0 {
      NumberedUrlsSplit(key, 1, k, m, exts);
    } else {
      assert NumberedUrls(key, 1, k, exts) == [];
    }
  }

  /** There are `|exts|` paths per slot and `|exts|` flat paths. */
  lemma {:induction false} NumberedUrlsLength(key: string, i: nat, n: int, exts: seq<string>)
    requires i <= n + 1
    ensures |NumberedUrls(key, i, n, exts)| == |exts| * (n - i + 1)
    decreases n - i
  {
    if i <= n {
      NumberedUrlsLength(key, i + 1, n, exts);
      assert |exts| * (n - i + 1) == |exts| + |exts| * (n - i);
    }
  }

  lemma CandidateUrlsLength(key: string, n: int, exts: seq<string>)
    ensures |CandidateUrls(key, n, exts)| == |exts| * (if n > 0 then n else 0) + |exts|
  {
    if n > 0 {
      NumberedUrlsLength(key, 1, n, exts);
    }
  }
}

/** The ranking step the application index and the system commands share: every candidate is
    paired with its score when the score is positive, the pairs are sorted by descending score
    with std::sort, and the items of the first n pairs are returned. */
module Ranking {
  import opened Feature
  import opened Sorting
  import opened Text

  /** A FeatureItem with its fuzzy-match score. */
  type ScoredItem = (FeatureItem, int)

  /** The pairs (item, score) for the items whose lowercased title scores above zero against the
      lowercased query `lq`, in catalog order. */
  function Scored(items: seq<FeatureItem>, lq: string, score: (string, string) -> int): seq<ScoredItem> {
    if items == [] then []
    else
      var prefix := Scored(items[..|items| - 1], lq, score);
      var it := items[|items| - 1];
      var s := score(lq, LowerStr(it.title));
      if s > 0 then prefix + [(it, s)] else prefix
  }

  /** A pair is scored exactly when its item is a candidate with that positive score. */
  lemma {:induction false} ScoredMembers(items: seq<FeatureItem>, lq: string, score: (string, string) -> int)
    ensures forall p :: p in Scored(items, lq, score) <==>
      p.0 in items && p.1 == score(lq, LowerStr(p.0.title)) && p.1 > 0
  {
    if items != [] {
      var init := items[..|items| - 1];
      ScoredMembers(init, lq, score);
      assert items == init + [items[|items| - 1]];
    }
  }

  /** The comparison handed to std::sort: higher scores first. */
  predicate ByScore(a: ScoredItem, b: ScoredItem) {
    a.1 >= b.1
  }

  lemma ByScoreTotal()
    ensures TotalPreorder(ByScore)
  {
  }

  /** The items of a list of pairs, in order. */
  function Firsts(ps: seq<ScoredItem>): (r: seq<FeatureItem>)
    ensures |r| == |ps|
    ensures forall i :: 0 <= i < |ps| ==> r[i] == ps[i].0
  {
    seq(|ps|, i requires 0 <= i < |ps| => ps[i].0)
  }

  /** A prefix of a list sorted by descending score holds scores at least as high as anything
      left behind. */
  lemma SortedPrefixDominates(sorted: seq<ScoredItem>, k: nat)
    requires forall i, j :: 0 <= i < j < |sorted| ==> sorted[i].1 >= sorted[j].1
    requires k <= |sorted|
    ensures multiset(sorted[..k]) <= multiset(sorted)
    ensures forall i, j :: 0 <= i < j < k ==> sorted[..k][i].1 >= sorted[..k][j].1
    ensures forall x, i :: x in multiset(sorted) - multiset(sorted[..k]) && 0 <= i < k ==> sorted[..k][i].1 >= x.1
  {
    assert sorted == sorted[..k] + sorted[k..];
    assert multiset(sorted) == multiset(sorted[..k]) + multiset(sorted[k..]);
    forall x, i | x in multiset(sorted) - multiset(sorted[..k]) && 0 <= i < k ensures sorted[i].1 >= x.1 {
      assert x in multiset(sorted[k..]);
      var m :| k <= m < |sorted| && sorted[m] == x;
    }
  }

  /** The pairs sorted by descending score. */
  function SortByScore(scored: seq<ScoredItem>): (r: seq<ScoredItem>)
    ensures multiset(r) == multiset(scored)
    ensures |r| == |scored|
    ensures forall i, j :: 0 <= i < j < |r| ==> r[i].1 >= r[j].1
  {
    ByScoreTotal();
    var sorted := InsertionSort(scored, ByScore);
    assert forall i, j :: 0 <= i < j < |sorted| ==> ByScore(sorted[i], sorted[j]);
    sorted
  }

  /** The first n pairs after sorting by descending score. */
  function Rank(scored: seq<ScoredItem>, n: nat): (r: seq<ScoredItem>)
    ensures |r| == if |scored| < n then |scored| else n
    ensures multiset(r) <= multiset(scored)
    ensures forall i, j :: 0 <= i < j < |r| ==> r[i].1 >= r[j].1
    ensures forall x, i :: x in multiset(scored) - multiset(r) && 0 <= i < |r| ==> r[i].1 >= x.1
  {
    var sorted := SortByScore(scored);
    var k := if |sorted| < n then |sorted| else n;
    SortedPrefixDominates(sorted, k);
    sorted[..k]
  }

  /** The loop that sorts the pairs and collects items until n are taken. */
  method TakeBest(scored: seq<ScoredItem>, n: nat) returns (results: seq<FeatureItem>)
    ensures results == Firsts(Rank(scored, n))
  {
    var sorted := SortByScore(scored);
    results := [];
    var j := 0;
    while j < |sorted| && |results| < n
      invariant 0 <= j <= |sorted| && j <= n
      invariant results == Firsts(sorted[..j])
      decreases |sorted| - j
    {
      assert sorted[..j + 1] == sorted[..j] + [sorted[j]];
      results := results + [sorted[j].0];
      j := j + 1;
    }
  }
}

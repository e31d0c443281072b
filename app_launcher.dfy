/** The application index: desktop entries are filtered and de-duplicated into a catalog sorted
    by title, and queries are ranked with a weighted subsequence matcher. A desktop file's
    "Desktop Entry" group is given as a map from keys to their string values. */
module AppLauncher {
  import opened Feature
  import opened Ranking
  import opened Sorting
  import opened Subsequence
  import opened Text

  // ---------------------------------------------------------------- fuzzyMatch

  /** What a match at text position p adds when the previous match was at `last` (-1 before the
      first): 1, plus 10 for the first match, plus 5 right after the previous match (and also for
      a first match at position 0), plus 8 at the start of the text or after white space. */
  function Bonus(t: string, p: nat, last: int): int
    requires p < |t|
  {
    1 + (if last == -1 then 10 else 0) + (if last == p - 1 then 5 else 0)
    + (if p == 0 || IsSpace(t[p - 1]) then 8 else 0)
  }

  predicate InText(ps: seq<nat>, t: string) {
    forall k :: 0 <= k < |ps| ==> ps[k] < |t|
  }

  /** The total bonus of a list of match positions. */
  function Weight(ps: seq<nat>, t: string): int
    requires InText(ps, t)
  {
    if ps == [] then 0
    else
      var last: int := if |ps| == 1 then -1 else ps[|ps| - 2];
      Weight(ps[..|ps| - 1], t) + Bonus(t, ps[|ps| - 1], last)
  }

  /** The score of the matcher, in terms of the positions the greedy scan matches. */
  function MatchScore(q: string, t: string): int {
    if q == [] then 1
    else if t == [] then 0
    else
      var e := Emb(q, t, 0);
      EmbValid(q, t, 0);
      if |e| == |q| then Weight(e, t) else 0
  }

  lemma {:induction false} WeightBound(ps: seq<nat>, t: string)
    requires InText(ps, t) && ps != []
    ensures Weight(ps, t) >= |ps| + 10
  {
    if |ps| > 1 {
      WeightBound(ps[..|ps| - 1], t);
    }
  }

  /** 1 for an empty query, 0 for empty text; otherwise positive exactly when the query is a
      subsequence of the text, and then at least |q| + 10. */
  lemma MatchScoreSpec(q: string, t: string)
    ensures q == [] ==> MatchScore(q, t) == 1
    ensures q != [] && t == [] ==> MatchScore(q, t) == 0
    ensures q != [] ==> (MatchScore(q, t) > 0 <==> Embeds(q, t))
    ensures q != [] && Embeds(q, t) ==> MatchScore(q, t) >= |q| + 10
  {
    GreedyMatchesIffEmbeds(q, t);
    EmbValid(q, t, 0);
    if q != [] && t != [] && |Emb(q, t, 0)| == |q| {
      WeightBound(Emb(q, t, 0), t);
    }
  }

  lemma WeightSnoc(ps: seq<nat>, p: nat, t: string)
    requires InText(ps, t) && p < |t|
    ensures InText(ps + [p], t)
    ensures Weight(ps + [p], t) == Weight(ps, t) + Bonus(t, p, if ps == [] then -1 else ps[|ps| - 1])
  {
    assert (ps + [p])[..|ps|] == ps;
  }

  /** Recording a match at position i, past every earlier one. */
  lemma MatchedSnoc(ps: seq<nat>, i: nat, t: string)
    requires InText(ps, t) && i < |t| && forall k :: 0 <= k < |ps| ==> ps[k] < i
    ensures InText(ps + [i], t) && forall k :: 0 <= k < |ps + [i]| ==> (ps + [i])[k] < i + 1
    ensures (ps + [i])[|ps + [i]| - 1] == i
    ensures Weight(ps + [i], t) == Weight(ps, t) + Bonus(t, i, if ps == [] then -1 else ps[|ps| - 1])
  {
    WeightSnoc(ps, i, t);
  }

  /** One step of the scan, on the positions matched so far. */
  lemma ScanStep(q: string, t: string, qp: nat, i: nat, matched: seq<nat>)
    requires qp < |q| && i < |t|
    requires Emb(q, t, 0) == matched + Emb(q[qp..], t, i)
    ensures t[i] == q[qp] ==> Emb(q, t, 0) == (matched + [i]) + Emb(q[qp + 1..], t, i + 1)
    ensures t[i] != q[qp] ==> Emb(q, t, 0) == matched + Emb(q[qp..], t, i + 1)
  {
    EmbAdvance(q, t, qp, i);
    if t[i] == q[qp] {
      ConcatAssoc(matched, [i], Emb(q[qp + 1..], t, i + 1));
    }
  }

  lemma ConcatAssoc(a: seq<nat>, b: seq<nat>, c: seq<nat>)
    ensures a + (b + c) == (a + b) + c
  {
  }

  /** The score fuzzyMatch adds for a match at position i. */
  method MatchBonus(text: string, i: nat, lastMatchIndex: int) returns (currentScore: int)
    requires i < |text|
    ensures currentScore == Bonus(text, i, lastMatchIndex)
  {
    currentScore := 1;
    if lastMatchIndex == -1 {
      currentScore := currentScore + 10;
    }
    if lastMatchIndex == i - 1 {
      currentScore := currentScore + 5;
    }
    if i == 0 || IsSpace(text[i - 1]) {
      currentScore := currentScore + 8;
    }
  }

  /** The state of fuzzyMatch's scan before text position i, with `qp` query characters matched
      at the positions `matched`, the last of them `last`, and `score` accumulated. */
  ghost predicate ScanState(q: string, t: string, qp: nat, i: nat, matched: seq<nat>, last: int, score: int) {
    i <= |t| && qp <= |q| && |matched| == qp
    && (forall k :: 0 <= k < |matched| ==> matched[k] < i)
    && InText(matched, t)
    && Emb(q, t, 0) == matched + Emb(q[qp..], t, i)
    && last == (if matched == [] then -1 else matched[|matched| - 1])
    && score == Weight(matched, t)
  }

  lemma ScanInit(q: string, t: string)
    ensures ScanState(q, t, 0, 0, [], -1, 0)
  {
    assert q[0..] == q;
  }

  lemma ScanMatch(q: string, t: string, qp: nat, i: nat, matched: seq<nat>, last: int, score: int)
    requires ScanState(q, t, qp, i, matched, last, score) && qp < |q| && i < |t| && t[i] == q[qp]
    ensures ScanState(q, t, qp + 1, i + 1, matched + [i], i, score + Bonus(t, i, last))
  {
    ScanStep(q, t, qp, i, matched);
    MatchedSnoc(matched, i, t);
  }

  lemma ScanSkip(q: string, t: string, qp: nat, i: nat, matched: seq<nat>, last: int, score: int)
    requires ScanState(q, t, qp, i, matched, last, score) && qp < |q| && i < |t| && t[i] != q[qp]
    ensures ScanState(q, t, qp, i + 1, matched, last, score)
  {
    ScanStep(q, t, qp, i, matched);
  }

  /** When the scan stops, the score is the match score: the weight if the whole query matched. */
  lemma ScanEnd(q: string, t: string, qp: nat, i: nat, matched: seq<nat>, last: int, score: int)
    requires q != [] && t != []
    requires ScanState(q, t, qp, i, matched, last, score) && (i == |t| || qp == |q|)
    ensures MatchScore(q, t) == if qp < |q| then 0 else score
  {
    if qp < |q| {
      EmbAtEnd(q[qp..], t);
    } else {
      assert q[qp..] == [];
      assert matched + [] == matched;
    }
  }

  /** AppLauncher::fuzzyMatch. */
  method FuzzyMatch(query: string, text: string) returns (score: int)
    ensures score == MatchScore(query, text)
  {
    if query == [] {
      return 1;
    }
    if text == [] {
      return 0;
    }
    score := 0;
    var queryPos: nat := 0;
    var lastMatchIndex: int := -1;
    var i: nat := 0;
    ghost var matched: seq<nat> := [];
    ScanInit(query, text);
    while i < |text| && queryPos < |query|
      invariant ScanState(query, text, queryPos, i, matched, lastMatchIndex, score)
      decreases |text| - i
    {
      if text[i] == query[queryPos] {
        ScanMatch(query, text, queryPos, i, matched, lastMatchIndex, score);
        var currentScore := MatchBonus(text, i, lastMatchIndex);
        score := score + currentScore;
        matched := matched + [i];
        lastMatchIndex := i;
        queryPos := queryPos + 1;
      } else {
        ScanSkip(query, text, queryPos, i, matched, lastMatchIndex, score);
      }
      i := i + 1;
    }
    ScanEnd(query, text, queryPos, i, matched, lastMatchIndex, score);
    if queryPos < |query| {
      score := 0;
    }
  }

  // ---------------------------------------------------------------- Exec sanitising

  /** The field codes of the Desktop Entry specification that the launcher removes. */
  const FieldCodes: string := "fFuUdDnNickvm"

  predicate PlaceholderAt(s: string, i: int) {
    0 <= i && i + 1 < |s| && s[i] == '%' && s[i + 1] in FieldCodes
  }

  /** Deletes every non-overlapping match of '%' followed by a field code, scanning from the
      left; the text after a deletion is not re-scanned from the character before it. */
  function StripPlaceholders(s: string): (r: string)
    ensures |r| <= |s|
  {
    if s == [] then []
    else if PlaceholderAt(s, 0) then StripPlaceholders(s[2..])
    else [s[0]] + StripPlaceholders(s[1..])
  }

  /** A command line without placeholders is kept as it is. */
  lemma {:induction false} NoPlaceholderUnchanged(s: string)
    requires forall i :: !PlaceholderAt(s, i)
    ensures StripPlaceholders(s) == s
  {
    if s != [] {
      assert !PlaceholderAt(s, 0);
      forall i ensures !PlaceholderAt(s[1..], i) {
        assert PlaceholderAt(s[1..], i) ==> PlaceholderAt(s, i + 1);
      }
      NoPlaceholderUnchanged(s[1..]);
    }
  }

  /** A placeholder after a clean prefix is deleted and the scan goes on after it. */
  lemma {:induction false} PlaceholderDeleted(a: string, c: char, b: string)
    requires forall i :: !PlaceholderAt(a, i)
    requires a == [] || a[|a| - 1] != '%'
    requires c in FieldCodes
    ensures StripPlaceholders(a + ['%', c] + b) == a + StripPlaceholders(b)
  {
    var s := a + ['%', c] + b;
    if a == [] {
      assert PlaceholderAt(s, 0) && s[2..] == b;
    } else {
      assert !PlaceholderAt(a, 0);
      assert !PlaceholderAt(s, 0) by {
        if |a| == 1 {
          assert s[0] == a[0] && s[1] == '%' && a[0] != '%';
        } else {
          assert s[0] == a[0] && s[1] == a[1];
        }
      }
      forall i ensures !PlaceholderAt(a[1..], i) {
        assert PlaceholderAt(a[1..], i) ==> PlaceholderAt(a, i + 1);
      }
      PlaceholderDeleted(a[1..], c, b);
      assert s[1..] == a[1..] + ['%', c] + b;
    }
  }

  /** The deletion can create a new placeholder, which then stays. */
  lemma StripDoesNotRescan()
    ensures StripPlaceholders("%%ff") == "%f"
  {
    var s := "%%ff";
    assert !PlaceholderAt(s, 0);
    assert s[1..] == "%ff" && PlaceholderAt(s[1..], 0);
    assert s[1..][2..] == "f";
  }

  /** The Exec value stored in the catalog. */
  function SanitizeExec(exec: string): string {
    Trim(StripPlaceholders(exec))
  }

  // ---------------------------------------------------------------- desktop entries

  /** QSettings::value(key).toString(): the value, or empty when the key is missing. */
  function Value(entry: map<string, string>, key: string): string {
    if key in entry then entry[key] else ""
  }

  /** QVariant::toBool on a string value: false for "", "0" and "false" (any case). */
  predicate IniTrue(v: string) {
    !(v == "" || v == "0" || LowerStr(v) == "false")
  }

  /** The acceptance rules of parseDesktopFile, given the names seen so far. */
  predicate Accepts(entry: map<string, string>, seen: set<string>) {
    ("Type" !in entry || entry["Type"] == "Application")
    && !IniTrue(Value(entry, "NoDisplay")) && !IniTrue(Value(entry, "Hidden"))
    && Value(entry, "Name") != "" && Value(entry, "Exec") != ""
    && Value(entry, "Name") !in seen
  }

  /** The catalog item of an accepted entry. */
  function ItemOf(entry: map<string, string>): (it: FeatureItem)
    ensures it.title == Value(entry, "Name") && it.subtitle == Value(entry, "Comment")
    ensures it.icon == Value(entry, "Icon") && it.itemType == "app"
    ensures it.data == SanitizeExec(Value(entry, "Exec"))
  {
    FeatureItem(Value(entry, "Name"), Value(entry, "Comment"), Value(entry, "Icon"),
                SanitizeExec(Value(entry, "Exec")), "app")
  }

  function Titles(apps: seq<FeatureItem>): set<string> {
    set x | x in apps :: x.title
  }

  /** No two catalog entries share a title; stated on the multiset so that it survives sorting. */
  ghost predicate DistinctTitles(apps: seq<FeatureItem>) {
    forall x, y :: x in multiset(apps) && y in multiset(apps) && x.title == y.title ==>
      x == y && multiset(apps)[x] == 1
  }

  lemma DistinctTitlesIndices(apps: seq<FeatureItem>)
    requires DistinctTitles(apps)
    ensures forall i, j :: 0 <= i < j < |apps| ==> apps[i].title != apps[j].title
  {
    forall i, j | 0 <= i < j < |apps| ensures apps[i].title != apps[j].title {
      if apps[i] == apps[j] {
        RepeatedTwice(apps, i, j);
      }
    }
  }

  lemma RepeatedTwice<T>(xs: seq<T>, i: nat, j: nat)
    requires i < j < |xs| && xs[i] == xs[j]
    ensures multiset(xs)[xs[i]] >= 2
  {
    assert xs == xs[..j] + xs[j..];
    assert xs[i] in multiset(xs[..j]) && xs[j] in multiset(xs[j..]);
  }

  lemma DistinctAppend(apps: seq<FeatureItem>, x: FeatureItem)
    requires DistinctTitles(apps) && x.title !in Titles(apps)
    ensures DistinctTitles(apps + [x])
  {
    var m := multiset(apps + [x]);
    assert m == multiset(apps) + multiset{x};
    assert x !in multiset(apps);
  }

  /** The entries the catalog holds after parsing `entries` in order, before sorting. */
  function Collect(entries: seq<map<string, string>>): seq<FeatureItem> {
    if entries == [] then []
    else
      var prefix := Collect(entries[..|entries| - 1]);
      var e := entries[|entries| - 1];
      if Accepts(e, Titles(prefix)) then prefix + [ItemOf(e)] else prefix
  }

  /** Names in the catalog are unique: the first entry with a given name wins. */
  lemma {:induction false} CollectDistinct(entries: seq<map<string, string>>)
    ensures DistinctTitles(Collect(entries))
  {
    if entries != [] {
      var init := entries[..|entries| - 1];
      var e := entries[|entries| - 1];
      CollectDistinct(init);
      if Accepts(e, Titles(Collect(init))) {
        DistinctAppend(Collect(init), ItemOf(e));
      }
    }
  }

  /** The filters an entry passed to be in the catalog. */
  predicate Admissible(e: map<string, string>) {
    ("Type" !in e || e["Type"] == "Application") && !IniTrue(Value(e, "NoDisplay"))
    && !IniTrue(Value(e, "Hidden")) && Value(e, "Name") != "" && Value(e, "Exec") != ""
  }

  /** Every catalog entry is the item of an input entry that passes the filters. */
  lemma {:induction false} CollectFromEntries(entries: seq<map<string, string>>)
    ensures forall x :: x in Collect(entries) ==> (exists e :: e in entries && Admissible(e) && x == ItemOf(e))
  {
    if entries != [] {
      var init := entries[..|entries| - 1];
      CollectFromEntries(init);
      assert forall f :: f in init ==> f in entries;
    }
  }

  lemma CollectStep(entries: seq<map<string, string>>, k: nat)
    requires k < |entries|
    ensures Collect(entries[..k + 1]) ==
      if Accepts(entries[k], Titles(Collect(entries[..k]))) then Collect(entries[..k]) + [ItemOf(entries[k])]
      else Collect(entries[..k])
  {
    assert entries[..k + 1][..k] == entries[..k];
  }

  lemma TitlesSnoc(apps: seq<FeatureItem>, x: FeatureItem)
    ensures Titles(apps + [x]) == Titles(apps) + {x.title}
  {
    assert forall y :: y in apps + [x] <==> y in apps || y == x;
  }

  lemma TitlesOfPermutation(a: seq<FeatureItem>, b: seq<FeatureItem>)
    requires multiset(a) == multiset(b)
    ensures Titles(a) == Titles(b)
  {
    assert forall y :: y in a <==> y in multiset(a);
    assert forall y :: y in b <==> y in multiset(b);
  }

  /** The catalog order: by lowercased title. */
  predicate TitleOrder(a: FeatureItem, b: FeatureItem) {
    LexLeq(LowerStr(a.title), LowerStr(b.title))
  }

  lemma TitleOrderTotal()
    ensures TotalPreorder(TitleOrder)
  {
    forall a: FeatureItem, b: FeatureItem ensures TitleOrder(a, b) || TitleOrder(b, a) {
      LexLeqTotal(LowerStr(a.title), LowerStr(b.title));
    }
    forall a: FeatureItem, b: FeatureItem, c: FeatureItem | TitleOrder(a, b) && TitleOrder(b, c)
      ensures TitleOrder(a, c)
    {
      LexLeqTransitive(LowerStr(a.title), LowerStr(b.title), LowerStr(c.title));
    }
  }

  /** The scoring loop of AppLauncher::search: the entries whose lowercased title matches the
      lowercased query `lq`, with their scores, in catalog order. */
  method ScoreAll(items: seq<FeatureItem>, lq: string) returns (scored: seq<ScoredItem>)
    ensures scored == Scored(items, lq, MatchScore)
  {
    scored := [];
    var k := 0;
    while k < |items|
      invariant 0 <= k <= |items|
      invariant scored == Scored(items[..k], lq, MatchScore)
      decreases |items| - k
    {
      var app := items[k];
      var score := FuzzyMatch(lq, LowerStr(app.title));
      assert items[..k + 1][..k] == items[..k];
      if score > 0 {
        scored := scored + [(app, score)];
      }
      k := k + 1;
    }
    assert items[..k] == items;
  }

  class Launcher {
    /** m_applications, the catalog. */
    var applications: seq<FeatureItem>
    /** m_seenApps, the names taken so far. */
    var seenApps: set<string>

    ghost predicate Valid()
      reads this
    {
      seenApps == Titles(applications) && DistinctTitles(applications)
    }

    /** The constructor loads the catalog. */
    constructor (entries: seq<map<string, string>>)
      ensures Valid()
      ensures SortedBy(applications, TitleOrder)
      ensures multiset(applications) == multiset(Collect(entries))
    {
      applications := [];
      seenApps := {};
      new;
      LoadApplications(entries);
    }

    /** AppLauncher::parseDesktopFile on one "Desktop Entry" group. */
    method ParseDesktopFile(entry: map<string, string>)
      modifies this
      ensures Accepts(entry, old(seenApps)) ==>
        seenApps == old(seenApps) + {Value(entry, "Name")} && applications == old(applications) + [ItemOf(entry)]
      ensures !Accepts(entry, old(seenApps)) ==>
        seenApps == old(seenApps) && applications == old(applications)
    {
      var ty := if "Type" in entry then entry["Type"] else "Application";
      if ty != "Application" {
        return;
      }
      if IniTrue(Value(entry, "NoDisplay")) || IniTrue(Value(entry, "Hidden")) {
        return;
      }
      var name := Value(entry, "Name");
      var exec := Value(entry, "Exec");
      if name == [] || exec == [] || name in seenApps {
        return;
      }
      seenApps := seenApps + {name};
      exec := SanitizeExec(exec);
      var icon := Value(entry, "Icon");
      var comment := Value(entry, "Comment");
      applications := applications + [FeatureItem(name, comment, icon, exec, "app")];
    }

    /** AppLauncher::loadApplications over the desktop entries found, in directory order. */
    method LoadApplications(entries: seq<map<string, string>>)
      modifies this
      ensures Valid()
      ensures SortedBy(applications, TitleOrder)
      ensures multiset(applications) == multiset(Collect(entries))
    {
      applications := [];
      seenApps := {};
      var k := 0;
      while k < |entries|
        invariant 0 <= k <= |entries|
        invariant applications == Collect(entries[..k])
        invariant seenApps == Titles(applications)
        decreases |entries| - k
      {
        CollectStep(entries, k);
        TitlesSnoc(applications, ItemOf(entries[k]));
        ParseDesktopFile(entries[k]);
        k := k + 1;
      }
      assert entries[..k] == entries;
      CollectDistinct(entries);
      TitleOrderTotal();
      var sorted := InsertionSort(applications, TitleOrder);
      TitlesOfPermutation(applications, sorted);
      applications := sorted;
    }

    /** AppLauncher::search. A blank query lists the first eight catalog entries; otherwise the
        entries whose lowercased title matches the lowercased query, best first, at most eight. */
    method Search(query: string) returns (results: seq<FeatureItem>)
      ensures Trim(query) == [] ==> results == TakeAtMost(applications, 8)
      ensures Trim(query) != [] ==> results == Firsts(Rank(Scored(applications, LowerStr(query), MatchScore), 8))
    {
      if Trim(query) == [] {
        return TakeAtMost(applications, 8);
      }
      var scored := ScoreAll(applications, LowerStr(query));
      results := TakeBest(scored, 8);
    }
  }

  /** Every ranked result is a catalog entry whose lowercased title contains the lowercased query
      as a subsequence. */
  lemma RankedResultsMatch(apps: seq<FeatureItem>, query: string)
    requires Trim(query) != []
    ensures forall x :: x in Firsts(Rank(Scored(apps, LowerStr(query), MatchScore), 8)) ==>
      x in apps && Embeds(LowerStr(query), LowerStr(x.title))
  {
    var lq := LowerStr(query);
    var scored := Scored(apps, lq, MatchScore);
    var r := Rank(scored, 8);
    ScoredMembers(apps, lq, MatchScore);
    forall x | x in Firsts(r) ensures x in apps && Embeds(lq, LowerStr(x.title)) {
      var i :| 0 <= i < |r| && Firsts(r)[i] == x;
      assert r[i] in multiset(r);
      assert r[i] in scored;
      MatchScoreSpec(lq, LowerStr(x.title));
    }
  }
}

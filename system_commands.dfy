/** The fixed list of power and desktop commands, searched with a simple subsequence matcher. */
module SystemCommands {
  import opened Feature
  import opened Ranking
  import opened Subsequence
  import opened Text

  const Commands: seq<FeatureItem> := [
    FeatureItem("Shutdown", "Power off the system", "system-shutdown", "shutdown -h now", "system"),
    FeatureItem("Restart", "Restart the system", "system-reboot", "reboot", "system"),
    FeatureItem("Log Out", "Log out of current session", "system-log-out", "pkill -KILL -u $USER", "system"),
    FeatureItem("Lock Screen", "Lock the screen", "system-lock-screen", "loginctl lock-session", "system"),
    FeatureItem("Sleep", "Put system to sleep", "system-suspend", "systemctl suspend", "system"),
    FeatureItem("File Manager", "Open file manager", "folder", "xdg-open ~", "system"),
    FeatureItem("Terminal", "Open terminal", "utilities-terminal", "x-terminal-emulator", "system"),
    FeatureItem("Settings", "Open system settings", "preferences-system", "gnome-control-center", "system")
  ]

  /** The score of the matcher, in terms of the greedy scan: 10 for the first matched character,
      1 for each further one, and 0 unless the scan consumes the whole query. */
  function MatchScore(q: string, t: string): int {
    if q == [] then 1 else if |Emb(q, t, 0)| == |q| then |q| + 9 else 0
  }

  /** The score in closed form: non-zero exactly for subsequences, and then |q| + 9. */
  lemma MatchScoreClosedForm(q: string, t: string)
    ensures MatchScore(q, t) == if q == [] then 1 else if Embeds(q, t) then |q| + 9 else 0
  {
    GreedyMatchesIffEmbeds(q, t);
  }

  /** The state of fuzzyMatch's scan before text position i, with `qp` query characters matched
      and `score` accumulated. */
  ghost predicate ScanState(q: string, t: string, qp: nat, i: nat, score: int) {
    i <= |t| && qp <= |q|
    && |Emb(q, t, 0)| == qp + |Emb(q[qp..], t, i)|
    && score == if qp == 0 then 0 else qp + 9
  }

  lemma ScanInit(q: string, t: string)
    ensures ScanState(q, t, 0, 0, 0)
  {
    assert q[0..] == q;
  }

  lemma ScanAdvance(q: string, t: string, qp: nat, i: nat, score: int)
    requires ScanState(q, t, qp, i, score) && qp < |q| && i < |t|
    ensures t[i] == q[qp] ==> ScanState(q, t, qp + 1, i + 1, score + if qp == 0 then 10 else 1)
    ensures t[i] != q[qp] ==> ScanState(q, t, qp, i + 1, score)
  {
    EmbAdvance(q, t, qp, i);
  }

  /** When the scan stops, the score is the match score. */
  lemma ScanEnd(q: string, t: string, qp: nat, i: nat, score: int)
    requires q != [] && ScanState(q, t, qp, i, score) && (i == |t| || qp == |q|)
    ensures MatchScore(q, t) == if qp < |q| then 0 else score
  {
    if qp < |q| {
      EmbAtEnd(q[qp..], t);
    } else {
      assert q[qp..] == [];
    }
  }

  /** SystemCommands::fuzzyMatch. */
  method FuzzyMatch(query: string, text: string) returns (score: int)
    ensures score == MatchScore(query, text)
  {
    if query == [] {
      return 1;
    }
    var queryPos: nat := 0;
    score := 0;
    var i: nat := 0;
    ScanInit(query, text);
    while i < |text| && queryPos < |query|
      invariant ScanState(query, text, queryPos, i, score)
      decreases |text| - i
    {
      ScanAdvance(query, text, queryPos, i, score);
      if text[i] == query[queryPos] {
        queryPos := queryPos + 1;
        score := score + if queryPos == 1 then 10 else 1;
      }
      i := i + 1;
    }
    ScanEnd(query, text, queryPos, i, score);
    if queryPos < |query| {
      score := 0;
    }
  }

  /** The scoring loop of SystemCommands::search: the commands whose lowercased title matches
      the lowercased query `lq`, with their scores, in table order. */
  method ScoreAll(items: seq<FeatureItem>, lq: string) returns (scored: seq<ScoredItem>)
    ensures scored == Scored(items, lq, MatchScore)
  {
    scored := [];
    var k := 0;
    while k < |items|
      invariant 0 <= k <= |items|
      invariant scored == Scored(items[..k], lq, MatchScore)
      decreases |items| - k
    {
      var cmd := items[k];
      var s := FuzzyMatch(lq, LowerStr(cmd.title));
      assert items[..k + 1][..k] == items[..k];
      if s > 0 {
        scored := scored + [(cmd, s)];
      }
      k := k + 1;
    }
    assert items[..k] == items;
  }

  /** SystemCommands::search. An empty query (not trimmed) lists the first six commands;
      otherwise the commands whose lowercased title matches the lowercased query, best first,
      at most six. */
  method Search(query: string) returns (results: seq<FeatureItem>)
    ensures query == [] ==> results == Commands[..6]
    ensures query != [] ==> results == Firsts(Rank(Scored(Commands, LowerStr(query), MatchScore), 6))
  {
    if query == [] {
      return Commands[..6];
    }
    var scored := ScoreAll(Commands, LowerStr(query));
    results := TakeBest(scored, 6);
  }

  /** Every surviving command scores |q| + 9, so all candidates tie and std::sort may leave them
      in any order. */
  lemma AllCandidatesTie(query: string)
    requires query != []
    ensures forall p :: p in Scored(Commands, LowerStr(query), MatchScore) ==> p.1 == |query| + 9
  {
    ScoredMembers(Commands, LowerStr(query), MatchScore);
  }

  /** A query that no title contains as a subsequence finds nothing. */
  lemma NoSubsequenceNoResults(query: string)
    requires query != []
    requires forall c :: c in Commands ==> !Embeds(LowerStr(query), LowerStr(c.title))
    ensures Scored(Commands, LowerStr(query), MatchScore) == []
  {
    var lq := LowerStr(query);
    ScoredMembers(Commands, lq, MatchScore);
    forall c | c in Commands ensures MatchScore(lq, LowerStr(c.title)) == 0 {
      MatchScoreClosedForm(lq, LowerStr(c.title));
    }
    var s := Scored(Commands, lq, MatchScore);
    if s != [] {
      assert s[0] in s;
    }
  }
}

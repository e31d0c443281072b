/** The scan shared by both fuzzy matchers: a left-to-right pass over the text that advances a
    query cursor each time the current query character is met. Emb is the list of text positions
    that pass matches; Embeds is the independent notion "the query is a subsequence of the text". */
module Subsequence {

  /** The first position at or after s holding c, or |t| when there is none. */
  function NextMatch(t: string, c: char, s: nat): (j: nat)
    requires s <= |t|
    ensures s <= j <= |t|
    ensures j < |t| ==> t[j] == c
    ensures forall k :: s <= k < j ==> t[k] != c
    decreases |t| - s
  {
    if s == |t| || t[s] == c then s else NextMatch(t, c, s + 1)
  }

  predicate Increasing(ps: seq<nat>) {
    forall k :: 0 < k < |ps| ==> ps[k - 1] < ps[k]
  }

  /** ps places the characters of q, in order, at strictly increasing positions of t. */
  predicate IsEmbedding(ps: seq<nat>, q: string, t: string) {
    |ps| == |q| && Increasing(ps) && forall k :: 0 <= k < |ps| ==> ps[k] < |t| && t[ps[k]] == q[k]
  }

  /** q is a (not necessarily contiguous) subsequence of t. */
  ghost predicate Embeds(q: string, t: string) {
    exists ps :: IsEmbedding(ps, q, t)
  }

  /** The positions the greedy scan matches, starting at text position s. */
  function Emb(q: string, t: string, s: nat): (r: seq<nat>)
    requires s <= |t|
    ensures |r| <= |q|
    decreases |q|
  {
    if q == [] then []
    else
      var j := NextMatch(t, q[0], s);
      if j == |t| then [] else [j] + Emb(q[1..], t, j + 1)
  }

  /** The scan matches each query character at a later text position holding it. */
  lemma {:induction false} EmbValid(q: string, t: string, s: nat)
    requires s <= |t|
    ensures forall k :: 0 <= k < |Emb(q, t, s)| ==> s <= Emb(q, t, s)[k] < |t| && t[Emb(q, t, s)[k]] == q[k]
    ensures Increasing(Emb(q, t, s))
    decreases |q|
  {
    if q != [] {
      var j := NextMatch(t, q[0], s);
      if j < |t| {
        EmbValid(q[1..], t, j + 1);
      }
    }
  }

  /** One step of the scan at text position i: a match consumes the query character. */
  lemma EmbStep(q: string, t: string, i: nat)
    requires i < |t| && q != []
    ensures t[i] == q[0] ==> Emb(q, t, i) == [i] + Emb(q[1..], t, i + 1)
    ensures t[i] != q[0] ==> Emb(q, t, i) == Emb(q, t, i + 1)
  {
  }

  /** The same step, for the scan of the query suffix from qp on. */
  lemma EmbAdvance(q: string, t: string, qp: nat, i: nat)
    requires qp < |q| && i < |t|
    ensures t[i] == q[qp] ==> Emb(q[qp..], t, i) == [i] + Emb(q[qp + 1..], t, i + 1)
    ensures t[i] != q[qp] ==> Emb(q[qp..], t, i) == Emb(q[qp..], t, i + 1)
  {
    EmbStep(q[qp..], t, i);
    assert q[qp..][1..] == q[qp + 1..];
  }

  /** Nothing more is matched once the text is exhausted. */
  lemma EmbAtEnd(q: string, t: string)
    ensures Emb(q, t, |t|) == []
  {
  }

  /** The greedy scan is complete: if any embedding starting at or after s exists, it finds one. */
  lemma {:induction false} GreedyComplete(q: string, t: string, s: nat, ps: seq<nat>)
    requires s <= |t|
    requires IsEmbedding(ps, q, t)
    requires forall k :: 0 <= k < |ps| ==> s <= ps[k]
    ensures |Emb(q, t, s)| == |q|
    decreases |q|
  {
    if q != [] {
      var j := NextMatch(t, q[0], s);
      assert j <= ps[0];
      var rest := ps[1..];
      assert IsEmbedding(rest, q[1..], t) by {
        forall k | 0 < k < |rest| ensures rest[k - 1] < rest[k] {
          assert rest[k - 1] == ps[k] && rest[k] == ps[k + 1];
        }
      }
      forall k | 0 <= k < |rest| ensures j + 1 <= rest[k] {
        IncreasingFrom(ps, 0, k + 1);
      }
      GreedyComplete(q[1..], t, j + 1, rest);
    }
  }

  lemma {:induction false} IncreasingFrom(ps: seq<nat>, a: nat, b: nat)
    requires Increasing(ps) && a < b < |ps|
    ensures ps[a] < ps[b]
    decreases b - a
  {
    if a + 1 < b {
      IncreasingFrom(ps, a, b - 1);
    }
  }

  /** The scan reaches the end of the query exactly when the query is a subsequence of the text. */
  lemma GreedyMatchesIffEmbeds(q: string, t: string)
    ensures |Emb(q, t, 0)| == |q| <==> Embeds(q, t)
  {
    var e := Emb(q, t, 0);
    EmbValid(q, t, 0);
    if |e| == |q| {
      assert IsEmbedding(e, q, t);
    }
    if Embeds(q, t) {
      var ps :| IsEmbedding(ps, q, t);
      GreedyComplete(q, t, 0, ps);
    }
  }
}

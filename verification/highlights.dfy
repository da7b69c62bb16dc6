/** Highlight scoring: every transcript segment becomes a candidate clip whose
    score mixes word density, text length and a penalty for long segments; the
    candidates are then ordered by score, highest first, keeping the input
    order among equal scores. */
module Highlights {
  import opened Numeric
  import opened Text
  import opened Transcripts

  datatype Candidate = Candidate(start: real, end: real, caption: string, score: real)

  /** Default weights of word density, energy and the duration penalty. */
  const DefaultAlpha: real := 0.6
  const DefaultBeta: real := 0.3
  const DefaultGamma: real := 0.1

  /** Longest clip a candidate covers, in seconds. */
  const MaxClip: real := 90.0

  /** Segments longer than this are penalised, in proportion to the excess. */
  const PenaltyFree: real := 75.0

  /** Words per 40, capped at one; words are the whitespace-separated runs of `str.split()`. */
  function KeywordDensity(text: string): (d: real)
    ensures 0.0 <= d <= 1.0
    ensures |WordsBy(text, IsPySpace)| >= 40 <==> d == 1.0
  {
    Min(|WordsBy(text, IsPySpace)| as real / 40.0, 1.0)
  }

  /** Characters per 120, capped at one. */
  function Energy(text: string): (e: real)
    ensures 0.0 <= e <= 1.0
    ensures |text| >= 120 <==> e == 1.0
  {
    Min(|text| as real / 120.0, 1.0)
  }

  /** Relative excess of `duration` over 75 seconds, or zero. */
  function DurationPenalty(duration: real): (p: real)
    ensures p >= 0.0
    ensures p == 0.0 <==> duration <= PenaltyFree
  {
    Max(0.0, (duration - PenaltyFree) / PenaltyFree)
  }

  /** A segment's length for scoring: segments shorter than 0.01 s count as 0.01 s. */
  function ScoredDuration(seg: Segment): (d: real)
    ensures d >= 0.01
  {
    Max(seg.end - seg.start, 0.01)
  }

  /** The linear score `alpha * density + beta * energy - gamma * penalty`.
      With non-negative weights it lies between `-(gamma * penalty)` and
      `alpha + beta`. */
  function SegmentScore(seg: Segment, alpha: real, beta: real, gamma: real): (s: real)
    ensures alpha >= 0.0 && beta >= 0.0 && gamma >= 0.0 ==>
              -(gamma * DurationPenalty(ScoredDuration(seg))) <= s <= alpha + beta
    ensures alpha == DefaultAlpha && beta == DefaultBeta && gamma == DefaultGamma ==> s <= 0.9
  {
    var kd, e, p := KeywordDensity(seg.text), Energy(seg.text), DurationPenalty(ScoredDuration(seg));
    if alpha >= 0.0 && beta >= 0.0 && gamma >= 0.0 then
      WeightedBound(alpha, beta, gamma, kd, e, p);
      alpha * kd + beta * e - gamma * p
    else
      alpha * kd + beta * e - gamma * p
  }

  /** The candidate for one segment: its window starts with the segment and is
      cut to at most 90 seconds, its caption is the stripped text. */
  function ScoreSegment(seg: Segment, alpha: real, beta: real, gamma: real): (c: Candidate)
    ensures c.start == seg.start && c.caption == Strip(seg.text)
    ensures c.end <= seg.end && c.end - c.start <= MaxClip
    ensures c.end == seg.end || c.end - c.start == MaxClip
    ensures c.score == SegmentScore(seg, alpha, beta, gamma)
  {
    Candidate(seg.start, Min(seg.end, seg.start + MaxClip), Strip(seg.text), SegmentScore(seg, alpha, beta, gamma))
  }

  /** The weighted sum of two values in [0, 1] minus a non-negative penalty. */
  lemma WeightedBound(a: real, b: real, g: real, x: real, y: real, z: real)
    requires a >= 0.0 && b >= 0.0 && g >= 0.0
    requires 0.0 <= x <= 1.0 && 0.0 <= y <= 1.0 && z >= 0.0
    ensures a * x + b * y - g * z <= a + b
    ensures a * x + b * y - g * z >= -(g * z)
  {
    ScaledUnit(a, x);
    ScaledUnit(b, y);
    NonNegProduct(g, z);
    SumBounds(a * x, b * y, g * z, a, b);
  }

  lemma SumBounds(p: real, q: real, r: real, a: real, b: real)
    requires 0.0 <= p <= a && 0.0 <= q <= b && r >= 0.0
    ensures p + q - r <= a + b && p + q - r >= -r
  {
  }

  /** A non-negative weight times a value in [0, 1] lies in [0, weight]. */
  lemma ScaledUnit(a: real, x: real)
    requires a >= 0.0 && 0.0 <= x <= 1.0
    ensures 0.0 <= a * x <= a
  {
    assert a - a * x == a * (1.0 - x);
    NonNegProduct(a, 1.0 - x);
    NonNegProduct(a, x);
  }

  lemma NonNegProduct(a: real, b: real)
    requires a >= 0.0 && b >= 0.0
    ensures a * b >= 0.0
  {
  }

  // ---------------------------------------------------------------------------
  // Stable ordering by score, highest first

  /** Every candidate scores at least as high as the ones after it. */
  predicate SortedByScore(cs: seq<Candidate>) {
    forall i, j :: 0 <= i < j < |cs| ==> cs[i].score >= cs[j].score
  }

  /** The candidates with score `v`, in their order. */
  function WithScore(cs: seq<Candidate>, v: real): seq<Candidate> {
    if |cs| == 0 then []
    else WithScore(cs[..|cs| - 1], v) + (if cs[|cs| - 1].score == v then [cs[|cs| - 1]] else [])
  }

  /** Inserts `c` after every candidate scoring at least as high, and before
      the lower-scoring tail: an insertion step of a stable descending sort. */
  function InsertByScore(sorted: seq<Candidate>, c: Candidate): (r: seq<Candidate>)
    requires SortedByScore(sorted)
    ensures |r| == |sorted| + 1
    ensures forall i :: 0 <= i < |r| ==> r[i] == c || r[i] in sorted
    ensures SortedByScore(r)
  {
    if |sorted| == 0 then [c]
    else
      var last := sorted[|sorted| - 1];
      if last.score >= c.score then sorted + [c]
      else
        var init := sorted[..|sorted| - 1];
        var mid := InsertByScore(init, c);
        assert forall i :: 0 <= i < |mid| ==> mid[i].score >= last.score;
        mid + [last]
  }

  /** Insertion adds exactly `c` to the multiset of candidates. */
  lemma {:induction false} InsertByScorePermutes(sorted: seq<Candidate>, c: Candidate)
    requires SortedByScore(sorted)
    ensures multiset(InsertByScore(sorted, c)) == multiset(sorted) + multiset{c}
  {
    if |sorted| > 0 && sorted[|sorted| - 1].score < c.score {
      var init := sorted[..|sorted| - 1];
      assert sorted == init + [sorted[|sorted| - 1]];
      InsertByScorePermutes(init, c);
    }
  }

  /** Insertion is stable: among candidates of any one score, `c` comes last. */
  lemma {:induction false} InsertByScoreStable(sorted: seq<Candidate>, c: Candidate, v: real)
    requires SortedByScore(sorted)
    ensures WithScore(InsertByScore(sorted, c), v) == WithScore(sorted, v) + (if c.score == v then [c] else [])
  {
    if |sorted| == 0 {
      WithScoreAppend([], c, v);
      assert [] + [c] == [c];
    } else {
      var init := sorted[..|sorted| - 1];
      var last := sorted[|sorted| - 1];
      if last.score >= c.score {
        WithScoreAppend(sorted, c, v);
      } else {
        var mid := InsertByScore(init, c);
        InsertByScoreStable(init, c, v);
        assert InsertByScore(sorted, c) == mid + [last];
        assert sorted == init + [last];
        StableSwap(init, mid, last, c, v);
      }
    }
  }

  /** Moving a lower-scoring candidate behind `c` keeps every score's list. */
  lemma StableSwap(init: seq<Candidate>, mid: seq<Candidate>, last: Candidate, c: Candidate, v: real)
    requires WithScore(mid, v) == WithScore(init, v) + (if c.score == v then [c] else [])
    requires last.score < c.score
    ensures WithScore(mid + [last], v) == WithScore(init + [last], v) + (if c.score == v then [c] else [])
  {
    WithScoreAppend(mid, last, v);
    WithScoreAppend(init, last, v);
  }

  /** Appending one candidate appends it to its own score's list. */
  lemma WithScoreAppend(cs: seq<Candidate>, c: Candidate, v: real)
    ensures WithScore(cs + [c], v) == WithScore(cs, v) + (if c.score == v then [c] else [])
  {
    assert (cs + [c])[..|cs|] == cs;
  }

  /** Python's `list.sort(key=score, reverse=True)`: a stable sort, highest score first. */
  function SortByScore(cs: seq<Candidate>): (r: seq<Candidate>)
    ensures |r| == |cs|
    ensures forall i :: 0 <= i < |r| ==> r[i] in cs
    ensures SortedByScore(r)
  {
    if |cs| == 0 then []
    else
      var init := cs[..|cs| - 1];
      InsertByScore(SortByScore(init), cs[|cs| - 1])
  }

  /** The sort permutes its input. */
  lemma {:induction false} SortByScorePermutes(cs: seq<Candidate>)
    ensures multiset(SortByScore(cs)) == multiset(cs)
  {
    if |cs| > 0 {
      var init := cs[..|cs| - 1];
      assert cs == init + [cs[|cs| - 1]];
      SortByScorePermutes(init);
      InsertByScorePermutes(SortByScore(init), cs[|cs| - 1]);
    }
  }

  /** The sort is stable: the candidates of any one score keep their input order. */
  lemma {:induction false} SortByScoreStable(cs: seq<Candidate>, v: real)
    ensures WithScore(SortByScore(cs), v) == WithScore(cs, v)
  {
    if |cs| > 0 {
      var init := cs[..|cs| - 1];
      SortByScoreStable(init, v);
      InsertByScoreStable(SortByScore(init), cs[|cs| - 1], v);
    }
  }

  /** The candidate of every segment, in segment order. */
  function SegmentCandidates(segs: seq<Segment>, alpha: real, beta: real, gamma: real): (cs: seq<Candidate>)
    ensures |cs| == |segs|
  {
    seq(|segs|, i requires 0 <= i < |segs| => ScoreSegment(segs[i], alpha, beta, gamma))
  }

  /** Python's `score_candidates`: one candidate per segment, ordered by score,
      highest first. */
  function ScoreCandidates(segs: seq<Segment>, alpha: real, beta: real, gamma: real): (r: seq<Candidate>)
    ensures |r| == |segs|
    ensures SortedByScore(r)
    ensures forall k :: 0 <= k < |r| ==> exists i :: 0 <= i < |segs| && r[k] == ScoreSegment(segs[i], alpha, beta, gamma)
  {
    var r := SortByScore(SegmentCandidates(segs, alpha, beta, gamma));
    assert forall k :: 0 <= k < |r| ==> r[k] in SegmentCandidates(segs, alpha, beta, gamma);
    r
  }

  /** `score_candidates` reorders the per-segment candidates and nothing else:
      it is a permutation of them, and candidates with equal scores stay in
      segment order. */
  lemma ScoreCandidatesPermutesStably(segs: seq<Segment>, alpha: real, beta: real, gamma: real, v: real)
    ensures multiset(ScoreCandidates(segs, alpha, beta, gamma)) == multiset(SegmentCandidates(segs, alpha, beta, gamma))
    ensures WithScore(ScoreCandidates(segs, alpha, beta, gamma), v) == WithScore(SegmentCandidates(segs, alpha, beta, gamma), v)
  {
    SortByScorePermutes(SegmentCandidates(segs, alpha, beta, gamma));
    SortByScoreStable(SegmentCandidates(segs, alpha, beta, gamma), v);
  }

  /** An already ordered list is left unchanged by the sort. */
  lemma {:induction false} SortSorted(cs: seq<Candidate>)
    requires SortedByScore(cs)
    ensures SortByScore(cs) == cs
  {
    if |cs| > 0 {
      var init := cs[..|cs| - 1];
      SortSorted(init);
    }
  }
}

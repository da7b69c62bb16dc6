/** Fixed-length chunking of a media timeline and the snapping of chunk ends
    to nearby sentence ends. */
module Chunking {
  import opened Numeric
  import opened Text
  import opened Wrappers

  /** One "Part N" slice of the timeline. */
  datatype Chunk = Chunk(index: int, start: real, end: real, title: string)

  /** An approximate sentence: a time span and its text. */
  datatype Sentence = Sentence(start: real, end: real, text: string)

  /** Tolerance used when the caller gives none, in seconds. */
  const DefaultTolerance: real := 15.0

  /** The title of the chunk with 1-based index `index`. */
  function PartTitle(index: nat): string { "Part " + NatToDecimal(index) }

  /** Smallest integer not below `x`. */
  function Ceil(x: real): (r: int)
    ensures r as real - 1.0 < x <= r as real
  {
    -((-x).Floor)
  }

  lemma CeilUnique(x: real, n: int)
    requires (n - 1) as real < x <= n as real
    ensures Ceil(x) == n
  {
  }

  /** Each chunk ends where the next one starts. */
  ghost predicate Contiguous(cs: seq<Chunk>) {
    forall i :: 0 <= i < |cs| - 1 ==> cs[i].end == cs[i + 1].start
  }

  // ---------------------------------------------------------------------------
  // Fixed chunks

  /** Start of the `i`-th (0-based) chunk: `i` chunk lengths after zero,
      accumulated one chunk at a time as the source's loop does. */
  function Boundary(i: nat, target: real): real {
    if i == 0 then 0.0 else Boundary(i - 1, target) + target
  }

  /** The `i`-th (0-based) chunk of a fixed split with chunk length `target`. */
  function FixedChunk(i: nat, target: real, duration: real): Chunk {
    Chunk(i + 1, Boundary(i, target), Min(Boundary(i + 1, target), duration), PartTitle(i + 1))
  }

  /** Splits `[0, duration]` into chunks of `minutes * 60` seconds; the last
      chunk is cut at `duration`.  A non-positive duration yields the single
      chunk `Part 1` spanning `[0, duration]`.  The loop only terminates when
      the chunk length is positive, hence the precondition. */
  method GenerateFixedChunks(duration: real, minutes: int) returns (chunks: seq<Chunk>)
    requires duration <= 0.0 || minutes > 0
    ensures duration <= 0.0 ==> chunks == [Chunk(1, 0.0, duration, PartTitle(1))]
    ensures duration > 0.0 ==> |chunks| == Ceil(duration / (minutes * 60) as real)
    ensures duration > 0.0 ==> forall i :: 0 <= i < |chunks| ==>
              chunks[i] == FixedChunk(i, (minutes * 60) as real, duration)
    ensures |chunks| >= 1
    ensures chunks[0].start == 0.0
    ensures chunks[|chunks| - 1].end == duration
    ensures Contiguous(chunks)
    ensures forall i :: 0 <= i < |chunks| ==>
              chunks[i].index == i + 1 && chunks[i].title == PartTitle(i + 1)
    ensures duration > 0.0 ==> forall i :: 0 <= i < |chunks| ==>
              0.0 < chunks[i].end - chunks[i].start <= (minutes * 60) as real
    ensures forall i :: 0 <= i < |chunks| - 1 ==>
              chunks[i].end - chunks[i].start == (minutes * 60) as real
  {
    var target := (minutes * 60) as real;
    chunks := AccumulateChunks(duration, target);
    if |chunks| == 0 {
      assert PartTitle(1) == "Part 1";
      chunks := chunks + [Chunk(1, 0.0, duration, "Part 1")];
    } else {
      var n := |chunks|;
      BoundaryIsProduct(n - 1, target);
      BoundaryIsProduct(n, target);
      AtLeastQuotient(n, target, duration);
      FixedChunksShape(chunks, target, duration);
    }
  }

  /** The loop of `GenerateFixedChunks`: emits chunks of length `target` from
      zero while the running start is below `duration`, cutting the last one
      at `duration`. */
  method AccumulateChunks(duration: real, target: real) returns (chunks: seq<Chunk>)
    requires duration <= 0.0 || target > 0.0
    ensures duration <= 0.0 ==> chunks == []
    ensures duration > 0.0 ==> |chunks| >= 1
    ensures duration > 0.0 ==> Boundary(|chunks| - 1, target) < duration <= Boundary(|chunks|, target)
    ensures forall i :: 0 <= i < |chunks| ==> chunks[i] == FixedChunk(i, target, duration)
  {
    chunks := [];
    var start := 0.0;
    var index := 1;
    while start < duration
      invariant index == |chunks| + 1
      invariant |chunks| == 0 ==> start == 0.0
      invariant |chunks| > 0 ==> duration > 0.0 && start == chunks[|chunks| - 1].end
      invariant start < duration ==> start == Boundary(|chunks|, target)
      invariant |chunks| > 0 ==> Boundary(|chunks| - 1, target) < duration
      invariant |chunks| > 0 ==> duration <= Boundary(|chunks|, target) || start == Boundary(|chunks|, target)
      invariant start <= duration || |chunks| == 0
      invariant forall i :: 0 <= i < |chunks| ==> chunks[i] == FixedChunk(i, target, duration)
      decreases (if target > 0.0 then Ceil(duration / target) else 0) - |chunks|
    {
      StartBelowCeil(|chunks|, target, duration);
      var end := Min(start + target, duration);
      var title := PartTitle(index);
      chunks := chunks + [Chunk(index, start, end, title)];
      start := end;
      index := index + 1;
    }
  }

  /** A full fixed split is contiguous, starts at zero, and every chunk but
      the last has length `target`. */
  lemma FixedChunksShape(chunks: seq<Chunk>, target: real, duration: real)
    requires target > 0.0 && |chunks| >= 1
    requires forall i :: 0 <= i < |chunks| ==> chunks[i] == FixedChunk(i, target, duration)
    requires Boundary(|chunks| - 1, target) < duration
    ensures chunks[0].start == 0.0
    ensures Contiguous(chunks)
    ensures forall i :: 0 <= i < |chunks| ==> 0.0 < chunks[i].end - chunks[i].start <= target
    ensures forall i :: 0 <= i < |chunks| - 1 ==> chunks[i].end - chunks[i].start == target
  {
    var n := |chunks|;
    forall i | 0 <= i < n
      ensures Boundary(i, target) < duration
    {
      BoundaryMono(i, n - 1, target);
    }
  }

  /** Chunk starts grow with the index. */
  lemma {:induction false} BoundaryMono(i: nat, j: nat, target: real)
    requires target > 0.0 && i <= j
    ensures Boundary(i, target) <= Boundary(j, target)
    decreases j
  {
    if i < j {
      BoundaryMono(i, j - 1, target);
    }
  }

  /** The accumulated start equals the product `i * target`. */
  lemma {:induction false} BoundaryIsProduct(i: nat, target: real)
    ensures Boundary(i, target) == i as real * target
  {
    if i > 0 {
      BoundaryIsProduct(i - 1, target);
      assert (i - 1) as real * target + target == i as real * target;
    }
  }

  /** A chunk that starts before `duration` has an index below the chunk count. */
  lemma StartBelowCeil(k: nat, target: real, duration: real)
    requires target > 0.0
    requires Boundary(k, target) < duration
    ensures k < Ceil(duration / target)
  {
    BoundaryIsProduct(k, target);
    BelowQuotient(k, target, duration);
  }

  /** `k * t < d` puts `k` below the quotient `d / t`. */
  lemma BelowQuotient(k: int, t: real, d: real)
    requires t > 0.0
    requires k as real * t < d
    ensures k < Ceil(d / t)
  {
    var q := d / t;
    QuotientTimes(d, t);
    LessByPositive(k as real, q, t);
  }

  /** `d <= n * t` puts the quotient `d / t` at or below `n`. */
  lemma AtLeastQuotient(n: int, t: real, d: real)
    requires t > 0.0
    requires d <= n as real * t
    requires (n - 1) as real * t < d
    ensures Ceil(d / t) == n
  {
    var q := d / t;
    QuotientTimes(d, t);
    assert d == q * t;
    var m := (n - 1) as real;
    assert m * t < d;
    LessByPositive(q, n as real, t);
    LessByPositive(m, q, t);
    CeilUnique(q, n);
  }

  // ---------------------------------------------------------------------------
  // Snapping to sentence ends

  /** Distance between a sentence end and a chunk end. */
  function EndDistance(s: Sentence, end: real): real { Abs(s.end - end) }

  /** Sentence `s` is a snapping candidate for a chunk ending at `end`. */
  predicate WithinTolerance(s: Sentence, end: real, tolerance: real) {
    EndDistance(s, end) <= tolerance
  }

  /** `k` is the first candidate at minimal distance from `end`. */
  ghost predicate IsNearest(ss: seq<Sentence>, end: real, tolerance: real, k: int) {
    && 0 <= k < |ss|
    && WithinTolerance(ss[k], end, tolerance)
    && (forall j :: 0 <= j < |ss| && WithinTolerance(ss[j], end, tolerance) ==>
          EndDistance(ss[k], end) <= EndDistance(ss[j], end))
    && (forall j :: 0 <= j < k && WithinTolerance(ss[j], end, tolerance) ==>
          EndDistance(ss[k], end) < EndDistance(ss[j], end))
  }

  /** `snapped` is where a chunk end `end` goes: the end of the nearest
      candidate sentence, or `end` itself when no sentence is within tolerance. */
  ghost predicate IsSnap(ss: seq<Sentence>, end: real, tolerance: real, snapped: real) {
    || ((forall j :: 0 <= j < |ss| ==> !WithinTolerance(ss[j], end, tolerance)) && snapped == end)
    || (exists k :: IsNearest(ss, end, tolerance, k) && snapped == ss[k].end)
  }

  /** Python's `min(candidates, key=...)` over the sentences within tolerance:
      the first one whose end is closest to `end`, if any. */
  method NearestSentence(ss: seq<Sentence>, end: real, tolerance: real) returns (k: Option<nat>)
    ensures k.None? <==> forall j :: 0 <= j < |ss| ==> !WithinTolerance(ss[j], end, tolerance)
    ensures k.Some? ==> IsNearest(ss, end, tolerance, k.value)
  {
    k := None;
    var i := 0;
    while i < |ss|
      invariant 0 <= i <= |ss|
      invariant k.None? <==> forall j :: 0 <= j < i ==> !WithinTolerance(ss[j], end, tolerance)
      invariant k.Some? ==> k.value < i && WithinTolerance(ss[k.value], end, tolerance)
      invariant k.Some? ==> forall j :: 0 <= j < i && WithinTolerance(ss[j], end, tolerance) ==>
                  EndDistance(ss[k.value], end) <= EndDistance(ss[j], end)
      invariant k.Some? ==> forall j :: 0 <= j < k.value && WithinTolerance(ss[j], end, tolerance) ==>
                  EndDistance(ss[k.value], end) < EndDistance(ss[j], end)
    {
      if WithinTolerance(ss[i], end, tolerance) {
        if k.None? || EndDistance(ss[i], end) < EndDistance(ss[k.value], end) {
          k := Some(i);
        }
      }
      i := i + 1;
    }
  }

  /** Moves each chunk end to the nearest sentence end within `tolerance`,
      then makes every chunk after the first start where its predecessor now
      ends.  Indices and titles are kept. */
  method AlignChunksToSentences(chunks: seq<Chunk>, ss: seq<Sentence>, tolerance: real)
    returns (adjusted: seq<Chunk>)
    ensures |adjusted| == |chunks|
    ensures forall i :: 0 <= i < |chunks| ==>
              adjusted[i].index == chunks[i].index && adjusted[i].title == chunks[i].title
    ensures forall i :: 0 <= i < |chunks| ==> IsSnap(ss, chunks[i].end, tolerance, adjusted[i].end)
    ensures |chunks| > 0 ==> adjusted[0].start == chunks[0].start
    ensures Contiguous(adjusted)
  {
    adjusted := [];
    var i := 0;
    while i < |chunks|
      invariant 0 <= i <= |chunks|
      invariant |adjusted| == i
      invariant forall j :: 0 <= j < i ==>
                  adjusted[j].index == chunks[j].index && adjusted[j].title == chunks[j].title
                  && adjusted[j].start == chunks[j].start
                  && IsSnap(ss, chunks[j].end, tolerance, adjusted[j].end)
    {
      var chunk := chunks[i];
      var end := chunk.end;
      var chosen := NearestSentence(ss, end, tolerance);
      if chosen.Some? {
        end := ss[chosen.value].end;
      }
      adjusted := adjusted + [Chunk(chunk.index, chunk.start, end, chunk.title)];
      i := i + 1;
    }
    var ends := seq(|adjusted|, j requires 0 <= j < |adjusted| => adjusted[j].end);
    i := 1;
    while i < |adjusted|
      invariant 1 <= i || |adjusted| == 0
      invariant i <= |adjusted| || |adjusted| == 0
      invariant |adjusted| == |chunks|
      invariant forall j :: 0 <= j < |adjusted| ==>
                  adjusted[j].index == chunks[j].index && adjusted[j].title == chunks[j].title
                  && adjusted[j].end == ends[j]
      invariant |adjusted| > 0 ==> adjusted[0].start == chunks[0].start
      invariant forall j :: 0 < j < i && j < |adjusted| ==> adjusted[j].start == adjusted[j - 1].end
    {
      adjusted := adjusted[i := Chunk(adjusted[i].index, adjusted[i - 1].end, adjusted[i].end, adjusted[i].title)];
      i := i + 1;
    }
  }

  /** A snapped end is the original end or lies within `tolerance` of it. */
  lemma SnapWithinTolerance(ss: seq<Sentence>, end: real, tolerance: real, snapped: real)
    requires IsSnap(ss, end, tolerance, snapped)
    ensures snapped == end || Abs(snapped - end) <= tolerance
  {
  }
}

/** Chapter planning from a transcript: approximate sentences are derived by
    splitting each segment's text after sentence terminators, and the fixed
    "Part N" chunks of the timeline are optionally snapped to sentence ends. */
module Chapters {
  import opened Numeric
  import opened Text
  import opened Transcripts
  import opened Chunking

  datatype Chapter = Chapter(index: int, start: real, end: real, title: string)

  // ---------------------------------------------------------------------------
  // Sentence splitting: `re.split(r"(?<=[.!?]) +", text)`

  predicate IsTerminator(c: char) { c == '.' || c == '!' || c == '?' }

  predicate IsBlank(c: char) { c == ' ' }

  /** The pattern matches at position `i`: a run of spaces starts there and
      the character before it ends a sentence. */
  predicate SplitsAt(s: string, i: int) {
    1 <= i < |s| && IsTerminator(s[i - 1]) && IsBlank(s[i])
  }

  /** No position of `s` matches the pattern. */
  predicate NoSplitPoint(s: string) {
    forall i :: 0 <= i < |s| ==> !SplitsAt(s, i)
  }

  /** The first matching position at or after `i`, or `|s|`. */
  function FirstSplitFrom(s: string, i: nat): (k: nat)
    requires 1 <= i <= |s|
    ensures i <= k <= |s|
    ensures k < |s| ==> SplitsAt(s, k)
    ensures forall j :: i <= j < k ==> !SplitsAt(s, j)
    decreases |s| - i
  {
    if i == |s| then |s| else if SplitsAt(s, i) then i else FirstSplitFrom(s, i + 1)
  }

  /** The first matching position of `s`, or `|s|`. */
  function FirstSplit(s: string): (k: nat)
    ensures k <= |s|
    ensures k < |s| ==> SplitsAt(s, k)
    ensures forall j :: 0 <= j < k ==> !SplitsAt(s, j)
  {
    if |s| <= 1 then |s| else FirstSplitFrom(s, 1)
  }

  /** Interleaves parts with the separators that stood between them. */
  function Interleave(parts: seq<string>, seps: seq<string>): string
    requires |parts| == |seps| + 1
  {
    if |parts| == 1 then parts[0] else parts[0] + seps[0] + Interleave(parts[1..], seps[1..])
  }

  /** `re.split` with the sentence pattern, also returning the matched runs of spaces. */
  function SplitWithSeparators(s: string): (r: (seq<string>, seq<string>))
    ensures |r.0| == |r.1| + 1
    decreases |s|
  {
    var k := FirstSplit(s);
    if k >= |s| then
      ([s], [])
    else
      var j := k + LeadCount(s[k..], IsBlank);
      var rest := SplitWithSeparators(s[j..]);
      ([s[..k]] + rest.0, [s[k..j]] + rest.1)
  }

  /** `parts` and `seps` decompose `s` the way `re.split` with the sentence
      pattern does: interleaved they give back `s`, every separator is a
      non-empty run of spaces following a terminator, no part contains a match,
      and no part after the first starts with a space.  These conditions
      determine the decomposition uniquely. */
  ghost predicate IsSentenceSplit(s: string, parts: seq<string>, seps: seq<string>) {
    && |parts| == |seps| + 1
    && Interleave(parts, seps) == s
    && (forall k :: 0 <= k < |seps| ==> |seps[k]| >= 1 && forall i :: 0 <= i < |seps[k]| ==> IsBlank(seps[k][i]))
    && (forall k :: 0 <= k < |parts| ==> NoSplitPoint(parts[k]))
    && (forall k :: 0 <= k < |parts| - 1 ==> |parts[k]| >= 1 && IsTerminator(parts[k][|parts[k]| - 1]))
    && (forall k :: 1 <= k < |parts| ==> |parts[k]| == 0 || !IsBlank(parts[k][0]))
  }

  /** `SplitWithSeparators` produces the `re.split` decomposition. */
  lemma {:induction false} SplitWithSeparatorsIsSplit(s: string)
    ensures IsSentenceSplit(s, SplitWithSeparators(s).0, SplitWithSeparators(s).1)
    decreases |s|
  {
    var k := FirstSplit(s);
    if k < |s| {
      var j := k + LeadCount(s[k..], IsBlank);
      SplitStep(s, k, j);
      var rest := SplitWithSeparators(s[j..]);
      SplitWithSeparatorsIsSplit(s[j..]);
      SplitCons(s, s[..k], s[k..j], s[j..], rest.0, rest.1);
    }
  }

  /** At the first match, the text before it is a sentence with no match
      inside, the run of spaces is the separator, and the text after it does
      not start with a space. */
  lemma SplitStep(s: string, k: nat, j: nat)
    requires k == FirstSplit(s) && k < |s|
    requires j == k + LeadCount(s[k..], IsBlank)
    ensures k < j <= |s|
    ensures s == s[..k] + s[k..j] + s[j..]
    ensures NoSplitPoint(s[..k]) && |s[..k]| >= 1 && IsTerminator(s[..k][k - 1])
    ensures |s[k..j]| >= 1 && forall i :: 0 <= i < |s[k..j]| ==> IsBlank(s[k..j][i])
    ensures |s[j..]| == 0 || !IsBlank(s[j..][0])
  {
    assert NoSplitPoint(s[..k]) by {
      forall i | 0 <= i < |s[..k]| ensures !SplitsAt(s[..k], i) {
        assert !SplitsAt(s, i);
      }
    }
    assert s[k..][0] == s[k];
    var n := LeadCount(s[k..], IsBlank);
    forall i | 0 <= i < n ensures IsBlank(s[k..j][i]) {
      assert s[k..j][i] == s[k..][i];
    }
    if j < |s| {
      assert s[j..][0] == s[k..][n];
    }
  }

  /** Prepending one sentence and the spaces after it to a decomposition. */
  lemma SplitCons(s: string, p: string, sep: string, t: string, parts: seq<string>, seps: seq<string>)
    requires s == p + sep + t
    requires IsSentenceSplit(t, parts, seps)
    requires NoSplitPoint(p) && |p| >= 1 && IsTerminator(p[|p| - 1])
    requires |sep| >= 1 && forall i :: 0 <= i < |sep| ==> IsBlank(sep[i])
    requires |t| == 0 || !IsBlank(t[0])
    ensures IsSentenceSplit(s, [p] + parts, [sep] + seps)
  {
    var parts' := [p] + parts;
    var seps' := [sep] + seps;
    assert parts'[1..] == parts && seps'[1..] == seps;
    assert forall m :: 1 <= m < |parts'| ==> parts'[m] == parts[m - 1];
    assert forall m :: 1 <= m < |seps'| ==> seps'[m] == seps[m - 1];
  }

  /** The sentence pieces of a segment text: `re.split` on the stripped text. */
  function SplitSentences(text: string): (parts: seq<string>)
    ensures |parts| >= 1
    ensures forall k :: 0 <= k < |parts| ==> NoSplitPoint(parts[k])
  {
    SplitWithSeparatorsIsSplit(Strip(text));
    SplitWithSeparators(Strip(text)).0
  }

  /** The sentence pieces are exactly the `re.split` decomposition of the
      stripped text: interleaved with the blank runs they reassemble it. */
  lemma SplitSentencesIsSplit(text: string)
    ensures IsSentenceSplit(Strip(text), SplitSentences(text), SplitWithSeparators(Strip(text)).1)
  {
    SplitWithSeparatorsIsSplit(Strip(text));
  }

  // ---------------------------------------------------------------------------
  // Sentences of a transcript

  /** Length of one piece when a segment is divided evenly into `n` pieces;
      a segment shorter than 0.01 s is treated as 0.01 s long. */
  function PieceDuration(seg: Segment, n: nat): (d: real)
    requires n >= 1
    ensures d > 0.0
  {
    Max(seg.end - seg.start, 0.01) / n as real
  }

  /** Start of piece `i` of a segment cut into pieces of length `piece`. */
  function PieceStart(seg: Segment, piece: real, i: nat): real {
    seg.start + piece * i as real
  }

  /** The sentences of one segment: none for an empty text, otherwise one per
      piece of `SplitSentences`, with evenly spaced starts and ends clipped to
      the segment end. */
  function SegmentSentences(seg: Segment): (r: seq<Sentence>)
    ensures seg.text == [] ==> r == []
    ensures seg.text != [] ==> |r| == |SplitSentences(seg.text)|
    ensures forall i :: 0 <= i < |r| ==> r[i].text == Strip(SplitSentences(seg.text)[i])
    ensures forall i :: 0 <= i < |r| ==>
              r[i].start == PieceStart(seg, PieceDuration(seg, |r|), i) &&
              r[i].end == Min(seg.end, r[i].start + PieceDuration(seg, |r|))
  {
    if seg.text == [] then []
    else
      var parts := SplitSentences(seg.text);
      var n := |parts|;
      var piece := PieceDuration(seg, n);
      seq(n, i requires 0 <= i < n =>
        Sentence(PieceStart(seg, piece, i), Min(seg.end, PieceStart(seg, piece, i) + piece), Strip(parts[i])))
  }

  /** Within a segment, the first sentence starts at the segment start and
      later sentences start strictly later. */
  lemma SegmentSentencesIncrease(seg: Segment, i: nat, j: nat)
    requires i < j < |SegmentSentences(seg)|
    ensures SegmentSentences(seg)[0].start == seg.start
    ensures seg.start <= SegmentSentences(seg)[i].start < SegmentSentences(seg)[j].start
  {
    var n := |SplitSentences(seg.text)|;
    var piece := PieceDuration(seg, n);
    PieceStartsIncrease(seg, piece, 0, i);
    PieceStartsIncrease(seg, piece, i, j);
  }

  lemma PieceStartsIncrease(seg: Segment, piece: real, i: nat, j: nat)
    requires piece > 0.0 && i <= j
    ensures PieceStart(seg, piece, 0) == seg.start
    ensures i < j ==> PieceStart(seg, piece, i) < PieceStart(seg, piece, j)
    ensures PieceStart(seg, piece, i) <= PieceStart(seg, piece, j)
  {
    LessByPositive(i as real, j as real, piece);
    assert piece * i as real == i as real * piece;
    assert piece * j as real == j as real * piece;
  }

  /** Every sentence of a segment starts at or after the segment start. */
  lemma SegmentSentencesStartInside(seg: Segment, i: nat)
    requires i < |SegmentSentences(seg)|
    ensures seg.start <= SegmentSentences(seg)[i].start
  {
    var n := |SplitSentences(seg.text)|;
    PieceStartsIncrease(seg, PieceDuration(seg, n), 0, i);
  }

  /** Python's `derive_sentences`: the sentences of every segment, in segment order. */
  function DeriveSentences(segs: seq<Segment>): seq<Sentence> {
    FlatMap(segs, SegmentSentences)
  }

  /** Deriving sentences distributes over concatenation of segment lists, so
      sentences come out in segment order. */
  lemma DeriveSentencesAppend(a: seq<Segment>, b: seq<Segment>)
    ensures DeriveSentences(a + b) == DeriveSentences(a) + DeriveSentences(b)
  {
    FlatMapAppend(a, b, SegmentSentences);
  }

  /** Every derived sentence lies inside the segment `k` it came from: it
      starts no earlier and ends no later. */
  lemma DeriveSentencesWithinSegments(segs: seq<Segment>, m: nat) returns (k: nat)
    requires m < |DeriveSentences(segs)|
    ensures k < |segs|
    ensures segs[k].start <= DeriveSentences(segs)[m].start
    ensures DeriveSentences(segs)[m].end <= segs[k].end
  {
    var i;
    k, i := FlatMapIndex(segs, SegmentSentences, m);
    SentenceInsideSegment(segs[k], i);
  }

  /** A sentence of a segment lies inside that segment. */
  lemma SentenceInsideSegment(seg: Segment, i: nat)
    requires i < |SegmentSentences(seg)|
    ensures seg.start <= SegmentSentences(seg)[i].start
    ensures SegmentSentences(seg)[i].end <= seg.end
  {
    SegmentSentencesStartInside(seg, i);
  }

  /** Segments with empty text contribute no sentences. */
  lemma {:induction false} DeriveSentencesOfEmptyTexts(segs: seq<Segment>)
    requires forall k :: 0 <= k < |segs| ==> segs[k].text == []
    ensures DeriveSentences(segs) == []
  {
    if |segs| > 0 {
      DeriveSentencesOfEmptyTexts(segs[1..]);
    }
  }

  // ---------------------------------------------------------------------------
  // Chapters

  /** The timeline length used for planning: the last segment's end, or zero. */
  function PlanningDuration(t: Transcript): real {
    if |t.segments| > 0 then t.segments[|t.segments| - 1].end else 0.0
  }

  /** Number of fixed chunks for `duration` at `minutes` per chunk. */
  function FixedCount(duration: real, minutes: int): int
    requires duration <= 0.0 || minutes > 0
  {
    if duration <= 0.0 then 1 else Ceil(duration / (minutes * 60) as real)
  }

  function ToChapter(c: Chunk): Chapter { Chapter(c.index, c.start, c.end, c.title) }

  /** The chapter has the same fields as the chunk. */
  predicate SameFields(ch: Chapter, c: Chunk) {
    ch.index == c.index && ch.start == c.start && ch.end == c.end && ch.title == c.title
  }

  ghost predicate ChaptersContiguous(cs: seq<Chapter>) {
    forall i :: 0 <= i < |cs| - 1 ==> cs[i].end == cs[i + 1].start
  }

  /** Chunks turned into chapters field by field, keeping their order. */
  function ToChapters(chunks: seq<Chunk>): (r: seq<Chapter>)
    ensures |r| == |chunks|
    ensures forall i :: 0 <= i < |chunks| ==> SameFields(r[i], chunks[i])
    ensures Contiguous(chunks) ==> ChaptersContiguous(r)
  {
    seq(|chunks|, i requires 0 <= i < |chunks| => ToChapter(chunks[i]))
  }

  /** What an aligned plan is: as many chapters as fixed chunks, numbered and
      titled like them, starting at zero, contiguous, each end snapped from the
      matching fixed chunk end to the transcript's sentence ends. */
  ghost predicate IsAlignedPlan(t: Transcript, minutes: int, chapters: seq<Chapter>)
    requires PlanningDuration(t) <= 0.0 || minutes > 0
  {
    var duration := PlanningDuration(t);
    && |chapters| == FixedCount(duration, minutes)
    && chapters[0].start == 0.0
    && ChaptersContiguous(chapters)
    && (forall i :: 0 <= i < |chapters| ==>
          chapters[i].index == i + 1 && chapters[i].title == PartTitle(i + 1))
    && (duration > 0.0 ==> forall i :: 0 <= i < |chapters| ==>
          IsSnap(DeriveSentences(t.segments), FixedChunk(i, (minutes * 60) as real, duration).end,
                 DefaultTolerance, chapters[i].end))
    && (duration <= 0.0 ==> IsSnap(DeriveSentences(t.segments), duration, DefaultTolerance, chapters[0].end))
  }

  /** Python's `build_chapters`: fixed chunks over the planning duration,
      snapped to sentence ends when `alignSentences` is set and the transcript
      is non-empty. */
  method BuildChapters(t: Transcript, minutes: int, alignSentences: bool)
    returns (chapters: seq<Chapter>)
    requires PlanningDuration(t) <= 0.0 || minutes > 0
    ensures |chapters| == FixedCount(PlanningDuration(t), minutes)
    ensures chapters[0].start == 0.0
    ensures ChaptersContiguous(chapters)
    ensures forall i :: 0 <= i < |chapters| ==>
              chapters[i].index == i + 1 && chapters[i].title == PartTitle(i + 1)
    ensures |t.segments| == 0 ==> chapters == [Chapter(1, 0.0, 0.0, PartTitle(1))]
    ensures !alignSentences && PlanningDuration(t) <= 0.0 ==>
              chapters == [Chapter(1, 0.0, PlanningDuration(t), PartTitle(1))]
    ensures !alignSentences && PlanningDuration(t) > 0.0 ==>
              forall i :: 0 <= i < |chapters| ==>
                SameFields(chapters[i], FixedChunk(i, (minutes * 60) as real, PlanningDuration(t)))
    ensures alignSentences && |t.segments| > 0 ==> IsAlignedPlan(t, minutes, chapters)
  {
    var duration := PlanningDuration(t);
    var chunks := GenerateFixedChunks(duration, minutes);
    if alignSentences && |t.segments| > 0 {
      var sentences := DeriveSentences(t.segments);
      var fixed := chunks;
      chunks := AlignChunksToSentences(chunks, sentences, DefaultTolerance);
      assert forall i :: 0 <= i < |chunks| ==> IsSnap(sentences, fixed[i].end, DefaultTolerance, chunks[i].end);
    }
    chapters := ToChapters(chunks);
  }
}

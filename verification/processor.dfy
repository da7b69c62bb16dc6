/** The demo web server's stand-in pipeline: it cuts pasted text into timed
    transcript segments, picks the first segments as highlights and writes
    SubRip (SRT) captions.

    JavaScript strings are sequences of UTF-16 code units, so `.length` and
    `.slice` count code units; the model keeps them as such. */
module DemoProcessor {
  import opened Numeric
  import opened Text
  import Timecode

  newtype CodeUnit = x: int | 0 <= x < 0x10000

  type JsString = seq<CodeUnit>

  const Newline: CodeUnit := 0x0a
  const Space: CodeUnit := 0x20

  /** A character as one code unit; the model only converts ASCII text
      (digits, punctuation, fixed labels), for which this is exact. */
  function Unit(c: char): (u: CodeUnit)
    ensures u == Newline <==> c == '\n'
  {
    if c as int < 0x10000 then c as int as CodeUnit else 0xFFFD
  }

  function Units(s: string): (r: JsString)
    ensures |r| == |s|
    ensures forall i :: 0 <= i < |s| ==> r[i] == Unit(s[i])
  {
    seq(|s|, i requires 0 <= i < |s| => Unit(s[i]))
  }

  lemma UnitsAppend(a: string, b: string)
    ensures Units(a + b) == Units(a) + Units(b)
  {
  }

  lemma UnitsOnOneLine(s: string)
    requires '\n' !in s
    ensures Newline !in Units(s)
  {
  }

  /** JavaScript's `\s`: the code units a regular-expression whitespace class
      matches. */
  predicate IsJsSpace(u: CodeUnit) {
    (0x09 <= u <= 0x0d) || u == 0x20 || u == 0xa0 || u == 0x1680 || (0x2000 <= u <= 0x200a)
    || u == 0x2028 || u == 0x2029 || u == 0x202f || u == 0x205f || u == 0x3000 || u == 0xfeff
  }

  datatype JsSegment = JsSegment(start: real, end: real, text: JsString)

  // ---------------------------------------------------------------------------
  // `formatTimestamp`

  /** `Math.floor(seconds / 3600)`. */
  function JsHours(x: real): int { (x / 3600.0).Floor }

  /** `Math.floor((seconds % 3600) / 60)` with JavaScript's truncating `%`. */
  function JsMinutes(x: real): int { (JsRem(x, 3600.0) / 60.0).Floor }

  /** `Math.floor(seconds % 60)`. */
  function JsSeconds(x: real): int { JsRem(x, 60.0).Floor }

  /** `Math.floor((seconds % 1) * 1000)`: the fraction in milliseconds, cut. */
  function JsMillis(x: real): int { (JsRem(x, 1.0) * 1000.0).Floor }

  /** `String(value).padStart(size, "0")`: zeros go in front of a minus sign too. */
  function Pad(value: int, size: nat): string {
    ZeroPad(IntToDecimal(value), size)
  }

  /** `formatTimestamp`: `HH:MM:SS,mmm`. */
  function FormatTimestamp(x: real): string {
    Timecode.Clock(Pad(JsHours(x), 2), Pad(JsMinutes(x), 2), Pad(JsSeconds(x), 2), Pad(JsMillis(x), 3))
  }

  /** A padded non-negative value is formatted as Python's zero-padded field. */
  lemma PadNat(n: nat, size: nat)
    ensures Pad(n, size) == PyFormatInt(n, size)
  {
  }

  /** For a non-negative time the hour, minute and second fields agree with
      the Python timestamp's, minutes and seconds lie in [0, 59], they add up
      to the whole seconds, and the milliseconds lie in [0, 999]. */
  lemma TimestampFieldsBounded(x: real)
    requires x >= 0.0
    ensures JsHours(x) == Timecode.Hours(x) && JsHours(x) >= 0
    ensures JsMinutes(x) == Timecode.Minutes(x) && 0 <= JsMinutes(x) <= 59
    ensures JsSeconds(x) == Timecode.Seconds(x) && 0 <= JsSeconds(x) <= 59
    ensures JsHours(x) * 3600 + JsMinutes(x) * 60 + JsSeconds(x) == x.Floor
    ensures 0 <= JsMillis(x) <= 999
  {
    Timecode.ClockFieldsSum(x);
    var f := JsRem(x, 1.0);
    assert 0.0 <= f < 1.0;
    assert f * 1000.0 < 1000.0;
  }

  /** For a non-negative time the JavaScript and Python timestamps differ only
      in the milliseconds, which JavaScript cuts and Python rounds: on whole
      seconds they are the same text. */
  lemma WholeSecondsMatchPython(x: real)
    requires x >= 0.0 && x == x.Floor as real
    ensures FormatTimestamp(x) == Timecode.SrtTimestamp(x)
  {
    TimestampFieldsBounded(x);
    assert JsRem(x, 1.0) == 0.0;
    assert JsMillis(x) == 0;
    assert Trunc(x) as real == x;
    assert Timecode.Millis(x) == 0;
    PadNat(JsHours(x), 2);
    PadNat(JsMinutes(x), 2);
    PadNat(JsSeconds(x), 2);
    PadNat(0, 3);
  }

  predicate IsNumeral(c: char) { IsDigit(c) || c == '-' }

  /** Every character of a padded value is a digit or the minus sign. */
  lemma PadChars(value: int, size: nat)
    ensures forall i :: 0 <= i < |Pad(value, size)| ==> IsNumeral(Pad(value, size)[i])
    ensures '\n' !in Pad(value, size)
  {
    DecimalChars(value);
    ZeroPadChars(IntToDecimal(value), size);
  }

  lemma DecimalChars(value: int)
    ensures forall i :: 0 <= i < |IntToDecimal(value)| ==> IsNumeral(IntToDecimal(value)[i])
  {
    if value < 0 {
      var d := NatToDecimal(-value);
      forall i | 0 < i < |IntToDecimal(value)| ensures IsNumeral(IntToDecimal(value)[i]) {
        assert IntToDecimal(value)[i] == d[i - 1];
      }
    }
  }

  lemma ZeroPadChars(d: string, size: nat)
    requires forall i :: 0 <= i < |d| ==> IsNumeral(d[i])
    ensures forall i :: 0 <= i < |ZeroPad(d, size)| ==> IsNumeral(ZeroPad(d, size)[i])
  {
    var z := ZeroPad(d, size);
    forall i | |z| - |d| <= i < |z| ensures IsNumeral(z[i]) {
      assert z[i] == z[|z| - |d|..][i - (|z| - |d|)];
    }
  }

  /** A timestamp, for any time, has no line break. */
  lemma TimestampOnOneLine(x: real)
    ensures '\n' !in FormatTimestamp(x)
  {
    PadChars(JsHours(x), 2);
    PadChars(JsMinutes(x), 2);
    PadChars(JsSeconds(x), 2);
    PadChars(JsMillis(x), 3);
    Timecode.ClockOnOneLine(Pad(JsHours(x), 2), Pad(JsMinutes(x), 2), Pad(JsSeconds(x), 2), Pad(JsMillis(x), 3));
  }

  // ---------------------------------------------------------------------------
  // `segmentsToSrt`

  /** The time line of a block: `start --> end`. */
  function TimeLine(seg: JsSegment): JsString {
    Units(FormatTimestamp(seg.start) + " --> " + FormatTimestamp(seg.end))
  }

  /** One SRT block: its number, its time line and its text, each followed by
      a line break. */
  function SrtBlock(index: nat, seg: JsSegment): JsString {
    Units(NatToDecimal(index + 1)) + [Newline] + TimeLine(seg) + [Newline] + seg.text + [Newline]
  }

  /** `segmentsToSrt`: the blocks joined by line breaks, so a blank line
      separates consecutive blocks. */
  function SegmentsToSrt(segs: seq<JsSegment>): JsString {
    Join(seq(|segs|, i requires 0 <= i < |segs| => SrtBlock(i, segs[i])), [Newline])
  }

  /** The four lines a block contributes: number, times, text, and the blank
      line that follows. */
  function BlockLines(index: nat, seg: JsSegment): seq<JsString> {
    [Units(NatToDecimal(index + 1)), TimeLine(seg), seg.text, []]
  }

  /** The blocks' line groups, one per segment. */
  function Groups(segs: seq<JsSegment>): (r: seq<seq<JsString>>)
    ensures |r| == |segs|
    ensures forall k :: 0 <= k < |segs| ==> r[k] == BlockLines(k, segs[k])
  {
    seq(|segs|, k requires 0 <= k < |segs| => BlockLines(k, segs[k]))
  }

  /** The lines of all blocks, in order. */
  function SrtLines(segs: seq<JsSegment>): seq<JsString> {
    Flatten(Groups(segs))
  }

  lemma BlockIsJoin(index: nat, seg: JsSegment)
    ensures SrtBlock(index, seg) == Join(BlockLines(index, seg), [Newline])
  {
    var num, times := Units(NatToDecimal(index + 1)), TimeLine(seg);
    JoinFour(num, times, seg.text, [], [Newline]);
    assert num + [Newline] + times + [Newline] + seg.text + [Newline] + [] ==
           num + [Newline] + times + [Newline] + seg.text + [Newline];
  }

  /** No line of a block holds a line break when the text holds none. */
  lemma BlockLinesOnOneLine(index: nat, seg: JsSegment)
    requires Newline !in seg.text
    ensures forall j :: 0 <= j < 4 ==> Newline !in BlockLines(index, seg)[j]
  {
    TimeLineOnOneLine(seg);
    UnitsOnOneLine(NatToDecimal(index + 1));
  }

  lemma TimeLineOnOneLine(seg: JsSegment)
    ensures Newline !in TimeLine(seg)
  {
    TimestampOnOneLine(seg.start);
    TimestampOnOneLine(seg.end);
    ArrowOnOneLine(FormatTimestamp(seg.start), FormatTimestamp(seg.end));
  }

  lemma ArrowOnOneLine(a: string, b: string)
    requires '\n' !in a && '\n' !in b
    ensures Newline !in Units(a + " --> " + b)
  {
    assert '\n' !in " --> ";
    UnitsOnOneLine(a + " --> " + b);
  }

  /** Read line by line, the captions are, for each segment in order, its
      number counted from one, its time line, its text and a blank line. */
  lemma SrtReadsBack(segs: seq<JsSegment>, k: nat)
    requires forall j :: 0 <= j < |segs| ==> Newline !in segs[j].text
    requires k < |segs|
    ensures |SplitOn(SegmentsToSrt(segs), Newline)| == 4 * |segs|
    ensures SplitOn(SegmentsToSrt(segs), Newline)[4 * k..4 * k + 4] ==
            [Units(NatToDecimal(k + 1)), TimeLine(segs[k]), segs[k].text, []]
  {
    var lines := SrtLines(segs);
    assert |lines| == 4 * |segs| && lines[4 * k..4 * k + 4] == BlockLines(k, segs[k]) by {
      FlattenLength(Groups(segs), 4);
      FlattenAt(Groups(segs), 4, k);
    }
    SrtSplitsToLines(segs);
  }

  lemma SrtSplitsToLines(segs: seq<JsSegment>)
    requires forall j :: 0 <= j < |segs| ==> Newline !in segs[j].text
    requires |segs| > 0
    ensures SplitOn(SegmentsToSrt(segs), Newline) == SrtLines(segs)
  {
    var blocks := seq(|segs|, k requires 0 <= k < |segs| => SrtBlock(k, segs[k]));
    var groups := Groups(segs);
    forall j | 0 <= j < |segs| ensures |groups[j]| >= 1 && blocks[j] == Join(groups[j], [Newline]) {
      BlockIsJoin(j, segs[j]);
    }
    forall k, i | 0 <= k < |groups| && 0 <= i < |groups[k]| ensures Newline !in groups[k][i] {
      BlockLinesOnOneLine(k, segs[k]);
    }
    SplitJoinOfJoins(blocks, groups, Newline);
  }

  /** No segments give no captions at all. */
  lemma SrtOfNothing()
    ensures SegmentsToSrt([]) == []
  {
  }

  // ---------------------------------------------------------------------------
  // `buildTranscriptFromText`

  /** Words per transcript segment. */
  const WordsPerSegment: nat := 8
  /** Pause, in seconds, between one segment's end and the next one's start. */
  const Gap: real := 0.5

  /** `text.split(/\s+/).filter(Boolean)`: the maximal runs of non-space code
      units. */
  function SplitWords(text: JsString): (ws: seq<JsString>)
    ensures forall j :: 0 <= j < |ws| ==> IsWord(ws[j], IsJsSpace)
  {
    WordsBy(text, IsJsSpace)
  }

  /** `2.4 + (chunk.length % 3) * 0.4`: one of three durations, picked by the
      length of the chunk. */
  function SegmentDuration(chunk: JsString): (d: real)
    ensures |chunk| % 3 == 0 ==> d == 2.4
    ensures |chunk| % 3 == 1 ==> d == 2.8
    ensures |chunk| % 3 == 2 ==> d == 3.2
  {
    2.4 + (|chunk| % 3) as real * 0.4
  }

  /** Where the chunk starting at word `i` stops: eight words later, or at the
      end of the list. */
  function ChunkEnd(n: nat, i: nat): (e: nat)
    requires i < n
    ensures i < e <= n && e - i <= WordsPerSegment
    ensures e < n ==> e == i + WordsPerSegment
  {
    if i + WordsPerSegment <= n then i + WordsPerSegment else n
  }

  /** `words.slice(i, i + 8).join(" ")`. */
  function Chunk(words: seq<JsString>, i: nat): JsString
    requires i < |words|
  {
    Join(words[i..ChunkEnd(|words|, i)], [Space])
  }

  /** The loop of `buildTranscriptFromText` from word `i` on, with the clock at
      `cursor`: one segment per chunk of eight words, each starting at the
      cursor and lasting its duration, the cursor then moving half a second
      past its end. */
  function SegmentsFrom(words: seq<JsString>, i: nat, cursor: real): (r: seq<JsSegment>)
    ensures |r| == (if i < |words| then (|words| - i + 7) / 8 else 0)
    ensures |r| > 0 ==> r[0].start == cursor
    decreases |words| - i
  {
    if i >= |words| then []
    else
      var chunk := Chunk(words, i);
      var end := cursor + SegmentDuration(chunk);
      [JsSegment(cursor, end, chunk)] + SegmentsFrom(words, i + WordsPerSegment, end + Gap)
  }

  /** Segment `k` holds the chunk starting at word `i + 8k`, lasts its
      duration, and starts half a second after segment `k - 1` ends. */
  lemma {:induction false} SegmentAt(words: seq<JsString>, i: nat, cursor: real, k: nat)
    requires k < |SegmentsFrom(words, i, cursor)|
    ensures var r := SegmentsFrom(words, i, cursor);
      i + 8 * k < |words| && r[k].text == Chunk(words, i + 8 * k) &&
      r[k].end == r[k].start + SegmentDuration(r[k].text) &&
      (k > 0 ==> r[k].start == r[k - 1].end + Gap)
    decreases k
  {
    var r := SegmentsFrom(words, i, cursor);
    if k > 0 {
      var end := cursor + SegmentDuration(Chunk(words, i));
      var rest := SegmentsFrom(words, i + WordsPerSegment, end + Gap);
      assert r == [r[0]] + rest;
      SegmentAt(words, i + WordsPerSegment, end + Gap, k - 1);
      assert r[k] == rest[k - 1];
    }
  }

  /** `buildTranscriptFromText`. */
  function BuildTranscriptFromText(text: JsString): seq<JsSegment> {
    SegmentsFrom(SplitWords(text), 0, 0.0)
  }

  /** One segment per started group of eight words. */
  lemma TranscriptCount(text: JsString)
    ensures |BuildTranscriptFromText(text)| == (|SplitWords(text)| + 7) / 8
  {
  }

  /** The first segment starts at zero, each later one half a second after its
      predecessor ends, and every segment lasts 2.4, 2.8 or 3.2 seconds. */
  lemma TranscriptTiming(text: JsString, k: nat)
    requires k < |BuildTranscriptFromText(text)|
    ensures var r := BuildTranscriptFromText(text);
      r[0].start == 0.0 &&
      (k > 0 ==> r[k].start == r[k - 1].end + Gap) &&
      (r[k].end - r[k].start == 2.4 || r[k].end - r[k].start == 2.8 || r[k].end - r[k].start == 3.2) &&
      r[k].start < r[k].end
  {
    SegmentAt(SplitWords(text), 0, 0.0, k);
  }

  /** Segment `k` reads back as words `8k` up to `8k + 8` of the text. */
  lemma TranscriptSegmentWords(text: JsString, k: nat)
    requires k < |BuildTranscriptFromText(text)|
    ensures var words := SplitWords(text);
      8 * k < |words| &&
      SplitWords(BuildTranscriptFromText(text)[k].text) == words[8 * k..ChunkEnd(|words|, 8 * k)]
  {
    var words := SplitWords(text);
    SegmentAt(words, 0, 0.0, k);
    var group := words[8 * k..ChunkEnd(|words|, 8 * k)];
    assert forall j :: 0 <= j < |group| ==> group[j] == words[8 * k + j];
    WordsOfJoin(group, Space, IsJsSpace);
  }

  /** The words of each chunk, in the order the loop takes them. */
  function ChunkGroups(words: seq<JsString>, i: nat): (r: seq<seq<JsString>>)
    ensures |r| == (if i < |words| then (|words| - i + 7) / 8 else 0)
    decreases |words| - i
  {
    if i >= |words| then [] else [words[i..ChunkEnd(|words|, i)]] + ChunkGroups(words, i + WordsPerSegment)
  }

  /** Group `k` holds words `i + 8k` up to `i + 8k + 8`. */
  lemma {:induction false} ChunkGroupAt(words: seq<JsString>, i: nat, k: nat)
    requires k < |ChunkGroups(words, i)|
    ensures i + 8 * k < |words|
    ensures ChunkGroups(words, i)[k] == words[i + 8 * k..ChunkEnd(|words|, i + 8 * k)]
    decreases k
  {
    if k > 0 {
      ChunkGroupAt(words, i + WordsPerSegment, k - 1);
    }
  }

  /** The groups, back to back, are the words from `i` on. */
  lemma {:induction false} ChunkGroupsCover(words: seq<JsString>, i: nat)
    requires i <= |words|
    ensures Flatten(ChunkGroups(words, i)) == words[i..]
    decreases |words| - i
  {
    if i < |words| {
      var e := ChunkEnd(|words|, i);
      if e < |words| {
        ChunkGroupsCover(words, e);
      } else {
        assert ChunkGroups(words, i + WordsPerSegment) == [];
      }
      assert words[i..] == words[i..e] + words[e..];
    }
  }

  /** The segments' words, read back in order, are the words of the text. */
  lemma TranscriptKeepsWords(text: JsString)
    ensures var r := BuildTranscriptFromText(text);
      Flatten(seq(|r|, k requires 0 <= k < |r| => SplitWords(r[k].text))) == SplitWords(text)
  {
    var words := SplitWords(text);
    var r := BuildTranscriptFromText(text);
    var read := seq(|r|, k requires 0 <= k < |r| => SplitWords(r[k].text));
    var groups := ChunkGroups(words, 0);
    forall k | 0 <= k < |r| ensures read[k] == groups[k] {
      TranscriptSegmentWords(text, k);
      ChunkGroupAt(words, 0, k);
    }
    assert read == groups;
    ChunkGroupsCover(words, 0);
    assert words[0..] == words;
  }

  /** Text made only of whitespace gives no segments, and any other text at
      least one. */
  lemma BlankTranscript(text: JsString)
    ensures BuildTranscriptFromText(text) == [] <==> forall i :: 0 <= i < |text| ==> IsJsSpace(text[i])
  {
    if forall i :: 0 <= i < |text| ==> IsJsSpace(text[i]) {
      WordsOfBlank(text, IsJsSpace);
    } else {
      var i :| 0 <= i < |text| && !IsJsSpace(text[i]);
      WordsCoverInput(text, IsJsSpace);
      RemoveSpacesKeeps(text, i, IsJsSpace);
    }
  }

  // ---------------------------------------------------------------------------
  // `buildHighlights`

  datatype JsHighlight = JsHighlight(id: JsString, start: real, end: real, summary: JsString)

  /** Highlights kept from the start of the transcript. */
  const HighlightCount: nat := 3
  /** Longest summary, in code units. */
  const SummaryLength: nat := 80

  /** `highlight-{index + 1}`. */
  function HighlightId(index: nat): JsString {
    Units("highlight-" + NatToDecimal(index + 1))
  }

  /** `text.slice(0, 80)`. */
  function Summary(text: JsString): (r: JsString)
    ensures |r| == (if |text| <= SummaryLength then |text| else SummaryLength)
    ensures r <= text
  {
    if |text| <= SummaryLength then text else text[..SummaryLength]
  }

  /** `buildHighlights`: the first three segments, in order, keeping their
      times, numbered from one and summarised by their first 80 code units. */
  function BuildHighlights(segs: seq<JsSegment>): (r: seq<JsHighlight>)
    ensures |r| == (if |segs| <= HighlightCount then |segs| else HighlightCount)
    ensures forall i :: 0 <= i < |r| ==>
              r[i].id == HighlightId(i) && r[i].start == segs[i].start && r[i].end == segs[i].end &&
              r[i].summary == Summary(segs[i].text)
  {
    var first := if |segs| <= HighlightCount then segs else segs[..HighlightCount];
    seq(|first|, i requires 0 <= i < |first| =>
      JsHighlight(HighlightId(i), first[i].start, first[i].end, Summary(first[i].text)))
  }

  /** Segments after the third never show: appending segments to a list of
      three or more leaves the highlights unchanged. */
  lemma HighlightsIgnoreLaterSegments(segs: seq<JsSegment>, more: seq<JsSegment>)
    requires |segs| >= HighlightCount
    ensures BuildHighlights(segs + more) == BuildHighlights(segs)
  {
    var a, b := BuildHighlights(segs + more), BuildHighlights(segs);
    assert forall i :: 0 <= i < |b| ==> (segs + more)[i] == segs[i];
    assert forall i :: 0 <= i < |b| ==> a[i] == b[i];
  }

  /** Different positions get different ids. */
  lemma HighlightIdsDistinct(i: nat, j: nat)
    requires i != j
    ensures HighlightId(i) != HighlightId(j)
  {
    var a, b := NatToDecimal(i + 1), NatToDecimal(j + 1);
    UnitsAppend("highlight-", a);
    UnitsAppend("highlight-", b);
    var p := Units("highlight-");
    assert HighlightId(i)[|p|..] == Units(a);
    assert HighlightId(j)[|p|..] == Units(b);
    if Units(a) == Units(b) {
      UnitsInjective(a, b);
      DecimalRoundTrip(i + 1);
      DecimalRoundTrip(j + 1);
    }
  }

  /** Strings of digits convert to the same code units only when equal. */
  lemma UnitsInjective(a: string, b: string)
    requires AllDigits(a) && AllDigits(b)
    requires Units(a) == Units(b)
    ensures a == b
  {
    assert |a| == |b|;
    forall k | 0 <= k < |a| ensures a[k] == b[k] {
      assert Unit(a[k]) == Unit(b[k]);
    }
  }
}

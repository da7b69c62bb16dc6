/** The summary: one bullet per chapter start, quoting the transcript segment
    playing at that moment, rendered as Markdown with a call to action. */
module Summaries {
  import opened Wrappers
  import opened Text
  import opened Transcripts
  import opened Timecode

  datatype SummaryBullet = SummaryBullet(timecode: real, text: string)

  const Fallback: string := "Chapter overview"
  const Header: string := "## Summary"
  const CtaHeading: string := "## Call to Action"
  /** The call to action starts with a line break, so it leaves a blank line. */
  const CallToAction: string := "\n" + CtaHeading
  const Subscribe: string := "- Subscribe for more local-first creator workflows!"

  /** The segment is playing at time `t` (both ends included). */
  predicate Covers(seg: Segment, t: real) { seg.start <= t <= seg.end }

  /** The first segment playing at `t`, as Python's `next(...)` finds it. */
  function FirstCovering(segs: seq<Segment>, t: real): (r: Option<nat>)
    ensures r.None? <==> forall k :: 0 <= k < |segs| ==> !Covers(segs[k], t)
    ensures r.Some? ==> r.value < |segs| && Covers(segs[r.value], t)
    ensures r.Some? ==> forall k :: 0 <= k < r.value ==> !Covers(segs[k], t)
  {
    if |segs| == 0 then None
    else if Covers(segs[0], t) then Some(0)
    else
      match FirstCovering(segs[1..], t)
      case None => None
      case Some(k) => Some(k + 1)
  }

  /** The stripped text of the first segment playing at `t`, or the fallback
      when no segment plays or its text is blank. */
  function BulletText(segs: seq<Segment>, t: real): string {
    match FirstCovering(segs, t)
    case None => Fallback
    case Some(k) => if Strip(segs[k].text) == [] then Fallback else Strip(segs[k].text)
  }

  /** The bullet text is the fallback exactly when no segment covers `t` or
      the first covering segment's text is all whitespace; otherwise it is
      that text without surrounding whitespace. */
  lemma BulletTextMeaning(segs: seq<Segment>, t: real)
    ensures (forall k :: 0 <= k < |segs| ==> !Covers(segs[k], t)) ==> BulletText(segs, t) == Fallback
    ensures forall k :: 0 <= k < |segs| && Covers(segs[k], t) && (forall j :: 0 <= j < k ==> !Covers(segs[j], t)) ==>
              BulletText(segs, t) == (if Strip(segs[k].text) == [] then Fallback else Strip(segs[k].text))
    ensures BulletText(segs, t) != []
  {
    match FirstCovering(segs, t)
    case None =>
    case Some(k) =>
      forall k' | 0 <= k' < |segs| && Covers(segs[k'], t) && (forall j :: 0 <= j < k' ==> !Covers(segs[j], t))
        ensures k' == k
      {
        assert !(k' < k) && !(k < k');
      }
  }

  /** `build_summary`: one bullet per chapter start, in order. */
  function BuildSummary(t: Transcript, starts: seq<real>): (r: seq<SummaryBullet>)
    ensures |r| == |starts|
    ensures forall i :: 0 <= i < |r| ==> r[i].timecode == starts[i] && r[i].text != []
    ensures forall i :: 0 <= i < |r| ==> r[i].text == BulletText(t.segments, starts[i])
  {
    seq(|starts|, i requires 0 <= i < |starts| =>
      BulletTextMeaning(t.segments, starts[i]);
      SummaryBullet(starts[i], BulletText(t.segments, starts[i])))
  }

  /** One Markdown line `- [HH:MM:SS,mmm] text`. */
  function BulletLine(b: SummaryBullet): string {
    "- [" + SrtTimestamp(b.timecode) + "] " + b.text
  }

  function BulletLines(bullets: seq<SummaryBullet>): (lines: seq<string>)
    ensures |lines| == |bullets|
  {
    seq(|bullets|, i requires 0 <= i < |bullets| => BulletLine(bullets[i]))
  }

  /** `render_summary_md`: the header, the bullet lines and the call to
      action, joined by line breaks. */
  function RenderSummaryMd(bullets: seq<SummaryBullet>): string {
    Join([Header] + BulletLines(bullets) + [CallToAction, Subscribe], "\n")
  }

  /** A bullet line stays on one line when its text does. */
  lemma BulletLineOnOneLine(b: SummaryBullet)
    requires '\n' !in b.text
    ensures '\n' !in BulletLine(b)
  {
    TimestampOnOneLine(b.timecode);
    assert '\n' !in "- [" && '\n' !in "] ";
  }

  lemma BulletLinesOnOneLine(bullets: seq<SummaryBullet>)
    requires forall i :: 0 <= i < |bullets| ==> '\n' !in bullets[i].text
    ensures forall i :: 0 <= i < |bullets| ==> '\n' !in BulletLines(bullets)[i]
  {
    forall i | 0 <= i < |bullets| ensures '\n' !in BulletLines(bullets)[i] {
      BulletLineOnOneLine(bullets[i]);
    }
  }

  lemma FixedLinesOnOneLine()
    ensures '\n' !in Header && '\n' !in CtaHeading && '\n' !in Subscribe
  {
    assert '\n' !in Header;
    assert '\n' !in CtaHeading;
    SubscribeOnOneLine();
  }

  /** The subscribe line is too long for the solver to scan at once, so it is
      read as two halves. */
  lemma SubscribeOnOneLine()
    ensures '\n' !in Subscribe
  {
    var head, tail := Subscribe[..25], Subscribe[25..];
    assert Subscribe == head + tail;
    assert head == "- Subscribe for more loca";
    assert tail == "l-first creator workflows!";
  }

  /** Read line by line, the rendered Markdown is the header, one line per
      bullet in order, a blank line, the call-to-action heading and the
      subscribe line, provided no bullet text contains a line break. */
  lemma RenderedLines(bullets: seq<SummaryBullet>)
    requires forall i :: 0 <= i < |bullets| ==> '\n' !in bullets[i].text
    ensures SplitOn(RenderSummaryMd(bullets), '\n') ==
            [Header] + BulletLines(bullets) + ["", CtaHeading, Subscribe]
  {
    var bl := BulletLines(bullets);
    var front := [Header] + bl;
    var lines := front + ["", CtaHeading, Subscribe];
    JoinLeadingSeparator(front, CtaHeading, Subscribe, "\n");
    FixedLinesOnOneLine();
    BulletLinesOnOneLine(bullets);
    forall i | 0 <= i < |lines| ensures '\n' !in lines[i] {
      if 1 <= i <= |bl| {
        assert lines[i] == bl[i - 1];
      }
    }
    SplitJoin(lines, '\n');
  }

  /** Without bullets only the header and the call to action remain. */
  lemma RenderEmpty()
    ensures RenderSummaryMd([]) == Header + "\n" + CallToAction + "\n" + Subscribe
  {
    var parts := [Header] + BulletLines([]) + [CallToAction, Subscribe];
    assert parts == [Header, CallToAction, Subscribe];
    assert Join(parts[1..], "\n") == CallToAction + "\n" + Subscribe by {
      assert parts[1..][1..] == [Subscribe];
    }
  }
}

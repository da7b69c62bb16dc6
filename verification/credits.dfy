/** Credits: an attribution line for an asset whose license asks for one, and
    the Markdown credits page listing those lines. */
module Credits {
  import opened Wrappers
  import opened Text

  /** What a license probe tells the credits builder: the license's display
      name, its URL and whether it demands attribution. */
  datatype LicenseProbe = LicenseProbe(name: string, url: string, attributionRequired: bool)

  datatype CreditLine = CreditLine(title: string, creator: string, licenseName: string, licenseUrl: string)

  const CreditsTitle: string := "# Credits"
  /** The page header, the title and its line break. */
  const CreditsHeader: string := CreditsTitle + "\n"
  /** The body used when no line is rendered. */
  const NoAttribution: string := "- No attribution required."

  /** `CreditLine.render`: `- {title} by {creator} ({license_name}) {license_url}`. */
  function Render(line: CreditLine): string {
    "- " + line.title + " by " + line.creator + " (" + line.licenseName + ") " + line.licenseUrl
  }

  /** A rendered line is never empty: it starts with the bullet marker. */
  lemma RenderStartsWithBullet(line: CreditLine)
    ensures |Render(line)| >= 2 && Render(line)[..2] == "- "
    ensures |Render(line)| == 10 + |line.title| + |line.creator| + |line.licenseName| + |line.licenseUrl|
  {
  }

  /** A line whose fields hold no line break renders on one line. */
  lemma RenderOnOneLine(line: CreditLine)
    requires '\n' !in line.title && '\n' !in line.creator
    requires '\n' !in line.licenseName && '\n' !in line.licenseUrl
    ensures '\n' !in Render(line)
  {
    assert '\n' !in "- " && '\n' !in " by " && '\n' !in " (" && '\n' !in ") ";
  }

  /** `build_credits`: one line naming the asset and its license when the
      license demands attribution, none otherwise.  The description is not
      used. */
  function BuildCredits(title: string, creator: string, probe: LicenseProbe, description: Option<string>)
    : (r: seq<CreditLine>)
    ensures probe.attributionRequired <==> |r| == 1
    ensures !probe.attributionRequired <==> r == []
    ensures forall i :: 0 <= i < |r| ==>
              r[i].title == title && r[i].creator == creator &&
              r[i].licenseName == probe.name && r[i].licenseUrl == probe.url
  {
    if probe.attributionRequired then [CreditLine(title, creator, probe.name, probe.url)] else []
  }

  /** The description never changes the credits. */
  lemma BuildCreditsIgnoresDescription(title: string, creator: string, probe: LicenseProbe, d1: Option<string>, d2: Option<string>)
    ensures BuildCredits(title, creator, probe, d1) == BuildCredits(title, creator, probe, d2)
  {
  }

  function RenderAll(lines: seq<CreditLine>): (r: seq<string>)
    ensures |r| == |lines|
    ensures forall i :: 0 <= i < |lines| ==> r[i] == Render(lines[i])
  {
    seq(|lines|, i requires 0 <= i < |lines| => Render(lines[i]))
  }

  /** `render_credits`: the header, then the rendered lines joined by line
      breaks (or the no-attribution note when that join is empty), then a final
      line break. */
  function RenderCredits(lines: seq<CreditLine>): (r: string)
    ensures |r| > |CreditsHeader| && r[..|CreditsHeader|] == CreditsHeader
    ensures r[|r| - 1] == '\n'
  {
    var joined := Join(RenderAll(lines), "\n");
    var body := if joined == [] then NoAttribution else joined;
    CreditsHeader + body + "\n"
  }

  /** The join of the rendered lines is empty exactly when there are no lines,
      so the note appears exactly for an empty list. */
  lemma BodyEmptyIffNoLines(lines: seq<CreditLine>)
    ensures Join(RenderAll(lines), "\n") == [] <==> lines == []
  {
    if |lines| > 0 {
      RenderStartsWithBullet(lines[0]);
      JoinStartsWithFirst(RenderAll(lines), "\n");
    }
  }

  /** The lines of the page: the title, the note or one line per credit in
      order, and the empty remainder after the final line break. */
  function PageLines(lines: seq<CreditLine>): seq<string> {
    [CreditsTitle] + (if lines == [] then [NoAttribution] else RenderAll(lines)) + [""]
  }

  /** Read line by line, the page is its title, then the note or the credits in
      order, provided no field holds a line break. */
  lemma RenderCreditsLines(lines: seq<CreditLine>)
    requires forall i :: 0 <= i < |lines| ==>
               '\n' !in lines[i].title && '\n' !in lines[i].creator &&
               '\n' !in lines[i].licenseName && '\n' !in lines[i].licenseUrl
    ensures SplitOn(RenderCredits(lines), '\n') == PageLines(lines)
  {
    BodyEmptyIffNoLines(lines);
    var body := if lines == [] then [NoAttribution] else RenderAll(lines);
    assert Join(body, "\n") == (if lines == [] then NoAttribution else Join(RenderAll(lines), "\n"));
    assert RenderCredits(lines) == CreditsTitle + "\n" + Join(body, "\n") + "\n";
    JoinConcat([CreditsTitle], body, "\n");
    JoinConcat([CreditsTitle] + body, [""], "\n");
    assert Join([""], "\n") == "";
    FixedLinesOnOneLine();
    forall i | 0 <= i < |body| ensures '\n' !in body[i] {
      if lines != [] {
        RenderOnOneLine(lines[i]);
      }
    }
    var parts := PageLines(lines);
    assert parts == [CreditsTitle] + body + [""];
    forall i | 0 <= i < |parts| ensures '\n' !in parts[i] {
      if 1 <= i <= |body| {
        assert parts[i] == body[i - 1];
      }
    }
    var jb := Join(body, "\n");
    assert Join([CreditsTitle] + body, "\n") == CreditsTitle + "\n" + jb;
    assert Join(parts, "\n") == CreditsTitle + "\n" + jb + "\n" + "";
    assert CreditsTitle + "\n" + jb + "\n" + "" == CreditsTitle + "\n" + jb + "\n";
    SplitJoin(parts, '\n');
  }

  lemma FixedLinesOnOneLine()
    ensures '\n' !in CreditsTitle && '\n' !in NoAttribution
  {
    assert '\n' !in NoAttribution;
  }
}

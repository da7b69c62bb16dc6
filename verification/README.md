# CreatorPack planning core, in Dafny

This project models the pure planning and validation logic of CreatorPack, a
local-first tool that turns a video and its transcript into a publishing
bundle. It also models the transcript, highlight and subtitle builders of the
tool's demo web server. The modelled parts are:

- the **chapter planner**. It cuts a duration into fixed "Part N" chunks. It
  splits transcript segments into sentence pieces. It snaps each chunk end to
  the nearest sentence end within 15 seconds, then re-links the chunk starts
  (`Chunking`, `Chapters`);
- the **license gate**. It normalises a license code, refuses `-sa`, `-nc` and
  `-nd` codes, and accepts exactly the seven allow-listed codes (`LicenseGate`);
- the **highlight scorer**. It gives each segment a clamped linear score, clips
  its window to 90 seconds, and sorts stably by descending score (`Highlights`);
- the **deterministic job id**. It sorts the inputs by `(kind, value)`, builds a
  canonical payload and hashes it (`JobId`, over `JsonValues`);
- the smaller helpers:
  - summary bullets and their Markdown (`Summaries`);
  - SRT timestamps and running totals (`Timecode`);
  - `slugify` (`Slugs`);
  - thumbnail times (`Thumbnails`);
  - credits (`Credits`);
  - the fallback JSON-schema checker (`SchemaCheck`);
- the demo server's `formatTimestamp`, `segmentsToSrt`, `buildTranscriptFromText`
  and `buildHighlights` (`DemoProcessor`).

The supporting modules are:

- `Wrappers`: `Option`, `Result`, `Outcome`;
- `Numeric`: floor, ceiling, Python's and JavaScript's remainders, and
  half-even rounding on reals;
- `Text`: Python's `strip`, `split`, `join` and `lower`, whitespace words, and
  decimal formatting, with their algebra;
- `SortedJson`: Python's string order, and the key sorting that
  `json.dumps(..., sort_keys=True)` applies to every object;
- `Transcripts`: the transcript segment and transcript records of
  `creatorpack/app_cli/stt/transcribe.py`.

Times and scores are Dafny `real`s. Python strings are `seq<char>`. The demo
server's JavaScript strings are sequences of UTF-16 code units, so `.length` and
`.slice(0, 80)` are exact.

Three points about the code are easy to miss, and the model follows them:

- There are no chapter or highlight policy records (padding, top-k, minimum
  lengths). Chunks have a fixed length of `minutes * 60`, highlights are the
  scored segments, and the snap tolerance is the default 15 seconds.
- With sentence alignment on, the last chunk end is snapped as well, so the
  last chapter need not end at the duration. The model states that every end,
  the last included, is the snap of the matching fixed end.
- On equal distances, `min` keeps the earliest sentence. The model states
  this tie-break explicitly.

## Model

| member | source | states |
|---|---|---|
| Timecode.Minutes | creatorpack/app_cli/util/timecode.py:10 | the minutes field, Python's `(seconds % 3600) // 60`, always lies in [0, 59] |
| Timecode.Seconds | creatorpack/app_cli/util/timecode.py:11 | the seconds field, Python's `seconds % 60` truncated, always lies in [0, 59] |
| Timecode.Millis | creatorpack/app_cli/util/timecode.py:12 | the milliseconds, the half-even rounding of the fraction times 1000, lie in [0, 1000] for non-negative input and in [-1000, 0] for non-positive input |
| Timecode.SrtTimestamp | creatorpack/app_cli/util/timecode.py:7-13 | no ensures of its own: `Timecode.TimestampFields` states its layout and field values, `Timecode.TimestampOnOneLine` that it holds no line break, and `Timecode.MillisCanReachThousand` its four-digit case |
| Timecode.ClockFieldsSum | creatorpack/app_cli/util/timecode.py:9-11 | hours * 3600 + minutes * 60 + seconds is the whole number of seconds |
| Timecode.MillisCanReachThousand | creatorpack/app_cli/util/timecode.py:12-13 | 0.9996 s rounds to 1000 ms and prints as `00:00:00,1000`, so a four-digit millisecond field is possible |
| Timecode.TimestampFields | creatorpack/app_cli/util/timecode.py:7-13 | for non-negative input the text is `hh:mm:ss,mmm`: digit fields of widths ≥2, 2, 2 and 3–4, whose values give back the whole seconds and the milliseconds |
| Timecode.TimestampOnOneLine | creatorpack/app_cli/util/timecode.py:13 | a timestamp never holds a line break |
| Timecode.CumulativeSum | creatorpack/app_cli/util/timecode.py:16-23 | same length as the input; entry i is the sum of the first i + 1 values, and each entry adds its value to the previous entry; the totals never decrease when the values are non-negative |
| Timecode.RunningTotalsGrow | creatorpack/app_cli/util/timecode.py:20-22 | running totals of non-negative values are ordered like their indices |
| Slugs.Slugify | creatorpack/app_cli/util/io.py:29-34 | the slug is non-empty, made of lower-case ASCII letters, digits and `-`, holds no `--`, and neither starts nor ends with `-` |
| Slugs.CollapseLoopSqueezes | creatorpack/app_cli/util/io.py:32-33 | the replace-until-stable loop equals squeezing every run of dashes to one dash |
| Slugs.SlugifyBySqueeze | creatorpack/app_cli/util/io.py:29-34 | the slug is the dash-stripped squeeze of the cleaned, stripped input, or `asset` when that is empty |
| Slugs.SlugifyKeepsAlnums | creatorpack/app_cli/util/io.py:29-34 | the letters and digits of the stripped input reappear lower-cased and in order; with none, the result is `asset` |
| Slugs.SlugifyIdempotent | creatorpack/app_cli/util/io.py:29-34 | slugifying a slug gives it back |
| Thumbnails.SelectThumbnailFrames | creatorpack/app_cli/media/thumbnails.py:17-22 | a non-positive duration or count gives `[0.0]`; otherwise there are exactly `count` times |
| Thumbnails.FrameFraction | creatorpack/app_cli/media/thumbnails.py:21-22 | time i is duration * (i + 1) / (count + 1) |
| Thumbnails.FramesIncrease | creatorpack/app_cli/media/thumbnails.py:21-22 | the times strictly increase |
| Thumbnails.FramesInside | creatorpack/app_cli/media/thumbnails.py:21-22 | every time lies strictly between 0 and the duration |
| Thumbnails.FramesEvenlySpaced | creatorpack/app_cli/media/thumbnails.py:21-22 | consecutive gaps, and the gap from the last time to the end, all equal the first time |
| Thumbnails.FramesEndGap | creatorpack/app_cli/media/thumbnails.py:21-22 | for any positive count, including one thumbnail, the gap from the last time to the end equals the first time |
| Thumbnails.FramesSymmetric | creatorpack/app_cli/media/thumbnails.py:21-22 | time i and time count - 1 - i add up to the duration |
| Thumbnails.DefaultFramesExample | creatorpack/app_cli/media/thumbnails.py:17-22 | 100 s with the default count gives 25, 50 and 75 |
| Chunking.GenerateFixedChunks | creatorpack/app_cli/media/chunking.py:18-32 | a non-positive duration gives the single chunk `(1, 0, duration, "Part 1")`; otherwise the count is the ceiling of duration / (minutes * 60), the first chunk starts at 0, the last ends at the duration, chunks are contiguous, every chunk is at most minutes * 60 long and all but the last exactly that, and chunk i is numbered i + 1 and titled `Part i+1` |
| Chunking.AccumulateChunks | creatorpack/app_cli/media/chunking.py:22-29 | the loop stops at the first chunk boundary at or past the duration, and chunk i spans boundary i to the smaller of boundary i + 1 and the duration |
| Chunking.FixedChunksShape | creatorpack/app_cli/media/chunking.py:24-28 | the fixed chunks start at 0, are contiguous and non-empty, are at most one target long, and are exactly one target long except the last |
| Chunking.NearestSentence | creatorpack/app_cli/media/chunking.py:47-50 | no choice exactly when no sentence end lies within the tolerance; otherwise the chosen end is within the tolerance, no other candidate is nearer, and no earlier candidate is as near |
| Chunking.AlignChunksToSentences | creatorpack/app_cli/media/chunking.py:35-59 | same number of chunks, each keeping its index and title; each end is its old end or the nearest sentence end within the tolerance; the first start is kept and every later start is the previous end |
| Chunking.SnapWithinTolerance | creatorpack/app_cli/media/chunking.py:47-50 | a snapped end is the old end or lies within the tolerance of it |
| Chapters.SplitWithSeparatorsIsSplit | creatorpack/app_cli/nlp/chapters.py:12 | the split pieces and the removed separators interleave back to the text; each separator is a non-empty run of spaces; the pieces hold no split point; every piece but the last ends with `.`, `!` or `?`; and no later piece starts with a space |
| Chapters.SplitWithSeparators | creatorpack/app_cli/nlp/chapters.py:31 | `re.split` with the pattern of line 12: one more piece than separators; `Chapters.SplitWithSeparatorsIsSplit` characterises the pieces and separators exactly |
| Chapters.SplitSentences | creatorpack/app_cli/nlp/chapters.py:31 | the split of the stripped text has at least one piece, and no piece holds a split point |
| Chapters.SplitSentencesIsSplit | creatorpack/app_cli/nlp/chapters.py:31 | the pieces, interleaved with the blank runs that follow sentence punctuation, reassemble the stripped text exactly; every separator is a non-empty blank run and no piece holds a split point |
| Chapters.SegmentSentences | creatorpack/app_cli/nlp/chapters.py:29-40 | a segment with empty text gives nothing; otherwise one sentence per piece, with the stripped piece as text; piece i starts at the segment start plus i piece durations and ends at the earlier of the segment end and its start plus one piece duration |
| Chapters.SegmentSentencesIncrease | creatorpack/app_cli/nlp/chapters.py:34-36 | the first piece starts at the segment start, and the piece starts strictly increase |
| Chapters.SentenceInsideSegment | creatorpack/app_cli/nlp/chapters.py:36-39 | every piece starts no earlier than its segment and ends no later than it |
| Chapters.DeriveSentences | creatorpack/app_cli/nlp/chapters.py:25-41 | no ensures of its own: the sentences of every segment in turn; `Chapters.DeriveSentencesAppend`, `Chapters.DeriveSentencesWithinSegments` and `Chapters.DeriveSentencesOfEmptyTexts` state its meaning |
| Chapters.DeriveSentencesAppend | creatorpack/app_cli/nlp/chapters.py:25-41 | the sentences of two segment lists joined are the sentences of each, in order |
| Chapters.DeriveSentencesWithinSegments | creatorpack/app_cli/nlp/chapters.py:28-40 | every derived sentence lies inside some segment |
| Chapters.DeriveSentencesOfEmptyTexts | creatorpack/app_cli/nlp/chapters.py:29-30 | segments that all have empty text give no sentences |
| Chapters.ToChapters | creatorpack/app_cli/nlp/chapters.py:55 | one chapter per chunk, with the same fields, and contiguous when the chunks are |
| Chapters.BuildChapters | creatorpack/app_cli/nlp/chapters.py:44-55 | the count is the fixed chunk count over the last segment's end (0 for an empty transcript, which gives `[0, 0] Part 1`); chapters start at 0, are contiguous, and are numbered and titled in order; without alignment they equal the fixed chunks field for field; with alignment and a non-empty transcript every end is the snap of the matching fixed end to the derived sentence ends, and for a non-positive duration the single end is the snap of that duration |
| Highlights.KeywordDensity | creatorpack/app_cli/nlp/highlights.py:36 | the density lies in [0, 1] and is 1 exactly when the text has at least 40 words |
| Highlights.Energy | creatorpack/app_cli/nlp/highlights.py:37 | the energy lies in [0, 1] and is 1 exactly when the text has at least 120 characters |
| Highlights.DurationPenalty | creatorpack/app_cli/nlp/highlights.py:38 | the penalty is non-negative and is 0 exactly when the duration is at most 75 s |
| Highlights.ScoredDuration | creatorpack/app_cli/nlp/highlights.py:35 | the scored duration is at least 0.01 s |
| Highlights.SegmentScore | creatorpack/app_cli/nlp/highlights.py:20-39 | with non-negative weights the score is at most alpha + beta, and at most 0.9 with the default weights |
| Highlights.ScoreSegment | creatorpack/app_cli/nlp/highlights.py:40-46 | the candidate starts with the segment and carries the stripped text and the score; it ends at the segment end or 90 s after its start, whichever comes first |
| Highlights.InsertByScore | creatorpack/app_cli/nlp/highlights.py:48 | inserting into a descending list keeps it descending and adds exactly the new candidate |
| Highlights.InsertByScoreStable | creatorpack/app_cli/nlp/highlights.py:48 | the inserted candidate goes after every candidate of equal score |
| Highlights.SortByScore | creatorpack/app_cli/nlp/highlights.py:48 | the sorted list has the same length, draws from the input, and has non-increasing scores |
| Highlights.SortByScorePermutes | creatorpack/app_cli/nlp/highlights.py:48 | the sort is a permutation of its input |
| Highlights.SortByScoreStable | creatorpack/app_cli/nlp/highlights.py:48 | candidates of any one score keep their input order |
| Highlights.SortSorted | creatorpack/app_cli/nlp/highlights.py:48 | sorting an already sorted list leaves it unchanged |
| Highlights.ScoreCandidates | creatorpack/app_cli/nlp/highlights.py:25-49 | one candidate per segment, in non-increasing score order, each the scoring of some segment |
| Highlights.ScoreCandidatesPermutesStably | creatorpack/app_cli/nlp/highlights.py:34-48 | the output is a permutation of the per-segment candidates, and equal scores keep segment order |
| SortedJson.StrLeTotal | creatorpack/app_cli/util/job.py:26 | Python's string order compares any two strings |
| SortedJson.StrLeTransitive | creatorpack/app_cli/util/job.py:26 | Python's string order is transitive |
| JobId.InputLeAntisymmetric | creatorpack/app_cli/util/job.py:26 | inputs equal under the `(kind, value)` order are equal |
| JobId.SortInputs | creatorpack/app_cli/util/job.py:26 | the sorted inputs are ordered by `(kind, value)` and are a permutation of the inputs |
| JobId.SortedUnique | creatorpack/app_cli/util/job.py:26 | two sorted permutations of the same inputs are equal |
| JobId.SortInputsOrderIndependent | creatorpack/app_cli/util/job.py:26 | permuting the inputs does not change the sorted list |
| JobId.InputFingerprint | creatorpack/app_cli/util/job.py:40-50 | a local input whose path is missing is an error; otherwise the fingerprint is an object recording the input's kind |
| JobId.RemoteFingerprint | creatorpack/app_cli/util/job.py:41-42 | a non-local input's fingerprint is exactly its kind and value, whatever the file system holds |
| JobId.LocalFingerprint | creatorpack/app_cli/util/job.py:43-50 | a local input's fingerprint records the resolved path, mtime and size, and changes exactly when that file's metadata changes |
| JobId.PathFingerprint | creatorpack/app_cli/util/job.py:53-58 | no brand path gives `null`; a missing path is an error |
| JobId.PathFingerprintFaithful | creatorpack/app_cli/util/job.py:53-58 | a present path gives an object that changes exactly when the file's metadata changes |
| JobId.Fingerprints | creatorpack/app_cli/util/job.py:26 | the list succeeds exactly when every input's fingerprint does, and it is those fingerprints in order |
| JobId.Payload | creatorpack/app_cli/util/job.py:25-35 | the payload exists exactly when every sorted input and the brand path can be fingerprinted |
| JobId.PayloadRecordsParameters | creatorpack/app_cli/util/job.py:25-35 | equal payloads mean equal parameters, field by field, with brand paths naming files of equal metadata, and equal input fingerprints |
| JobId.ComputeJobId | creatorpack/app_cli/util/job.py:12-37 | the id is `job-` followed by the first 12 hex digits of the digest of the payload with every object's keys sorted, so it is 16 characters long; it fails exactly when the payload does |
| SortedJson.SortKeys | creatorpack/app_cli/util/job.py:36 | `sort_keys=True` keeps the kind of every value and the length of every array and object, and puts each object's keys in Python's string order |
| SortedJson.SortMembers | creatorpack/app_cli/util/job.py:36 | an object's sorted members are key-ordered and a permutation of its members |
| SortedJson.OrderedUnique | creatorpack/app_cli/util/job.py:36 | two key-ordered permutations of the same members, where a key names one member only, are equal |
| SortedJson.SortKeysMemberOrder | creatorpack/app_cli/util/job.py:36 | two objects holding the same members with distinct keys serialise alike, whatever their member order |
| JobId.JobIdIgnoresConfigOrder | creatorpack/app_cli/util/job.py:30-36 | reordering the keys of the highlight configuration never changes the id |
| JobId.JobIdOrderIndependent | creatorpack/app_cli/util/job.py:26-37 | permuting the inputs never changes the id |
| LicenseGate.NormalizeCode | creatorpack/app_cli/ingest/license_gate.py:56 | the normal form holds no upper-case letter and neither starts nor ends with whitespace |
| LicenseGate.NormalizeIdempotent | creatorpack/app_cli/ingest/license_gate.py:56 | normalising twice is normalising once |
| LicenseGate.Lookup | creatorpack/app_cli/ingest/license_gate.py:60-66 | no result exactly when no table row has the code; otherwise the flag of a row with that code |
| LicenseGate.LookupMatchesPolicy | creatorpack/app_cli/ingest/license_gate.py:10-18 | the table holds exactly the seven accepted codes, and flags attribution for exactly cc-by, cc-by-4.0, cc-by-3.0 and iodl-2.0 |
| LicenseGate.AcceptedCodeShape | creatorpack/app_cli/ingest/license_gate.py:10-18 | no accepted code contains `nc` or `nd` or ends with a refused suffix |
| LicenseGate.EnsureAllowed | creatorpack/app_cli/ingest/license_gate.py:55-69 | a normalised code ending in `-sa`, `-nc` or `-nd` is refused as not permitted; the not-in-allowlist error arises exactly for other codes outside the table |
| LicenseGate.EnsureAllowedAcceptsExactly | creatorpack/app_cli/ingest/license_gate.py:55-69 | a license passes exactly when its normalised code is one of the seven table keys |
| LicenseGate.BlockFlagIrrelevant | creatorpack/app_cli/ingest/license_gate.py:68-69 | the NC/ND flag never changes the verdict, and the NC/ND error never arises |
| LicenseGate.VerdictDependsOnNormalForm | creatorpack/app_cli/ingest/license_gate.py:55-69 | codes with the same normal form get the same verdict, so case and surrounding whitespace never matter |
| LicenseGate.NonCommercialRefused | creatorpack/app_cli/ingest/license_gate.py:57-58 | `cc-by-nc` is refused as not permitted |
| LicenseGate.BuildInfo | creatorpack/app_cli/ingest/license_gate.py:71-91 | the info keeps the original code and copies source, title, creator and URL; attribution is required exactly for the four attribution codes |
| LicenseGate.BuildInfoAgreesWithGate | creatorpack/app_cli/ingest/license_gate.py:80-91 | an info is returned exactly for accepted codes, and the gate passes every info returned |
| LicenseGate.PaddedUpperCaseAccepted | creatorpack/app_cli/ingest/license_gate.py:80-91 | `"  CC-BY "` is accepted, keeps its original spelling and requires attribution |
| Summaries.FirstCovering | creatorpack/app_cli/nlp/summarize.py:23 | no result exactly when no segment covers the time; otherwise the first covering segment |
| Summaries.BulletTextMeaning | creatorpack/app_cli/nlp/summarize.py:23-27 | the bullet text is the stripped text of the first covering segment, or `Chapter overview` when there is none or it is blank; it is never empty |
| Summaries.BuildSummary | creatorpack/app_cli/nlp/summarize.py:19-29 | one bullet per chapter start, in order, timed at that start; its text is the bullet text for that start, which Summaries.BulletTextMeaning shows is the stripped text of the first segment covering the start, or "Chapter overview" when there is none or it is blank |
| Summaries.BulletLinesOnOneLine | creatorpack/app_cli/nlp/summarize.py:36-37 | a bullet whose text holds no line break renders on one line |
| Summaries.RenderSummaryMd | creatorpack/app_cli/nlp/summarize.py:32-40 | no ensures of its own: `Summaries.RenderedLines` reads it back line by line and `Summaries.RenderEmpty` gives its text without bullets |
| Summaries.RenderedLines | creatorpack/app_cli/nlp/summarize.py:32-40 | read line by line, the Markdown is the header, one line per bullet in order, a blank line, the call-to-action heading and the subscribe line |
| Summaries.RenderEmpty | creatorpack/app_cli/nlp/summarize.py:32-40 | no bullets render only the header and the call-to-action section |
| Credits.RenderStartsWithBullet | creatorpack/app_cli/outputs/credits.py:19-20 | a rendered line starts with `- ` and is ten characters longer than its four fields |
| Credits.RenderOnOneLine | creatorpack/app_cli/outputs/credits.py:19-20 | fields without line breaks render on one line |
| Credits.Render | creatorpack/app_cli/outputs/credits.py:19-20 | no ensures of its own: `Credits.RenderStartsWithBullet` and `Credits.RenderOnOneLine` state its shape |
| Credits.BuildCredits | creatorpack/app_cli/outputs/credits.py:23-40 | one line exactly when the license asks for attribution, none otherwise, copying the title, creator and the license's name and URL |
| Credits.BuildCreditsIgnoresDescription | creatorpack/app_cli/outputs/credits.py:23-40 | the description never changes the credits |
| Credits.RenderCredits | creatorpack/app_cli/outputs/credits.py:43-46 | the page starts with `# Credits` and a line break and ends with a line break |
| Credits.BodyEmptyIffNoLines | creatorpack/app_cli/outputs/credits.py:45 | the joined body is empty exactly when there are no lines, so the no-attribution note appears exactly then |
| Credits.RenderCreditsLines | creatorpack/app_cli/outputs/credits.py:43-46 | read line by line, the page is its title, then the note or the rendered credits in order, then an empty remainder |
| SchemaCheck.AssertType | creatorpack/app_cli/schemas/validate.py:60-70 | a failure names the path and the expected type |
| SchemaCheck.AssertTypeMeaning | creatorpack/app_cli/schemas/validate.py:60-70 | a value passes exactly when the type name is unknown or is one of the value's Python kinds |
| SchemaCheck.NumericKinds | creatorpack/app_cli/schemas/validate.py:67-70 | booleans pass `integer` and `number`, integers pass `number`, and floats fail `integer` |
| SchemaCheck.CheckRequired | creatorpack/app_cli/schemas/validate.py:45-48 | passes exactly when every required key is a string present in the data |
| SchemaCheck.EmptySchemaAccepts | creatorpack/app_cli/schemas/validate.py:39-57 | the empty schema accepts every value |
| SchemaCheck.TypeOnlySchema | creatorpack/app_cli/schemas/validate.py:40-42 | a schema with only a type fails exactly on a known type the value does not have |
| SchemaCheck.TypeChecked | creatorpack/app_cli/schemas/validate.py:40-42 | with a `type` entry, a known type the value lacks fails, and a pass means the type is unknown or held |
| SchemaCheck.RequiredKeysPresent | creatorpack/app_cli/schemas/validate.py:44-48 | an object that passes holds every required key |
| SchemaCheck.EmptyPropertiesIgnoreMembers | creatorpack/app_cli/schemas/validate.py:49-52 | with no properties, no member is checked |
| SchemaCheck.PropertiesOnlyForDataKeys | creatorpack/app_cli/schemas/validate.py:49-52 | only the properties named by the data's keys matter; other entries are never checked |
| SchemaCheck.UnlistedMembersIgnored | creatorpack/app_cli/schemas/validate.py:50-52 | members without a property entry are not checked |
| SchemaCheck.ItemsAll | creatorpack/app_cli/schemas/validate.py:56-57 | the items pass exactly when each one passes at its own indexed path |
| SchemaCheck.ArrayChecked | creatorpack/app_cli/schemas/validate.py:53-57 | an array without `items` passes; with truthy `items` it passes exactly when every element does |
| SchemaCheck.MembersAll | creatorpack/app_cli/schemas/validate.py:49-52 | the member loop passes exactly when every member whose key `properties` lists passes that key's sub-schema at the path `path.key` |
| SchemaCheck.ObjectChecked | creatorpack/app_cli/schemas/validate.py:40-52 | an object checked against a schema whose type is absent or `object`, with a `required` list and a `properties` table, passes exactly when every required key is a string key of the object and every listed member passes its sub-schema at `path.key` |
| SchemaCheck.Validate | creatorpack/app_cli/schemas/validate.py:39-57 | no ensures of its own: `SchemaCheck.EmptySchemaAccepts`, `SchemaCheck.TypeOnlySchema`, `SchemaCheck.TypeChecked`, `SchemaCheck.RequiredKeysPresent`, `SchemaCheck.EmptyPropertiesIgnoreMembers`, `SchemaCheck.PropertiesOnlyForDataKeys`, `SchemaCheck.UnlistedMembersIgnored`, `SchemaCheck.MembersAll`, `SchemaCheck.ObjectChecked`, `SchemaCheck.ItemsAll` and `SchemaCheck.ArrayChecked` state what it checks |
| DemoProcessor.FormatTimestamp | server/processor.ts:13-19 | no ensures of its own: `DemoProcessor.TimestampFieldsBounded`, `DemoProcessor.WholeSecondsMatchPython` and `DemoProcessor.TimestampOnOneLine` state its fields and text |
| DemoProcessor.TimestampFieldsBounded | server/processor.ts:13-19 | for non-negative input, hours, minutes and seconds equal the Python ones: minutes and seconds in [0, 59], summing to the whole seconds; milliseconds lie in [0, 999] |
| DemoProcessor.WholeSecondsMatchPython | server/processor.ts:13-19 | on whole seconds, the JavaScript timestamp is the Python one |
| DemoProcessor.PadNat | server/processor.ts:18 | `padStart` of a natural number is Python's zero-padded format |
| DemoProcessor.TimestampOnOneLine | server/processor.ts:13-19 | a timestamp never holds a line break |
| DemoProcessor.BlockIsJoin | server/processor.ts:25-27 | a block is its number, its time line, its text and an empty line, joined by line breaks |
| DemoProcessor.SegmentsToSrt | server/processor.ts:22-30 | no ensures of its own: `DemoProcessor.SrtSplitsToLines`, `DemoProcessor.SrtReadsBack` and `DemoProcessor.SrtOfNothing` state its text |
| DemoProcessor.SrtSplitsToLines | server/processor.ts:22-30 | for texts without line breaks, the SRT splits into each segment's four block lines in order |
| DemoProcessor.SrtReadsBack | server/processor.ts:22-30 | the SRT has four lines per segment, and lines 4k to 4k + 3 are the number k + 1, segment k's time line, its text and an empty line |
| DemoProcessor.SrtOfNothing | server/processor.ts:22-30 | no segments give the empty text |
| DemoProcessor.SplitWords | server/processor.ts:33 | every word is non-empty and holds no whitespace |
| DemoProcessor.SegmentDuration | server/processor.ts:39 | the duration is 2.4, 2.8 or 3.2 s as the chunk length is 0, 1 or 2 modulo 3 |
| DemoProcessor.ChunkEnd | server/processor.ts:36-37 | a chunk takes one to eight words, and exactly eight unless it is the last |
| DemoProcessor.SegmentsFrom | server/processor.ts:34-44 | the loop makes one segment per eight words, rounded up, starting at the cursor |
| DemoProcessor.SegmentAt | server/processor.ts:36-43 | segment k holds chunk k, ends its duration after its start, and starts half a second after segment k - 1 ends |
| DemoProcessor.BuildTranscriptFromText | server/processor.ts:32-45 | no ensures of its own: `DemoProcessor.TranscriptCount`, `DemoProcessor.TranscriptTiming`, `DemoProcessor.TranscriptSegmentWords`, `DemoProcessor.TranscriptKeepsWords` and `DemoProcessor.BlankTranscript` state its segments |
| DemoProcessor.TranscriptCount | server/processor.ts:32-45 | the transcript has the ceiling of the word count over eight segments |
| DemoProcessor.TranscriptTiming | server/processor.ts:35-42 | the first segment starts at 0, each next one half a second after the previous end, and each lasts 2.4, 2.8 or 3.2 s |
| DemoProcessor.TranscriptSegmentWords | server/processor.ts:33-37 | segment k's words are words 8k up to 8k + 8 of the text |
| DemoProcessor.ChunkGroupsCover | server/processor.ts:36-37 | the eight-word groups, concatenated, are the word list |
| DemoProcessor.TranscriptKeepsWords | server/processor.ts:33-37 | the segments' words, read back in order, are exactly the words of the text |
| DemoProcessor.BlankTranscript | server/processor.ts:32-45 | there are no segments exactly when the text is all whitespace |
| DemoProcessor.Summary | server/processor.ts:52 | the summary is a prefix of the text whose length is the smaller of 80 and the text's length |
| DemoProcessor.BuildHighlights | server/processor.ts:47-54 | the first min(3, n) segments in order, with ids `highlight-1` onward, copied start and end, and as summary exactly the first 80 code units of the text (all of it when shorter) |
| DemoProcessor.HighlightsIgnoreLaterSegments | server/processor.ts:48 | segments after the third never change the highlights |
| DemoProcessor.HighlightIdsDistinct | server/processor.ts:49 | distinct positions get distinct ids |

## Left out

- `processJob` (server/processor.ts:56-138): asynchronous storage I/O, sleeps (`STEP_DELAY_MS`), logging, and the manifest and provenance text it writes.
- `validate_manifest`, `_load_schema` and `_jsonschema_validator` (creatorpack/app_cli/schemas/validate.py:12-36): they read files and call an optional library. Only the fallback checker is modelled.
- `ensure_dir`, `write_json` and `write_text` (creatorpack/app_cli/util/io.py:10-26): file-system writes.
- `LicenseInfo.to_dict` and the exception classes: plain data plumbing. Errors are `Result`/`Outcome` values.
- SHA-256 and the text `json.dumps` writes: the digest is a function parameter from JSON values to 64 lower-case hex digits. It is applied to the payload after `SortedJson.SortKeys` has sorted every object's keys, which is the part of `sort_keys=True` that decides the text.
- `Path.stat` and `Path.resolve`: a map from path to resolved path, mtime and size. A missing path is an error value, where Python raises.
- `IngestInput` and `LicenseProbe` are not part of this model beyond the fields the core reads.
- Float arithmetic: times and scores are exact reals. IEEE rounding is not modelled. Python's `round` is half-even on the exact value. JavaScript's `%` is the truncating remainder on reals.
- Timecode.Millis: states bounds and one witness, not the exact rounding of an IEEE double.
- Unicode: `str.lower` and `str.isalnum` are ASCII only. Whitespace is Python's `str.isspace` set and JavaScript's `\s` set, by code point. `Units` maps characters to UTF-16 code units one to one, which is exact only for the Basic Multilingual Plane.
- JsonValues.Get: duplicate keys in a JSON object keep the first one. Python dictionaries cannot hold duplicates.
- SchemaCheck.Validate: a schema that is not an object, or whose `required` is not iterable, fails as malformed where Python raises a `TypeError` or `AttributeError`.
- Chapters.BuildChapters: requires `minutes > 0` when the duration is positive, because the source loop makes no progress otherwise.
- Chunking.GenerateFixedChunks: requires `minutes > 0` when the duration is positive, for the same reason.
- The session-level wiring of the CLI, bundling, ingestion adapters, speech-to-text, ffmpeg and the web and desktop shells is outside the planning core.

/** Deterministic job identifiers.  The inputs, sorted by `(kind, value)`,
    are fingerprinted (local files by resolved path, modification time and
    size), combined with every job parameter into a JSON payload, and the
    payload's SHA-256 digest is shortened to "job-" plus 12 hex digits.
    The file system is a snapshot mapping each path to its metadata and the
    digest is a parameter: any function from payloads to 64 hex digits. */
module JobId {
  import opened Wrappers
  import opened JsonValues
  import opened SortedJson

  /** One requested input: its source kind ("local", "url", ...) and its value. */
  datatype IngestInput = IngestInput(kind: string, value: string)

  /** What `stat` and `resolve` report for a path. */
  datatype FileMeta = FileMeta(resolved: string, mtime: real, size: int)

  /** Snapshot of the file system: metadata of every existing path. */
  type FileSystem = map<string, FileMeta>

  datatype JobError = MissingPath(path: string)

  predicate IsHexDigit(c: char) { '0' <= c <= '9' || 'a' <= c <= 'f' }

  /** A hexadecimal SHA-256 digest. */
  type HexDigest = s: string | |s| == 64 && forall i :: 0 <= i < |s| ==> IsHexDigit(s[i])
    witness seq(64, i => '0')

  /** The job parameters other than the inputs. */
  datatype JobParams = JobParams(
    template: string,
    minutes: int,
    smart: bool,
    highlights: bool,
    highlightConfig: Json,
    brandPath: Option<string>,
    diarize: bool,
    localize: Option<string>)

  // ---------------------------------------------------------------------------
  // Ordering inputs by (kind, value)

  /** The sort key `(kind, value)` compared as a Python tuple. */
  predicate InputLe(x: IngestInput, y: IngestInput) {
    if x.kind != y.kind then StrLe(x.kind, y.kind) else StrLe(x.value, y.value)
  }

  lemma InputLeTotal(x: IngestInput, y: IngestInput)
    ensures InputLe(x, y) || InputLe(y, x)
  {
    StrLeTotal(x.kind, y.kind);
    StrLeTotal(x.value, y.value);
  }

  lemma InputLeAntisymmetric(x: IngestInput, y: IngestInput)
    requires InputLe(x, y) && InputLe(y, x)
    ensures x == y
  {
    if x.kind != y.kind {
      StrLeAntisymmetric(x.kind, y.kind);
    } else {
      StrLeAntisymmetric(x.value, y.value);
    }
  }

  lemma InputLeTransitive(x: IngestInput, y: IngestInput, z: IngestInput)
    requires InputLe(x, y) && InputLe(y, z)
    ensures InputLe(x, z)
  {
    if x.kind != y.kind && y.kind != z.kind {
      StrLeTransitive(x.kind, y.kind, z.kind);
      if x.kind == z.kind {
        StrLeAntisymmetric(x.kind, y.kind);
      }
    } else if x.kind != y.kind || y.kind != z.kind {
    } else {
      StrLeTransitive(x.value, y.value, z.value);
    }
  }

  predicate SortedInputs(s: seq<IngestInput>) {
    forall i, j :: 0 <= i < j < |s| ==> InputLe(s[i], s[j])
  }

  /** Inserts `x` before the first element it precedes. */
  function InsertInput(s: seq<IngestInput>, x: IngestInput): (r: seq<IngestInput>)
    requires SortedInputs(s)
    ensures |r| == |s| + 1
    ensures forall i :: 0 <= i < |r| ==> r[i] == x || r[i] in s
    ensures SortedInputs(r)
    ensures multiset(r) == multiset(s) + multiset{x}
  {
    if |s| == 0 then [x]
    else if InputLe(x, s[0]) then
      PrependSmallest(x, s);
      [x] + s
    else
      InputLeTotal(x, s[0]);
      var rest := InsertInput(s[1..], x);
      assert s == [s[0]] + s[1..];
      assert forall i :: 0 <= i < |rest| ==> InputLe(s[0], rest[i]);
      PrependSorted(s[0], rest);
      [s[0]] + rest
  }

  /** An element below the head of a sorted list can go in front of it. */
  lemma PrependSmallest(x: IngestInput, s: seq<IngestInput>)
    requires SortedInputs(s) && |s| > 0 && InputLe(x, s[0])
    ensures SortedInputs([x] + s)
  {
    forall j | 0 <= j < |s| ensures InputLe(x, s[j]) {
      if j > 0 { InputLeTransitive(x, s[0], s[j]); }
    }
    PrependSorted(x, s);
  }

  lemma PrependSorted(x: IngestInput, s: seq<IngestInput>)
    requires SortedInputs(s)
    requires forall j :: 0 <= j < |s| ==> InputLe(x, s[j])
    ensures SortedInputs([x] + s)
  {
    var r := [x] + s;
    forall i, j | 0 <= i < j < |r| ensures InputLe(r[i], r[j]) {
      if i > 0 {
        assert r[i] == s[i - 1] && r[j] == s[j - 1];
      }
    }
  }

  /** `sorted(inputs, key=lambda i: (i.kind, i.value))`. */
  function SortInputs(s: seq<IngestInput>): (r: seq<IngestInput>)
    ensures SortedInputs(r)
    ensures multiset(r) == multiset(s)
  {
    if |s| == 0 then []
    else
      assert s == [s[0]] + s[1..];
      InsertInput(SortInputs(s[1..]), s[0])
  }

  /** Two sorted lists with the same elements are equal: under a total order
      the sorted arrangement of a multiset is unique. */
  lemma {:induction false} SortedUnique(a: seq<IngestInput>, b: seq<IngestInput>)
    requires SortedInputs(a) && SortedInputs(b)
    requires multiset(a) == multiset(b)
    ensures a == b
  {
    if |a| == 0 {
      assert |b| == |multiset(b)| == 0;
    } else {
      assert |b| == |multiset(b)| == |multiset(a)| == |a|;
      SortedHeadsEqual(a, b);
      SortedTail(a);
      SortedTail(b);
      SortedUnique(a[1..], b[1..]);
      assert a == [a[0]] + a[1..] && b == [b[0]] + b[1..];
    }
  }

  /** Two non-empty sorted lists with the same elements start alike. */
  lemma SortedHeadsEqual(a: seq<IngestInput>, b: seq<IngestInput>)
    requires SortedInputs(a) && SortedInputs(b)
    requires multiset(a) == multiset(b) && |a| > 0 && |b| > 0
    ensures a[0] == b[0]
  {
    assert a[0] in multiset(b);
    var k :| 0 <= k < |b| && b[k] == a[0];
    assert b[0] in multiset(a);
    var m :| 0 <= m < |a| && a[m] == b[0];
    assert InputLe(b[0], a[0]) by {
      if k > 0 { assert InputLe(b[0], b[k]); } else { InputLeTotal(a[0], a[0]); }
    }
    assert InputLe(a[0], b[0]) by {
      if m > 0 { assert InputLe(a[0], a[m]); } else { InputLeTotal(a[0], a[0]); }
    }
    InputLeAntisymmetric(a[0], b[0]);
  }

  /** The tail of a sorted list is sorted and holds the other elements. */
  lemma SortedTail(a: seq<IngestInput>)
    requires SortedInputs(a) && |a| > 0
    ensures SortedInputs(a[1..])
    ensures multiset(a[1..]) == multiset(a) - multiset{a[0]}
  {
    assert a == [a[0]] + a[1..];
    assert forall i, j :: 0 <= i < j < |a| - 1 ==> a[1..][i] == a[i + 1] && a[1..][j] == a[j + 1];
  }

  /** Sorting depends only on which inputs are given, not on their order. */
  lemma SortInputsOrderIndependent(a: seq<IngestInput>, b: seq<IngestInput>)
    requires multiset(a) == multiset(b)
    ensures SortInputs(a) == SortInputs(b)
  {
    SortedUnique(SortInputs(a), SortInputs(b));
  }

  // ---------------------------------------------------------------------------
  // Fingerprints and payload

  /** `_input_fingerprint`: kind and value for remote inputs; kind, resolved
      path, modification time and size for local files, which must exist. */
  function InputFingerprint(x: IngestInput, fs: FileSystem): (r: Result<Json, JobError>)
    ensures r.Err? <==> x.kind == "local" && x.value !in fs
    ensures r.Err? ==> r.error == MissingPath(x.value)
    ensures r.Ok? ==> r.value.JObj? && Get(r.value.members, "kind") == Some(JStr(x.kind))
  {
    if x.kind != "local" then
      Ok(JObj([Member("kind", JStr(x.kind)), Member("value", JStr(x.value))]))
    else if x.value !in fs then
      Err(MissingPath(x.value))
    else
      var meta := fs[x.value];
      Ok(JObj([Member("kind", JStr(x.kind)), Member("value", JStr(meta.resolved)),
               Member("mtime", JReal(meta.mtime)), Member("size", JInt(meta.size))]))
  }

  /** A remote input's fingerprint is exactly its kind and value; the file
      system plays no part. */
  lemma RemoteFingerprint(x: IngestInput, fs: FileSystem)
    requires x.kind != "local"
    ensures InputFingerprint(x, fs).Ok?
    ensures Get(InputFingerprint(x, fs).value.members, "value") == Some(JStr(x.value))
    ensures |InputFingerprint(x, fs).value.members| == 2
    ensures forall fs' :: InputFingerprint(x, fs') == InputFingerprint(x, fs)
  {
  }

  /** A local file's fingerprint records its resolved path, time and size, so
      touching or resizing the file changes it. */
  lemma LocalFingerprint(x: IngestInput, fs: FileSystem, fs': FileSystem)
    requires x.kind == "local" && x.value in fs && x.value in fs'
    ensures Get(InputFingerprint(x, fs).value.members, "value") == Some(JStr(fs[x.value].resolved))
    ensures Get(InputFingerprint(x, fs).value.members, "mtime") == Some(JReal(fs[x.value].mtime))
    ensures Get(InputFingerprint(x, fs).value.members, "size") == Some(JInt(fs[x.value].size))
    ensures InputFingerprint(x, fs) == InputFingerprint(x, fs') <==> fs[x.value] == fs'[x.value]
  {
    var m := InputFingerprint(x, fs).value.members;
    GetAt(m, 1);
    GetAt(m, 2);
    GetAt(m, 3);
  }

  /** `_path_fingerprint`: `null` for no path, else resolved path, time and size. */
  function PathFingerprint(path: Option<string>, fs: FileSystem): (r: Result<Json, JobError>)
    ensures path.None? ==> r == Ok(JNull)
    ensures r.Err? <==> path.Some? && path.value !in fs
  {
    match path
    case None => Ok(JNull)
    case Some(p) =>
      if p !in fs then Err(MissingPath(p))
      else
        var meta := fs[p];
        Ok(JObj([Member("path", JStr(meta.resolved)), Member("mtime", JReal(meta.mtime)),
                 Member("size", JInt(meta.size))]))
  }

  /** A present path's fingerprint determines its metadata. */
  lemma PathFingerprintFaithful(p: string, fs: FileSystem, fs': FileSystem)
    requires p in fs && p in fs'
    ensures PathFingerprint(Some(p), fs) != Ok(JNull)
    ensures PathFingerprint(Some(p), fs) == PathFingerprint(Some(p), fs') <==> fs[p] == fs'[p]
  {
  }

  /** Fingerprints of the inputs in order; the first missing file is the error. */
  function Fingerprints(xs: seq<IngestInput>, fs: FileSystem): (r: Result<seq<Json>, JobError>)
    ensures r.Ok? <==> forall i :: 0 <= i < |xs| ==> InputFingerprint(xs[i], fs).Ok?
    ensures r.Ok? ==> |r.value| == |xs| && forall i :: 0 <= i < |xs| ==> r.value[i] == InputFingerprint(xs[i], fs).value
  {
    if |xs| == 0 then Ok([])
    else
      match InputFingerprint(xs[0], fs)
      case Err(e) => Err(e)
      case Ok(f) =>
        match Fingerprints(xs[1..], fs)
        case Err(e) =>
          assert forall i :: 1 <= i < |xs| ==> xs[i] == xs[1..][i - 1];
          Err(e)
        case Ok(fs1) =>
          assert forall i :: 1 <= i < |xs| ==> xs[i] == xs[1..][i - 1];
          Ok([f] + fs1)
  }

  function OptionalString(s: Option<string>): Json {
    match s
    case None => JNull
    case Some(v) => JStr(v)
  }

  /** The payload hashed into the job id. */
  function Payload(inputs: seq<IngestInput>, params: JobParams, fs: FileSystem): (r: Result<Json, JobError>)
    ensures r.Ok? <==> Fingerprints(SortInputs(inputs), fs).Ok? && PathFingerprint(params.brandPath, fs).Ok?
  {
    match Fingerprints(SortInputs(inputs), fs)
    case Err(e) => Err(e)
    case Ok(fps) =>
      match PathFingerprint(params.brandPath, fs)
      case Err(e) => Err(e)
      case Ok(brand) =>
        Ok(JObj([
          Member("inputs", JArr(fps)),
          Member("template", JStr(params.template)),
          Member("minutes", JInt(params.minutes)),
          Member("smart", JBool(params.smart)),
          Member("highlights", JBool(params.highlights)),
          Member("highlight_config", params.highlightConfig),
          Member("brand", brand),
          Member("diarize", JBool(params.diarize)),
          Member("localize", OptionalString(params.localize))
        ]))
  }

  /** `compute_job_id`: "job-" and the first 12 digits of the digest of the
      payload, written with every object's keys sorted. */
  function ComputeJobId(inputs: seq<IngestInput>, params: JobParams, fs: FileSystem,
                        digest: Json -> HexDigest): (r: Result<string, JobError>)
    ensures r.Ok? ==> |r.value| == 16 && r.value[..4] == "job-"
    ensures r.Ok? ==> forall i :: 4 <= i < 16 ==> IsHexDigit(r.value[i])
    ensures r.Ok? <==> Payload(inputs, params, fs).Ok?
    ensures r.Ok? ==> r.value[4..] == digest(SortKeys(Payload(inputs, params, fs).value))[..12]
  {
    match Payload(inputs, params, fs)
    case Err(e) => Err(e)
    case Ok(p) => Ok("job-" + digest(SortKeys(p))[..12])
  }

  /** The id does not depend on the order in which the inputs are given. */
  lemma JobIdOrderIndependent(a: seq<IngestInput>, b: seq<IngestInput>, params: JobParams,
                              fs: FileSystem, digest: Json -> HexDigest)
    requires multiset(a) == multiset(b)
    ensures ComputeJobId(a, params, fs, digest) == ComputeJobId(b, params, fs, digest)
  {
    SortInputsOrderIndependent(a, b);
  }

  /** The payload differs from one with another highlight configuration only
      in that member, the sixth. */
  lemma PayloadConfigMember(inputs: seq<IngestInput>, p: JobParams, q: JobParams, fs: FileSystem)
    requires q == p.(highlightConfig := q.highlightConfig)
    requires Payload(inputs, p, fs).Ok?
    ensures Payload(inputs, q, fs).Ok?
    ensures var a, b := Payload(inputs, p, fs).value, Payload(inputs, q, fs).value;
      a.JObj? && b.JObj? && |a.members| == |b.members| == 9 &&
      (forall i :: 0 <= i < 9 && i != 5 ==> a.members[i] == b.members[i]) &&
      a.members[5] == Member("highlight_config", p.highlightConfig) &&
      b.members[5] == Member("highlight_config", q.highlightConfig)
  {
  }

  /** The order in which the highlight configuration's keys were given does
      not change the id: two configurations holding the same members, with
      distinct keys as in a Python dict, give the same id. */
  lemma JobIdIgnoresConfigOrder(inputs: seq<IngestInput>, p: JobParams, config: seq<Member>,
                                fs: FileSystem, digest: Json -> HexDigest)
    requires p.highlightConfig.JObj? && DistinctKeys(p.highlightConfig.members)
    requires multiset(config) == multiset(p.highlightConfig.members)
    ensures ComputeJobId(inputs, p, fs, digest) == ComputeJobId(inputs, p.(highlightConfig := JObj(config)), fs, digest)
  {
    var q := p.(highlightConfig := JObj(config));
    if Payload(inputs, p, fs).Ok? {
      PayloadConfigMember(inputs, p, q, fs);
      SortKeysMemberOrder(p.highlightConfig.members, config);
      SortKeysReplaceValue(Payload(inputs, p, fs).value.members, Payload(inputs, q, fs).value.members, 5);
    }
  }

  /** What the payload keeps of the job parameters: every field, with the
      brand path replaced by the metadata of the file it names. */
  datatype Recorded = Recorded(
    template: string,
    minutes: int,
    smart: bool,
    highlights: bool,
    highlightConfig: Json,
    brand: Option<FileMeta>,
    diarize: bool,
    localize: Option<string>)

  function RecordedParams(p: JobParams, fs: FileSystem): Recorded {
    var brand := if p.brandPath.Some? && p.brandPath.value in fs then Some(fs[p.brandPath.value]) else None;
    Recorded(p.template, p.minutes, p.smart, p.highlights, p.highlightConfig, brand, p.diarize, p.localize)
  }

  /** Every parameter is recorded in the payload: equal payloads come from
      equal parameters, except that two brand paths naming files with the same
      metadata are indistinguishable. */
  lemma PayloadRecordsParameters(a: seq<IngestInput>, b: seq<IngestInput>, p: JobParams, q: JobParams, fs: FileSystem)
    requires Payload(a, p, fs).Ok? && Payload(a, p, fs) == Payload(b, q, fs)
    ensures RecordedParams(p, fs) == RecordedParams(q, fs)
    ensures Fingerprints(SortInputs(a), fs) == Fingerprints(SortInputs(b), fs)
  {
    var pa := Payload(a, p, fs).value.members;
    var pb := Payload(b, q, fs).value.members;
    assert pa[8].value == pb[8].value;
    assert p.localize == q.localize by {
      match p.localize
      case None =>
      case Some(v) =>
    }
    assert p.brandPath.None? <==> q.brandPath.None?;
  }
}

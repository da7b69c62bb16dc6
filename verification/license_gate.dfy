/** The license gate: a media asset may be used only when its license code,
    lower-cased and stripped, is one of seven allow-listed codes.  The table
    also says whether the license requires attribution. */
module LicenseGate {
  import opened Wrappers
  import opened Text

  /** One allow-list row: a normalised license code and whether it requires attribution. */
  datatype AllowedLicense = AllowedLicense(code: string, requiresAttribution: bool)

  /** The allow-list, in the order the gate scans it. */
  const AllowedLicenses: seq<AllowedLicense> := [
    AllowedLicense("pd", false),
    AllowedLicense("public-domain", false),
    AllowedLicense("cc0", false),
    AllowedLicense("cc-by", true),
    AllowedLicense("cc-by-4.0", true),
    AllowedLicense("cc-by-3.0", true),
    AllowedLicense("iodl-2.0", true)
  ]

  /** Independent statement of the policy: the codes that are accepted ... */
  const AcceptedCodes: set<string> :=
    {"pd", "public-domain", "cc0", "cc-by", "cc-by-4.0", "cc-by-3.0", "iodl-2.0"}

  /** ... and, among them, those that require attribution. */
  const AttributionCodes: set<string> := {"cc-by", "cc-by-4.0", "cc-by-3.0", "iodl-2.0"}

  datatype LicenseInfo = LicenseInfo(
    source: string,
    title: string,
    creator: Option<string>,
    licenseCode: string,
    licenseUrl: Option<string>,
    requiresAttribution: bool)

  /** Why the gate refused a license.  The code carried is the one supplied,
      before normalisation. */
  datatype LicenseViolation =
    | NotPermitted(code: string)     // share-alike, non-commercial or no-derivatives suffix
    | NotInAllowlist(code: string)
    | NcNdBlocked                    // "nc"/"nd" inside an allow-listed code

  /** The normal form compared against the table: lower-cased, then stripped. */
  function NormalizeCode(code: string): (r: string)
    ensures forall i :: 0 <= i < |r| ==> !IsAsciiUpper(r[i])
    ensures |r| > 0 ==> !IsPySpace(r[0]) && !IsPySpace(r[|r| - 1])
  {
    Strip(Lower(code))
  }

  /** A share-alike, non-commercial or no-derivatives suffix. */
  predicate HasRestrictedSuffix(code: string) {
    EndsWith(code, "-sa") || EndsWith(code, "-nc") || EndsWith(code, "-nd")
  }

  /** The first table row whose code equals `code`, as the gate's scan finds it. */
  function Lookup(table: seq<AllowedLicense>, code: string): (r: Option<bool>)
    ensures r.None? <==> forall i :: 0 <= i < |table| ==> table[i].code != code
    ensures r.Some? ==> exists i :: 0 <= i < |table| && table[i].code == code && table[i].requiresAttribution == r.value
  {
    if |table| == 0 then None
    else if table[0].code == code then Some(table[0].requiresAttribution)
    else
      var r := Lookup(table[1..], code);
      assert forall i :: 1 <= i < |table| ==> table[i] == table[1..][i - 1];
      r
  }

  /** `LicenseGate.ensure_allowed`: suffix check, allow-list lookup, then the
      optional NC/ND substring check. */
  function EnsureAllowed(info: LicenseInfo, blockNcNd: bool): (r: Outcome<LicenseViolation>)
    ensures HasRestrictedSuffix(NormalizeCode(info.licenseCode)) ==> r == Fail(NotPermitted(info.licenseCode))
    ensures r == Fail(NotInAllowlist(info.licenseCode)) <==>
              !HasRestrictedSuffix(NormalizeCode(info.licenseCode)) && NormalizeCode(info.licenseCode) !in AcceptedCodes
  {
    var code := NormalizeCode(info.licenseCode);
    LookupMatchesPolicy(code);
    if HasRestrictedSuffix(code) then Fail(NotPermitted(info.licenseCode))
    else if Lookup(AllowedLicenses, code).None? then Fail(NotInAllowlist(info.licenseCode))
    else if blockNcNd && (Contains(code, "nc") || Contains(code, "nd")) then Fail(NcNdBlocked)
    else Pass
  }

  /** `LicenseGate.build_info`: records the supplied fields, with the code as
      given and the attribution flag looked up from the table (false when the
      normalised code is absent), then runs the gate. */
  function BuildInfo(source: string, title: string, creator: Option<string>, licenseCode: string,
                     licenseUrl: Option<string>, blockNcNd: bool): (r: Result<LicenseInfo, LicenseViolation>)
    ensures r.Ok? ==> r.value.source == source && r.value.title == title && r.value.creator == creator
                      && r.value.licenseCode == licenseCode && r.value.licenseUrl == licenseUrl
    ensures r.Ok? ==> (r.value.requiresAttribution <==> NormalizeCode(licenseCode) in AttributionCodes)
  {
    var code := NormalizeCode(licenseCode);
    LookupMatchesPolicy(code);
    var requiresAttr := match Lookup(AllowedLicenses, code) case Some(b) => b case None => false;
    var info := LicenseInfo(source, title, creator, licenseCode, licenseUrl, requiresAttr);
    match EnsureAllowed(info, blockNcNd)
    case Pass => Ok(info)
    case Fail(e) => Err(e)
  }

  /** The scan over the table agrees with the two reference sets. */
  lemma LookupMatchesPolicy(code: string)
    ensures Lookup(AllowedLicenses, code).Some? <==> code in AcceptedCodes
    ensures Lookup(AllowedLicenses, code) == Some(true) <==> code in AttributionCodes
  {
    var r := Lookup(AllowedLicenses, code);
    if r.Some? {
      var i :| 0 <= i < 7 && AllowedLicenses[i].code == code && AllowedLicenses[i].requiresAttribution == r.value;
      RowInPolicy(i);
    } else if code in AcceptedCodes {
      var i := RowOf(code);
    }
  }

  /** Row `i` of the table agrees with the reference sets. */
  lemma RowInPolicy(i: nat)
    requires i < |AllowedLicenses|
    ensures AllowedLicenses[i].code in AcceptedCodes
    ensures AllowedLicenses[i].requiresAttribution <==> AllowedLicenses[i].code in AttributionCodes
  {
    assert i in {0, 1, 2, 3, 4, 5, 6};
  }

  /** The table row holding an accepted code. */
  lemma RowOf(code: string) returns (i: nat)
    requires code in AcceptedCodes
    ensures i < |AllowedLicenses| && AllowedLicenses[i].code == code
  {
    if code == "pd" { i := 0; }
    else if code == "public-domain" { i := 1; }
    else if code == "cc0" { i := 2; }
    else if code == "cc-by" { i := 3; }
    else if code == "cc-by-4.0" { i := 4; }
    else if code == "cc-by-3.0" { i := 5; }
    else { i := 6; }
  }

  /** No allow-listed code contains "nc" or "nd" (only "public-domain" has an
      'n' at all, as its last character), and none ends in a restricted suffix. */
  lemma AcceptedCodeShape(code: string)
    requires code in AcceptedCodes
    ensures !Contains(code, "nc") && !Contains(code, "nd")
    ensures !HasRestrictedSuffix(code)
  {
    var i := RowOf(code);
    RowShape(i);
  }

  lemma RowShape(i: nat)
    requires i < |AllowedLicenses|
    ensures !Contains(AllowedLicenses[i].code, "nc") && !Contains(AllowedLicenses[i].code, "nd")
    ensures !HasRestrictedSuffix(AllowedLicenses[i].code)
  {
    var code := AllowedLicenses[i].code;
    if i == 1 {
      PublicDomainShape(code);
    } else {
      assert 'n' !in code && |code| > 0 by {
        assert i in {0, 2, 3, 4, 5, 6};
      }
      NoN(code);
      if i != 0 {
        assert code[|code| - 1] in "0y" by {
          assert i in {2, 3, 4, 5, 6};
        }
        NoRestrictedSuffix(code);
      }
    }
  }

  lemma PublicDomainShape(code: string)
    requires code == "public-domain"
    ensures !Contains(code, "nc") && !Contains(code, "nd")
    ensures !HasRestrictedSuffix(code)
  {
    var p, q := code[..|code| - 1], code[|code| - 1..];
    assert code == p + q;
    assert 'n' !in p && |q| == 1;
    NotContainedBeforeTail(p, q, "nc");
    NotContainedBeforeTail(p, q, "nd");
    NoRestrictedSuffix(code);
  }

  lemma NoN(s: string)
    requires 'n' !in s
    ensures !Contains(s, "nc") && !Contains(s, "nd")
    ensures |s| < 3 ==> !HasRestrictedSuffix(s)
  {
    assert s == s + [];
    NotContainedBeforeTail(s, [], "nc");
    NotContainedBeforeTail(s, [], "nd");
  }

  lemma NoRestrictedSuffix(s: string)
    requires |s| > 0 && s[|s| - 1] != 'a' && s[|s| - 1] != 'c' && s[|s| - 1] != 'd'
    ensures !HasRestrictedSuffix(s)
  {
  }

  /** A license passes the gate exactly when its normalised code is one of the
      seven allow-listed codes. */
  lemma EnsureAllowedAcceptsExactly(info: LicenseInfo, blockNcNd: bool)
    ensures EnsureAllowed(info, blockNcNd).Pass? <==> NormalizeCode(info.licenseCode) in AcceptedCodes
  {
    var code := NormalizeCode(info.licenseCode);
    LookupMatchesPolicy(code);
    if code in AcceptedCodes {
      AcceptedCodeShape(code);
    }
  }

  /** The NC/ND policy flag never changes the verdict: the substring check is
      reached only for allow-listed codes, none of which contains "nc" or "nd". */
  lemma BlockFlagIrrelevant(info: LicenseInfo)
    ensures EnsureAllowed(info, true) == EnsureAllowed(info, false)
    ensures EnsureAllowed(info, true) != Fail(NcNdBlocked)
  {
    var code := NormalizeCode(info.licenseCode);
    LookupMatchesPolicy(code);
    if code in AcceptedCodes {
      AcceptedCodeShape(code);
    }
  }

  /** Lower-casing and stripping are already applied to a normal form. */
  lemma {:induction false} NormalizeIdempotent(code: string)
    ensures NormalizeCode(NormalizeCode(code)) == NormalizeCode(code)
  {
    var n := NormalizeCode(code);
    assert Lower(n) == n by {
      forall i | 0 <= i < |n| ensures Lower(n)[i] == n[i] {
        assert !IsAsciiUpper(n[i]);
      }
    }
  }

  /** The verdict depends only on the normal form of the code: two infos whose
      codes agree after lower-casing and stripping get the same verdict, up to
      the code quoted in the error. */
  lemma VerdictDependsOnNormalForm(a: LicenseInfo, b: LicenseInfo, blockNcNd: bool)
    ensures NormalizeCode(a.licenseCode) == NormalizeCode(b.licenseCode) ==>
              (EnsureAllowed(a, blockNcNd).Pass? <==> EnsureAllowed(b, blockNcNd).Pass?)
    ensures NormalizeCode(a.licenseCode) == NormalizeCode(b.licenseCode) ==>
              (EnsureAllowed(a, blockNcNd) == Fail(NotPermitted(a.licenseCode)) <==>
               EnsureAllowed(b, blockNcNd) == Fail(NotPermitted(b.licenseCode)))
  {
    EnsureAllowedAcceptsExactly(a, blockNcNd);
    EnsureAllowedAcceptsExactly(b, blockNcNd);
  }

  /** `build_info` succeeds exactly when the gate accepts the code, so it never
      returns an info for a rejected license, and its error is the gate's. */
  lemma BuildInfoAgreesWithGate(source: string, title: string, creator: Option<string>, licenseCode: string,
                                licenseUrl: Option<string>, blockNcNd: bool)
    ensures BuildInfo(source, title, creator, licenseCode, licenseUrl, blockNcNd).Ok?
            <==> NormalizeCode(licenseCode) in AcceptedCodes
    ensures BuildInfo(source, title, creator, licenseCode, licenseUrl, blockNcNd).Ok? ==>
              EnsureAllowed(BuildInfo(source, title, creator, licenseCode, licenseUrl, blockNcNd).value, blockNcNd).Pass?
  {
    var code := NormalizeCode(licenseCode);
    LookupMatchesPolicy(code);
    var requiresAttr := match Lookup(AllowedLicenses, code) case Some(b) => b case None => false;
    var info := LicenseInfo(source, title, creator, licenseCode, licenseUrl, requiresAttr);
    EnsureAllowedAcceptsExactly(info, blockNcNd);
  }

  /** Example: a non-commercial variant is refused for its suffix, whatever the NC/ND flag. */
  lemma NonCommercialRefused(info: LicenseInfo, blockNcNd: bool)
    requires info.licenseCode == "cc-by-nc"
    ensures EnsureAllowed(info, blockNcNd) == Fail(NotPermitted("cc-by-nc"))
  {
    NonCommercialShape(info.licenseCode);
  }

  lemma NonCommercialShape(code: string)
    requires code == "cc-by-nc"
    ensures HasRestrictedSuffix(NormalizeCode(code))
  {
    assert Lower(code) == code;
    assert Strip(code) == code;
    assert EndsWith(code, "-nc") by {
      assert code == "cc-by" + "-nc";
    }
  }

  /** Example: an upper-case, padded "  CC-BY " is accepted, keeps its original
      spelling and requires attribution. */
  lemma PaddedUpperCaseAccepted(blockNcNd: bool)
    ensures BuildInfo("nasa", "Moon", None, "  CC-BY ", None, blockNcNd)
            == Ok(LicenseInfo("nasa", "Moon", None, "  CC-BY ", None, true))
  {
    PaddedUpperCaseNormalForm("  CC-BY ");
    BuildInfoAgreesWithGate("nasa", "Moon", None, "  CC-BY ", None, blockNcNd);
  }

  lemma PaddedUpperCaseNormalForm(code: string)
    requires code == "  CC-BY "
    ensures NormalizeCode(code) == "cc-by"
    ensures NormalizeCode(code) in AcceptedCodes && NormalizeCode(code) in AttributionCodes
  {
    var core := "cc-by";
    assert Lower(code) == "  " + core + " ";
    StripByPadded("  ", core, " ", IsPySpace);
  }
}

/** `slugify`: turns a user-facing name into a file-system safe slug made of
    lower-case letters, digits and single dashes, never empty.

    Letters and digits are ASCII ones; every other character becomes a dash. */
module Slugs {
  import opened Text

  /** The slug used when nothing alphanumeric is left. */
  const FallbackSlug: string := "asset"

  predicate IsSlugChar(c: char) { IsAsciiLower(c) || IsDigit(c) || c == '-' }

  predicate IsDash(c: char) { c == '-' }

  /** No two dashes are adjacent. */
  predicate NoDoubleDash(s: string) {
    forall i :: 0 < i < |s| ==> !(s[i - 1] == '-' && s[i] == '-')
  }

  /** The letters and digits of `s`, in order. */
  function Alnums(s: string): (r: string)
    ensures forall i :: 0 <= i < |r| ==> IsAsciiAlnum(r[i])
  {
    if |s| == 0 then []
    else (if IsAsciiAlnum(s[0]) then [s[0]] else []) + Alnums(s[1..])
  }

  // ---------------------------------------------------------------------------
  // The steps of `slugify`

  /** One character of the cleaned string: a letter or digit lower-cased,
      anything else a dash. */
  function SlugChar(c: char): (r: char)
    ensures IsSlugChar(r)
    ensures r == '-' <==> !IsAsciiAlnum(c)
  {
    if IsAsciiAlnum(c) then LowerChar(c) else '-'
  }

  function Clean(s: string): (r: string)
    ensures |r| == |s|
    ensures forall i :: 0 <= i < |s| ==> r[i] == SlugChar(s[i])
  {
    seq(|s|, i requires 0 <= i < |s| => SlugChar(s[i]))
  }

  /** `s.replace("--", "-")`: every non-overlapping pair of dashes, scanning
      left to right, becomes one dash. */
  function ReplaceDoubleDash(s: string): (r: string)
    ensures |r| <= |s|
    ensures !NoDoubleDash(s) ==> |r| < |s|
    ensures |r| > 0 <==> |s| > 0
    ensures |r| > 0 ==> (r[0] == '-' <==> s[0] == '-')
  {
    if |s| < 2 then s
    else if s[0] == '-' && s[1] == '-' then ['-'] + ReplaceDoubleDash(s[2..])
    else
      assert !NoDoubleDash(s) ==> !NoDoubleDash(s[1..]) by {
        if !NoDoubleDash(s) {
          var i :| 0 < i < |s| && s[i - 1] == '-' && s[i] == '-';
          assert i > 1 && s[1..][i - 2] == '-' && s[1..][i - 1] == '-';
        }
      }
      [s[0]] + ReplaceDoubleDash(s[1..])
  }

  /** The loop test `"--" in s` holds exactly when two dashes are adjacent. */
  lemma DoubleDashContained(s: string)
    ensures !NoDoubleDash(s) <==> Contains(s, "--")
  {
    var dd := "--";
    ContainsAt(s, dd);
    if !NoDoubleDash(s) {
      var i :| 0 < i < |s| && s[i - 1] == '-' && s[i] == '-';
      assert s[i - 1..i + 1] == dd;
      assert OccursAt(s, dd, i - 1);
    }
    if Contains(s, dd) {
      var k :| OccursAt(s, dd, k);
      assert s[k..k + 2] == dd;
      assert s[k] == '-' && s[k + 1] == '-';
    }
  }

  /** `while "--" in cleaned: cleaned = cleaned.replace("--", "-")`. */
  function CollapseLoop(s: string): (r: string)
    ensures NoDoubleDash(r)
    decreases |s|
  {
    if NoDoubleDash(s) then s else CollapseLoop(ReplaceDoubleDash(s))
  }

  /** Python's `slugify`: clean, collapse dashes, strip dashes, fall back to
      "asset". */
  function Slugify(value: string): (r: string)
    ensures r != []
    ensures forall i :: 0 <= i < |r| ==> IsSlugChar(r[i])
    ensures NoDoubleDash(r)
    ensures r[0] != '-' && r[|r| - 1] != '-'
  {
    var collapsed := CollapseLoop(Clean(Strip(value)));
    var t := StripBy(collapsed, IsDash);
    if t == [] then
      FallbackIsSlug();
      FallbackSlug
    else
      CollapseKeepsChars(Clean(Strip(value)));
      StrippedIsSlug(collapsed);
      t
  }

  lemma FallbackIsSlug()
    ensures forall i :: 0 <= i < |FallbackSlug| ==> IsSlugChar(FallbackSlug[i])
    ensures NoDoubleDash(FallbackSlug)
    ensures FallbackSlug[0] != '-' && FallbackSlug[|FallbackSlug| - 1] != '-'
  {
  }

  /** Stripping the outer dashes of a collapsed string of slug characters
      leaves a slug, when anything is left. */
  lemma StrippedIsSlug(s: string)
    requires forall i :: 0 <= i < |s| ==> IsSlugChar(s[i])
    requires NoDoubleDash(s)
    requires StripBy(s, IsDash) != []
    ensures var t := StripBy(s, IsDash);
      (forall i :: 0 <= i < |t| ==> IsSlugChar(t[i])) && NoDoubleDash(t) && t[0] != '-' && t[|t| - 1] != '-'
  {
    var a := LeadCount(s, IsDash);
    var t := StripBy(s, IsDash);
    SliceNoDoubleDash(s, a, a + |t|);
    assert forall i :: 0 <= i < |t| ==> t[i] == s[a + i];
  }

  // ---------------------------------------------------------------------------
  // Reference: every run of dashes squeezed to one

  /** Each maximal run of dashes replaced by a single dash, everything else kept. */
  function Squeeze(s: string): (r: string)
    ensures |r| > 0 <==> |s| > 0
    ensures |r| > 0 ==> r[0] == s[0]
  {
    if |s| == 0 then []
    else if |s| >= 2 && s[0] == '-' && s[1] == '-' then Squeeze(s[1..])
    else [s[0]] + Squeeze(s[1..])
  }

  /** Squeezing a string without adjacent dashes changes nothing. */
  lemma {:induction false} SqueezeNoDoubleDash(s: string)
    requires NoDoubleDash(s)
    ensures Squeeze(s) == s
  {
    if |s| > 0 {
      assert NoDoubleDash(s[1..]) by {
        forall i | 0 < i < |s| - 1 ensures !(s[1..][i - 1] == '-' && s[1..][i] == '-') {
          assert s[1..][i - 1] == s[i] && s[1..][i] == s[i + 1];
        }
      }
      SqueezeNoDoubleDash(s[1..]);
      if |s| >= 2 {
        assert !(s[0] == '-' && s[1] == '-');
      }
    }
  }

  /** A dash in front of `x` squeezes according to `Squeeze(x)` alone. */
  lemma SqueezeDash(x: string)
    ensures Squeeze(['-'] + x) ==
            (if |Squeeze(x)| > 0 && Squeeze(x)[0] == '-' then Squeeze(x) else ['-'] + Squeeze(x))
  {
    assert (['-'] + x)[1..] == x;
  }

  /** One replacement pass leaves the squeezed string unchanged. */
  lemma {:induction false} SqueezeReplace(s: string)
    ensures Squeeze(ReplaceDoubleDash(s)) == Squeeze(s)
    decreases |s|
  {
    if |s| < 2 {
    } else if s[0] == '-' && s[1] == '-' {
      var t := s[2..];
      SqueezeReplace(t);
      SqueezeDash(ReplaceDoubleDash(t));
      SqueezeDash(t);
      assert s[1..] == ['-'] + t;
    } else {
      var t := s[1..];
      SqueezeReplace(t);
      assert ([s[0]] + ReplaceDoubleDash(t))[1..] == ReplaceDoubleDash(t);
    }
  }

  /** The replace loop squeezes every run of dashes to one dash. */
  lemma {:induction false} CollapseLoopSqueezes(s: string)
    ensures CollapseLoop(s) == Squeeze(s)
    decreases |s|
  {
    if NoDoubleDash(s) {
      SqueezeNoDoubleDash(s);
    } else {
      CollapseLoopSqueezes(ReplaceDoubleDash(s));
      SqueezeReplace(s);
    }
  }

  // ---------------------------------------------------------------------------
  // Helpers about the characters that survive

  lemma SliceNoDoubleDash(s: string, a: nat, b: nat)
    requires a <= b <= |s| && NoDoubleDash(s)
    ensures NoDoubleDash(s[a..b])
  {
    forall i | 0 < i < b - a ensures !(s[a..b][i - 1] == '-' && s[a..b][i] == '-') {
      assert s[a..b][i - 1] == s[a + i - 1];
    }
  }

  /** The replace loop keeps the slug alphabet. */
  lemma {:induction false} CollapseKeepsChars(s: string)
    requires forall i :: 0 <= i < |s| ==> IsSlugChar(s[i])
    ensures forall i :: 0 <= i < |CollapseLoop(s)| ==> IsSlugChar(CollapseLoop(s)[i])
    decreases |s|
  {
    if !NoDoubleDash(s) {
      ReplaceKeepsChars(s);
      CollapseKeepsChars(ReplaceDoubleDash(s));
    }
  }

  lemma {:induction false} ReplaceKeepsChars(s: string)
    requires forall i :: 0 <= i < |s| ==> IsSlugChar(s[i])
    ensures forall i :: 0 <= i < |ReplaceDoubleDash(s)| ==> IsSlugChar(ReplaceDoubleDash(s)[i])
    decreases |s|
  {
    if |s| >= 2 {
      if s[0] == '-' && s[1] == '-' {
        ReplaceKeepsChars(s[2..]);
      } else {
        ReplaceKeepsChars(s[1..]);
      }
    }
  }

  /** Squeezing removes dashes only. */
  lemma {:induction false} SqueezeAlnums(s: string)
    ensures Alnums(Squeeze(s)) == Alnums(s)
    decreases |s|
  {
    if |s| > 0 {
      SqueezeAlnums(s[1..]);
      if !(|s| >= 2 && s[0] == '-' && s[1] == '-') {
        assert ([s[0]] + Squeeze(s[1..]))[1..] == Squeeze(s[1..]);
      }
    }
  }

  lemma {:induction false} AlnumsAppend(a: string, b: string)
    ensures Alnums(a + b) == Alnums(a) + Alnums(b)
    decreases |a|
  {
    if |a| > 0 {
      var h := if IsAsciiAlnum(a[0]) then [a[0]] else [];
      assert (a + b)[0] == a[0];
      assert (a + b)[1..] == a[1..] + b;
      AlnumsAppend(a[1..], b);
      assert Alnums(a + b) == h + Alnums(a[1..] + b);
      assert Alnums(a) == h + Alnums(a[1..]);
    } else {
      assert a + b == b;
    }
  }

  lemma {:induction false} AlnumsOfDashes(s: string)
    requires forall i :: 0 <= i < |s| ==> s[i] == '-'
    ensures Alnums(s) == []
    decreases |s|
  {
    if |s| > 0 {
      AlnumsOfDashes(s[1..]);
    }
  }

  /** Stripping dashes removes no letter or digit. */
  lemma StripDashesAlnums(s: string)
    ensures Alnums(StripBy(s, IsDash)) == Alnums(s)
  {
    var a := LeadCount(s, IsDash);
    var t := StripBy(s, IsDash);
    var b := a + |t|;
    assert s == s[..a] + t + s[b..];
    AlnumsAppend(s[..a] + t, s[b..]);
    AlnumsAppend(s[..a], t);
    AlnumsOfDashes(s[..a]);
    AlnumsOfDashes(s[b..]);
  }

  /** Cleaning lower-cases the letters and digits and turns the rest into dashes. */
  lemma {:induction false} CleanAlnums(s: string)
    ensures Alnums(Clean(s)) == Lower(Alnums(s))
    decreases |s|
  {
    if |s| > 0 {
      CleanAlnums(s[1..]);
      assert Clean(s) == [SlugChar(s[0])] + Clean(s[1..]);
      assert Clean(s)[1..] == Clean(s[1..]);
      assert Lower(Alnums(s)) == Lower(if IsAsciiAlnum(s[0]) then [s[0]] else []) + Lower(Alnums(s[1..]));
    }
  }

  /** A string of slug characters and letters/digits: its letters and digits
      are empty exactly when it is all dashes. */
  lemma {:induction false} NoAlnumsAllDashes(s: string)
    requires forall i :: 0 <= i < |s| ==> IsSlugChar(s[i])
    ensures Alnums(s) == [] <==> forall i :: 0 <= i < |s| ==> s[i] == '-'
    decreases |s|
  {
    if |s| > 0 {
      NoAlnumsAllDashes(s[1..]);
      if Alnums(s) == [] {
        assert !IsAsciiAlnum(s[0]);
        forall i | 0 <= i < |s| ensures s[i] == '-' {
          if i > 0 { assert s[i] == s[1..][i - 1]; }
        }
      } else if forall i :: 0 <= i < |s| ==> s[i] == '-' {
        AlnumsOfDashes(s);
      }
    }
  }

  // ---------------------------------------------------------------------------
  // Properties of `slugify`

  /** Without the loop: the slug is the cleaned text with dash runs squeezed
      and outer dashes stripped, or "asset" when that leaves nothing. */
  lemma SlugifyBySqueeze(value: string)
    ensures Slugify(value) ==
            (var t := StripBy(Squeeze(Clean(Strip(value))), IsDash); if t == [] then FallbackSlug else t)
  {
    CollapseLoopSqueezes(Clean(Strip(value)));
  }

  /** The letters and digits of the stripped input survive, lower-cased and in
      order; when there are none the slug is "asset". */
  lemma SlugifyKeepsAlnums(value: string)
    ensures Alnums(Strip(value)) != [] ==> Alnums(Slugify(value)) == Lower(Alnums(Strip(value)))
    ensures Alnums(Strip(value)) == [] ==> Slugify(value) == FallbackSlug
  {
    var cleaned := Clean(Strip(value));
    var collapsed := CollapseLoop(cleaned);
    CollapseLoopSqueezes(cleaned);
    SqueezeAlnums(cleaned);
    CleanAlnums(Strip(value));
    StripDashesAlnums(collapsed);
    CollapseKeepsChars(cleaned);
    NoAlnumsAllDashes(collapsed);
    var t := StripBy(collapsed, IsDash);
    if t == [] {
      assert forall i :: 0 <= i < |collapsed| ==> IsDash(collapsed[i]);
      assert forall i :: 0 <= i < |collapsed| ==> collapsed[i] == '-';
    }
  }

  /** A slug: non-empty, slug characters only, no adjacent dashes, no dash
      at either end. */
  predicate IsSlug(s: string) {
    s != [] && (forall i :: 0 <= i < |s| ==> IsSlugChar(s[i])) && NoDoubleDash(s)
    && s[0] != '-' && s[|s| - 1] != '-'
  }

  /** Every slug is its own slug, so `slugify` is idempotent. */
  lemma SlugFixed(r: string)
    requires IsSlug(r)
    ensures Slugify(r) == r
  {
    assert Strip(r) == r by {
      assert IsSlugChar(r[0]) && IsSlugChar(r[|r| - 1]);
    }
    assert Clean(r) == r by {
      forall i | 0 <= i < |r| ensures SlugChar(r[i]) == r[i] {
        assert IsSlugChar(r[i]);
      }
    }
    assert StripBy(r, IsDash) == r;
  }

  lemma SlugifyIdempotent(value: string)
    ensures Slugify(Slugify(value)) == Slugify(value)
  {
    SlugFixed(Slugify(value));
  }
}

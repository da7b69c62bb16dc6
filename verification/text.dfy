/** String helpers with the semantics of the Python and JavaScript built-ins the
    system uses: `str.strip`, `str.lower`, `str.endswith`, `in`, `str.split()`,
    `sep.join`, `str(n)` and zero-padded integer formatting.

    Strings are sequences of Unicode scalar values.  Case mapping and the
    alphanumeric test cover ASCII only. */
module Text {

  // ---------------------------------------------------------------------------
  // Character classes

  /** Python's `str.isspace()` for one code point: the characters that
      `str.strip()` and `str.split()` treat as whitespace. */
  predicate IsPySpace(c: char) {
    var k := c as int;
    k == 0x20 || (0x09 <= k <= 0x0d) || (0x1c <= k <= 0x1f) || k == 0x85 || k == 0xa0
    || k == 0x1680 || (0x2000 <= k <= 0x200a) || k == 0x2028 || k == 0x2029
    || k == 0x202f || k == 0x205f || k == 0x3000
  }

  predicate IsAsciiLower(c: char) { 'a' <= c <= 'z' }

  predicate IsAsciiUpper(c: char) { 'A' <= c <= 'Z' }

  predicate IsDigit(c: char) { '0' <= c <= '9' }

  /** `str.isalnum()` restricted to ASCII letters and digits. */
  predicate IsAsciiAlnum(c: char) { IsAsciiLower(c) || IsAsciiUpper(c) || IsDigit(c) }

  /** `str.lower()` on one character, ASCII letters only. */
  function LowerChar(c: char): (r: char)
    ensures IsAsciiUpper(c) ==> IsAsciiLower(r)
    ensures !IsAsciiUpper(c) ==> r == c
    ensures IsAsciiAlnum(c) <==> IsAsciiAlnum(r)
  {
    if IsAsciiUpper(c) then (c as int + 32) as char else c
  }

  function Lower(s: string): (r: string)
    ensures |r| == |s|
    ensures forall i :: 0 <= i < |s| ==> r[i] == LowerChar(s[i])
  {
    seq(|s|, i requires 0 <= i < |s| => LowerChar(s[i]))
  }

  // ---------------------------------------------------------------------------
  // Stripping

  /** Number of leading elements satisfying `drop`. */
  function LeadCount<T>(s: seq<T>, drop: T -> bool): (k: nat)
    ensures k <= |s|
    ensures forall i :: 0 <= i < k ==> drop(s[i])
    ensures k < |s| ==> !drop(s[k])
  {
    if |s| == 0 || !drop(s[0]) then 0 else 1 + LeadCount(s[1..], drop)
  }

  /** Number of trailing elements satisfying `drop`. */
  function TrailCount<T>(s: seq<T>, drop: T -> bool): (k: nat)
    ensures k <= |s|
    ensures forall i :: |s| - k <= i < |s| ==> drop(s[i])
    ensures k < |s| ==> !drop(s[|s| - k - 1])
  {
    if |s| == 0 || !drop(s[|s| - 1]) then 0 else 1 + TrailCount(s[..|s| - 1], drop)
  }

  /** Removes every leading and trailing element satisfying `drop`
      (Python's `s.strip(chars)`). */
  function StripBy<T>(s: seq<T>, drop: T -> bool): (r: seq<T>)
    ensures |r| <= |s|
    ensures |r| > 0 ==> !drop(r[0]) && !drop(r[|r| - 1])
    ensures (forall i :: 0 <= i < |s| ==> drop(s[i])) <==> r == []
    ensures |s| > 0 && !drop(s[0]) && !drop(s[|s| - 1]) ==> r == s
    ensures LeadCount(s, drop) + |r| <= |s|
    ensures r == s[LeadCount(s, drop)..LeadCount(s, drop) + |r|]
    ensures forall i :: LeadCount(s, drop) + |r| <= i < |s| ==> drop(s[i])
  {
    var a := LeadCount(s, drop);
    if a == |s| then
      []
    else
      var b := TrailCount(s, drop);
      assert a < |s| - b;
      s[a..|s| - b]
  }

  /** Stripping removes exactly the padding around a core that starts and
      ends with elements that are kept. */
  lemma StripByPadded<T>(pre: seq<T>, core: seq<T>, post: seq<T>, drop: T -> bool)
    requires forall i :: 0 <= i < |pre| ==> drop(pre[i])
    requires forall i :: 0 <= i < |post| ==> drop(post[i])
    requires |core| > 0 && !drop(core[0]) && !drop(core[|core| - 1])
    ensures StripBy(pre + core + post, drop) == core
  {
    var s := pre + core + post;
    var r := StripBy(s, drop);
    var a := LeadCount(s, drop);
    assert s[|pre|] == core[0];
    assert s[|pre| + |core| - 1] == core[|core| - 1];
    assert a == |pre|;
    assert r != [];
    assert a + |r| == |pre| + |core|;
    assert s[|pre|..|pre| + |core|] == core;
  }

  /** Python's `str.strip()` with no argument. */
  function Strip(s: string): (r: string)
    ensures |r| <= |s|
    ensures |r| > 0 ==> !IsPySpace(r[0]) && !IsPySpace(r[|r| - 1])
  {
    StripBy(s, IsPySpace)
  }

  // ---------------------------------------------------------------------------
  // Searching

  /** Python's `s.endswith(suffix)`. */
  predicate EndsWith<T(==)>(s: seq<T>, suffix: seq<T>) {
    |suffix| <= |s| && s[|s| - |suffix|..] == suffix
  }

  /** Python's `needle in s` for strings: `needle` occurs as a contiguous block. */
  predicate Contains<T(==)>(s: seq<T>, needle: seq<T>)
    decreases |s|
  {
    if |needle| > |s| then false
    else if s[..|needle|] == needle then true
    else Contains(s[1..], needle)
  }

  /** A needle whose first element does not occur before the last `|needle| - 1`
      positions of a sequence is not contained in it. */
  lemma {:induction false} NotContainedBeforeTail<T>(p: seq<T>, q: seq<T>, needle: seq<T>)
    requires |q| < |needle| && needle[0] !in p
    ensures !Contains(p + q, needle)
    decreases |p|
  {
    if |needle| <= |p + q| {
      assert (p + q)[..|needle|][0] == p[0];
      assert (p + q)[1..] == p[1..] + q;
      NotContainedBeforeTail(p[1..], q, needle);
    }
  }

  /** `needle` occurs in `s` starting at position `i`. */
  predicate OccursAt<T(==)>(s: seq<T>, needle: seq<T>, i: int) {
    0 <= i <= |s| - |needle| && s[i..i + |needle|] == needle
  }

  /** `Contains` holds exactly when some position starts an occurrence. */
  lemma {:induction false} ContainsAt<T>(s: seq<T>, needle: seq<T>)
    ensures Contains(s, needle) <==> exists i :: OccursAt(s, needle, i)
    decreases |s|
  {
    if |needle| > |s| {
    } else if s[..|needle|] == needle {
      assert OccursAt(s, needle, 0);
    } else {
      ContainsAt(s[1..], needle);
      if Contains(s, needle) {
        var i :| OccursAt(s[1..], needle, i);
        assert s[1..][i..i + |needle|] == s[i + 1..i + 1 + |needle|];
        assert OccursAt(s, needle, i + 1);
      }
      if exists i :: OccursAt(s, needle, i) {
        var i :| OccursAt(s, needle, i);
        assert i != 0;
        assert s[1..][i - 1..i - 1 + |needle|] == s[i..i + |needle|];
        assert OccursAt(s[1..], needle, i - 1);
      }
    }
  }

  /** Index of the first element equal to `x`, or `|s|` when there is none. */
  function IndexOf<T(==)>(s: seq<T>, x: T): (k: nat)
    ensures k <= |s|
    ensures k < |s| ==> s[k] == x
    ensures forall i :: 0 <= i < k ==> s[i] != x
  {
    if |s| == 0 then 0 else if s[0] == x then 0 else 1 + IndexOf(s[1..], x)
  }

  // ---------------------------------------------------------------------------
  // Joining and splitting

  /** Python's `sep.join(parts)` and JavaScript's `parts.join(sep)`. */
  function Join<T>(parts: seq<seq<T>>, sep: seq<T>): seq<T>
  {
    if |parts| == 0 then []
    else if |parts| == 1 then parts[0]
    else parts[0] + sep + Join(parts[1..], sep)
  }

  /** Splits `s` at every occurrence of `sep` (Python's `s.split(sep)` for a
      one-element separator). */
  function SplitOn<T(==)>(s: seq<T>, sep: T): (r: seq<seq<T>>)
    ensures |r| >= 1
    ensures forall j :: 0 <= j < |r| ==> sep !in r[j]
    decreases |s|
  {
    var k := IndexOf(s, sep);
    if k == |s| then [s] else [s[..k]] + SplitOn(s[k + 1..], sep)
  }

  /** Appending a part to a non-empty join adds one separator and the part. */
  lemma JoinAppend<T>(parts: seq<seq<T>>, p: seq<T>, sep: seq<T>)
    requires |parts| >= 1
    ensures Join(parts + [p], sep) == Join(parts, sep) + sep + p
  {
    if |parts| == 1 {
      assert parts + [p] == [parts[0], p];
    } else {
      assert (parts + [p])[1..] == parts[1..] + [p];
      JoinAppend(parts[1..], p, sep);
    }
  }

  /** A part that starts with the separator reads, after joining, like an
      empty part followed by the rest of it. */
  lemma JoinLeadingSeparator<T>(front: seq<seq<T>>, x: seq<T>, y: seq<T>, sep: seq<T>)
    requires |front| >= 1
    ensures Join(front + [sep + x, y], sep) == Join(front + [[], x, y], sep)
  {
    JoinConcat(front, [sep + x, y], sep);
    JoinConcat(front, [[], x, y], sep);
    JoinLeadingSeparatorPair(x, y, sep);
  }

  lemma JoinLeadingSeparatorPair<T>(x: seq<T>, y: seq<T>, sep: seq<T>)
    ensures Join([sep + x, y], sep) == Join([[], x, y], sep)
  {
    assert [sep + x, y][1..] == [y];
    assert [[], x, y][1..] == [x, y];
    assert [x, y][1..] == [y];
  }

  /** A join starts with its first part. */
  lemma JoinStartsWithFirst<T>(parts: seq<seq<T>>, sep: seq<T>)
    requires |parts| >= 1
    ensures |parts[0]| <= |Join(parts, sep)| && Join(parts, sep)[..|parts[0]|] == parts[0]
  {
  }

  lemma JoinFour<T>(a: seq<T>, b: seq<T>, c: seq<T>, d: seq<T>, sep: seq<T>)
    ensures Join([a, b, c, d], sep) == a + sep + b + sep + c + sep + d
  {
    assert [c, d][1..] == [d];
    assert Join([c, d], sep) == c + sep + d;
    assert [b, c, d][1..] == [c, d];
    assert Join([b, c, d], sep) == b + sep + (c + sep + d);
    assert [a, b, c, d][1..] == [b, c, d];
    assert Join([a, b, c, d], sep) == a + sep + (b + sep + (c + sep + d));
  }

  /** A slice lying wholly in the second part of a concatenation. */
  lemma SliceOfConcat<T>(a: seq<T>, b: seq<T>, lo: nat, hi: nat)
    requires |a| <= lo <= hi <= |a| + |b|
    ensures (a + b)[lo..hi] == b[lo - |a|..hi - |a|]
  {
  }

  /** Consecutive groups of `m` elements: group `k` is found at `m * k`. */
  lemma {:induction false} FlattenAt<T>(xs: seq<seq<T>>, m: nat, k: nat)
    requires forall j :: 0 <= j < |xs| ==> |xs[j]| == m
    requires k < |xs|
    ensures m * k + m <= |Flatten(xs)|
    ensures Flatten(xs)[m * k..m * k + m] == xs[k]
    decreases k
  {
    var rest := Flatten(xs[1..]);
    assert Flatten(xs) == xs[0] + rest;
    if k > 0 {
      FlattenAt(xs[1..], m, k - 1);
      var lo := m * (k - 1);
      MulStep(m, k);
      SliceOfConcat(xs[0], rest, m + lo, m + lo + m);
    }
  }

  lemma MulStep(m: nat, k: nat)
    requires k > 0
    ensures m * k == m + m * (k - 1)
  {
  }

  lemma {:induction false} FlattenLength<T>(xs: seq<seq<T>>, m: nat)
    requires forall j :: 0 <= j < |xs| ==> |xs[j]| == m
    ensures |Flatten(xs)| == m * |xs|
  {
    if |xs| > 0 {
      FlattenLength(xs[1..], m);
      MulStep(m, |xs|);
    }
  }

  /** A separator found in none of the groups' parts is in none of the
      flattened parts. */
  lemma {:induction false} FlattenAvoids<T>(xs: seq<seq<seq<T>>>, sep: T)
    requires forall k, i :: 0 <= k < |xs| && 0 <= i < |xs[k]| ==> sep !in xs[k][i]
    ensures forall j :: 0 <= j < |Flatten(xs)| ==> sep !in Flatten(xs)[j]
  {
    if |xs| > 0 {
      FlattenAvoids(xs[1..], sep);
      var rest := Flatten(xs[1..]);
      assert Flatten(xs) == xs[0] + rest;
      forall j | 0 <= j < |Flatten(xs)| ensures sep !in Flatten(xs)[j] {
        if j >= |xs[0]| {
          assert Flatten(xs)[j] == rest[j - |xs[0]|];
        }
      }
    }
  }

  /** Joining the joins of non-empty groups is joining all their parts. */
  lemma {:induction false} JoinOfJoins<T>(ys: seq<seq<T>>, xss: seq<seq<seq<T>>>, sep: seq<T>)
    requires |ys| == |xss| >= 1
    requires forall j :: 0 <= j < |xss| ==> |xss[j]| >= 1 && ys[j] == Join(xss[j], sep)
    ensures Join(ys, sep) == Join(Flatten(xss), sep)
  {
    if |xss| == 1 {
      assert Flatten(xss[1..]) == [];
      assert Flatten(xss) == xss[0] + [];
      assert xss[0] + [] == xss[0];
    } else {
      JoinOfJoins(ys[1..], xss[1..], sep);
      assert |Flatten(xss[1..])| >= 1;
      JoinConcat(xss[0], Flatten(xss[1..]), sep);
    }
  }

  /** Joining groups of lines, each joined by the separator, and splitting
      the result at the separator gives back the lines of all groups, provided
      no line holds the separator. */
  lemma SplitJoinOfJoins<T>(ys: seq<seq<T>>, xss: seq<seq<seq<T>>>, sep: T)
    requires |ys| == |xss| >= 1
    requires forall j :: 0 <= j < |xss| ==> |xss[j]| >= 1 && ys[j] == Join(xss[j], [sep])
    requires forall k, i :: 0 <= k < |xss| && 0 <= i < |xss[k]| ==> sep !in xss[k][i]
    ensures SplitOn(Join(ys, [sep]), sep) == Flatten(xss)
  {
    JoinOfJoins(ys, xss, [sep]);
    FlattenAvoids(xss, sep);
    assert Flatten(xss) == xss[0] + Flatten(xss[1..]);
    SplitJoin(Flatten(xss), sep);
  }

  /** Joining two non-empty lists of parts is joining each and putting one
      separator between. */
  lemma {:induction false} JoinConcat<T>(a: seq<seq<T>>, b: seq<seq<T>>, sep: seq<T>)
    requires |a| >= 1 && |b| >= 1
    ensures Join(a + b, sep) == Join(a, sep) + sep + Join(b, sep)
    decreases |a|
  {
    if |a| == 1 {
      assert (a + b)[1..] == b;
    } else {
      assert (a + b)[1..] == a[1..] + b;
      JoinConcat(a[1..], b, sep);
    }
  }

  /** Splitting a join at a separator that no part contains recovers the parts. */
  lemma {:induction false} SplitJoin<T>(parts: seq<seq<T>>, sep: T)
    requires |parts| >= 1
    requires forall j :: 0 <= j < |parts| ==> sep !in parts[j]
    ensures SplitOn(Join(parts, [sep]), sep) == parts
  {
    if |parts| == 1 {
      IndexOfAbsent(parts[0], sep);
    } else {
      var s := Join(parts, [sep]);
      assert s == parts[0] + [sep] + Join(parts[1..], [sep]);
      IndexOfAfterPrefix(parts[0], Join(parts[1..], [sep]), sep);
      assert s[|parts[0]| + 1..] == Join(parts[1..], [sep]);
      assert s[..|parts[0]|] == parts[0];
      SplitJoin(parts[1..], sep);
    }
  }

  /** Joining the pieces of a split with the separator recovers the input. */
  lemma {:induction false} JoinSplit<T>(s: seq<T>, sep: T)
    ensures Join(SplitOn(s, sep), [sep]) == s
    decreases |s|
  {
    var k := IndexOf(s, sep);
    if k < |s| {
      JoinSplit(s[k + 1..], sep);
      var rest := SplitOn(s[k + 1..], sep);
      assert SplitOn(s, sep) == [s[..k]] + rest;
      assert ([s[..k]] + rest)[1..] == rest;
      assert s == s[..k] + [sep] + s[k + 1..];
    }
  }

  lemma IndexOfAbsent<T>(s: seq<T>, x: T)
    requires x !in s
    ensures IndexOf(s, x) == |s|
  {
  }

  lemma {:induction false} IndexOfAfterPrefix<T>(p: seq<T>, rest: seq<T>, x: T)
    requires x !in p
    ensures IndexOf(p + [x] + rest, x) == |p|
  {
    if |p| > 0 {
      assert (p + [x] + rest)[1..] == p[1..] + [x] + rest;
      IndexOfAfterPrefix(p[1..], rest, x);
    }
  }

  // ---------------------------------------------------------------------------
  // Words (Python's `str.split()` with no argument, JavaScript's
  // `s.split(/\s+/).filter(Boolean)`)

  /** A word: non-empty, with no element that `isSpace` accepts. */
  predicate IsWord<T>(w: seq<T>, isSpace: T -> bool) {
    |w| > 0 && forall i :: 0 <= i < |w| ==> !isSpace(w[i])
  }

  /** `f` applied to every element, the results concatenated in order. */
  function FlatMap<A, B>(xs: seq<A>, f: A -> seq<B>): seq<B> {
    if |xs| == 0 then [] else f(xs[0]) + FlatMap(xs[1..], f)
  }

  lemma {:induction false} FlatMapAppend<A, B>(a: seq<A>, b: seq<A>, f: A -> seq<B>)
    ensures FlatMap(a + b, f) == FlatMap(a, f) + FlatMap(b, f)
  {
    if |a| == 0 {
      assert a + b == b;
    } else {
      assert (a + b)[1..] == a[1..] + b;
      FlatMapAppend(a[1..], b, f);
    }
  }

  /** Element `m` of a flat map is element `i` of the image of some `xs[k]`. */
  lemma {:induction false} FlatMapIndex<A, B>(xs: seq<A>, f: A -> seq<B>, m: nat) returns (k: nat, i: nat)
    requires m < |FlatMap(xs, f)|
    ensures k < |xs| && i < |f(xs[k])|
    ensures FlatMap(xs, f)[m] == f(xs[k])[i]
  {
    var head := f(xs[0]);
    if m < |head| {
      k, i := 0, m;
    } else {
      var k', i' := FlatMapIndex(xs[1..], f, m - |head|);
      assert xs[1..][k'] == xs[k' + 1];
      k, i := k' + 1, i';
    }
  }

  /** Concatenation of a sequence of sequences. */
  function Flatten<T>(xs: seq<seq<T>>): seq<T> {
    if |xs| == 0 then [] else xs[0] + Flatten(xs[1..])
  }

  /** The input with every element that `isSpace` accepts removed. */
  function RemoveSpaces<T>(s: seq<T>, isSpace: T -> bool): seq<T> {
    if |s| == 0 then [] else (if isSpace(s[0]) then [] else [s[0]]) + RemoveSpaces(s[1..], isSpace)
  }

  /** Length of the leading run of non-space elements. */
  function WordEnd<T>(s: seq<T>, isSpace: T -> bool): (k: nat)
    ensures k <= |s|
    ensures forall i :: 0 <= i < k ==> !isSpace(s[i])
    ensures k < |s| ==> isSpace(s[k])
  {
    if |s| == 0 || isSpace(s[0]) then 0 else 1 + WordEnd(s[1..], isSpace)
  }

  lemma {:induction false} WordEndAfterWord<T>(w: seq<T>, tail: seq<T>, isSpace: T -> bool)
    requires forall i :: 0 <= i < |w| ==> !isSpace(w[i])
    requires |tail| > 0 ==> isSpace(tail[0])
    ensures WordEnd(w + tail, isSpace) == |w|
  {
    if |w| > 0 {
      assert (w + tail)[1..] == w[1..] + tail;
      WordEndAfterWord(w[1..], tail, isSpace);
    } else {
      assert w + tail == tail;
    }
  }

  /** The maximal runs of non-space elements, in order. */
  function WordsBy<T>(s: seq<T>, isSpace: T -> bool): (ws: seq<seq<T>>)
    ensures forall j :: 0 <= j < |ws| ==> IsWord(ws[j], isSpace)
    decreases |s|
  {
    if |s| == 0 then []
    else if isSpace(s[0]) then WordsBy(s[1..], isSpace)
    else
      var k := WordEnd(s, isSpace);
      [s[..k]] + WordsBy(s[k..], isSpace)
  }

  /** Removing the spaces from the input yields exactly the words, back to back. */
  lemma {:induction false} WordsCoverInput<T>(s: seq<T>, isSpace: T -> bool)
    ensures Flatten(WordsBy(s, isSpace)) == RemoveSpaces(s, isSpace)
    decreases |s|
  {
    if |s| == 0 {
    } else if isSpace(s[0]) {
      WordsCoverInput(s[1..], isSpace);
    } else {
      var k := WordEnd(s, isSpace);
      WordsCoverInput(s[k..], isSpace);
      RemoveSpacesOfWord(s[..k], isSpace);
      RemoveSpacesAppend(s[..k], s[k..], isSpace);
      assert s == s[..k] + s[k..];
      var ws := WordsBy(s, isSpace);
      assert ws == [s[..k]] + WordsBy(s[k..], isSpace);
      assert ws[1..] == WordsBy(s[k..], isSpace);
    }
  }

  /** An input made only of spaces has no words. */
  lemma {:induction false} WordsOfBlank<T>(s: seq<T>, isSpace: T -> bool)
    requires forall i :: 0 <= i < |s| ==> isSpace(s[i])
    ensures WordsBy(s, isSpace) == []
    decreases |s|
  {
    if |s| > 0 {
      WordsOfBlank(s[1..], isSpace);
    }
  }

  /** Words joined by one space split back into the same words. */
  lemma {:induction false} WordsOfJoin<T>(ws: seq<seq<T>>, sp: T, isSpace: T -> bool)
    requires isSpace(sp)
    requires forall j :: 0 <= j < |ws| ==> IsWord(ws[j], isSpace)
    ensures WordsBy(Join(ws, [sp]), isSpace) == ws
  {
    if |ws| == 0 {
    } else if |ws| == 1 {
      WordsOfWord(ws[0], [], isSpace);
      assert ws[0] + [] == ws[0];
      assert ws == [ws[0]];
    } else {
      var rest := Join(ws[1..], [sp]);
      assert Join(ws, [sp]) == ws[0] + ([sp] + rest);
      WordsOfWord(ws[0], [sp] + rest, isSpace);
      assert ([sp] + rest)[1..] == rest;
      WordsOfJoin(ws[1..], sp, isSpace);
    }
  }

  /** A word followed by nothing or by a space is read as that word. */
  lemma WordsOfWord<T>(w: seq<T>, tail: seq<T>, isSpace: T -> bool)
    requires IsWord(w, isSpace)
    requires |tail| > 0 ==> isSpace(tail[0])
    ensures WordsBy(w + tail, isSpace) == [w] + WordsBy(if |tail| == 0 then [] else tail[1..], isSpace)
  {
    var s := w + tail;
    WordEndAfterWord(w, tail, isSpace);
    var k := WordEnd(s, isSpace);
    assert s[..k] == w && s[k..] == tail;
  }

  /** An element that is not a space survives the removal of spaces. */
  lemma {:induction false} RemoveSpacesKeeps<T>(s: seq<T>, i: nat, isSpace: T -> bool)
    requires i < |s| && !isSpace(s[i])
    ensures RemoveSpaces(s, isSpace) != []
  {
    if i > 0 && isSpace(s[0]) {
      RemoveSpacesKeeps(s[1..], i - 1, isSpace);
    }
  }

  lemma {:induction false} RemoveSpacesOfWord<T>(w: seq<T>, isSpace: T -> bool)
    requires forall i :: 0 <= i < |w| ==> !isSpace(w[i])
    ensures RemoveSpaces(w, isSpace) == w
  {
    if |w| > 0 {
      RemoveSpacesOfWord(w[1..], isSpace);
    }
  }

  lemma {:induction false} RemoveSpacesAppend<T>(a: seq<T>, b: seq<T>, isSpace: T -> bool)
    ensures RemoveSpaces(a + b, isSpace) == RemoveSpaces(a, isSpace) + RemoveSpaces(b, isSpace)
  {
    if |a| > 0 {
      assert (a + b)[1..] == a[1..] + b;
      RemoveSpacesAppend(a[1..], b, isSpace);
    } else {
      assert a + b == b;
    }
  }

  // ---------------------------------------------------------------------------
  // Decimal numbers

  function Digit(d: nat): (c: char)
    requires d < 10
    ensures IsDigit(c)
  {
    ('0' as int + d) as char
  }

  function DigitValue(c: char): int { c as int - '0' as int }

  predicate AllDigits(s: string) { forall i :: 0 <= i < |s| ==> IsDigit(s[i]) }

  /** Python's `str(n)` / JavaScript's `String(n)` for a non-negative integer. */
  function NatToDecimal(n: nat): (s: string)
    ensures |s| >= 1 && AllDigits(s)
    ensures n > 0 ==> s[0] != '0'
    decreases n
  {
    if n < 10 then [Digit(n)] else NatToDecimal(n / 10) + [Digit(n % 10)]
  }

  /** `str(n)` for any integer: a minus sign then the digits of `|n|`. */
  function IntToDecimal(n: int): string {
    if n < 0 then "-" + NatToDecimal(-n) else NatToDecimal(n)
  }

  /** The value of a string of decimal digits. */
  function DecimalValue(s: string): int {
    if |s| == 0 then 0 else DecimalValue(s[..|s| - 1]) * 10 + DigitValue(s[|s| - 1])
  }

  /** Reading back the digits of `n` gives `n`. */
  lemma {:induction false} DecimalRoundTrip(n: nat)
    ensures DecimalValue(NatToDecimal(n)) == n
    decreases n
  {
    if n >= 10 {
      DecimalRoundTrip(n / 10);
      var s := NatToDecimal(n);
      assert s[..|s| - 1] == NatToDecimal(n / 10);
    }
  }

  /** `count` copies of `c`. */
  function Repeat<T>(c: T, count: nat): (r: seq<T>)
    ensures |r| == count
    ensures forall i :: 0 <= i < count ==> r[i] == c
  {
    seq(count, _ => c)
  }

  /** Left-pads `s` with `'0'` up to `width` (Python's `{:0Nd}` on a digit
      string, JavaScript's `padStart(width, "0")`). */
  function ZeroPad(s: string, width: nat): (r: string)
    ensures |r| == if |s| >= width then |s| else width
    ensures r[|r| - |s|..] == s
    ensures forall i :: 0 <= i < |r| - |s| ==> r[i] == '0'
  {
    if |s| >= width then s else Repeat('0', width - |s|) + s
  }

  /** Leading zeros do not change a decimal value. */
  lemma {:induction false} DecimalValueZeroPad(s: string, width: nat)
    ensures DecimalValue(ZeroPad(s, width)) == DecimalValue(s)
    decreases |s|
  {
    if |s| < width {
      LeadingZeros(Repeat('0', width - |s|), s);
    }
  }

  lemma {:induction false} LeadingZeros(z: string, s: string)
    requires forall i :: 0 <= i < |z| ==> z[i] == '0'
    ensures DecimalValue(z + s) == DecimalValue(s)
    decreases |s|
  {
    if |s| == 0 {
      assert z + s == z;
      AllZeros(z);
    } else {
      assert (z + s)[..|z + s| - 1] == z + s[..|s| - 1];
      LeadingZeros(z, s[..|s| - 1]);
    }
  }

  lemma {:induction false} AllZeros(z: string)
    requires forall i :: 0 <= i < |z| ==> z[i] == '0'
    ensures DecimalValue(z) == 0
  {
    if |z| > 0 {
      AllZeros(z[..|z| - 1]);
    }
  }

  /** Python's `f"{n:0{width}d}"`: the sign comes first and counts toward the width. */
  function PyFormatInt(n: int, width: nat): string {
    if n < 0 then "-" + ZeroPad(NatToDecimal(-n), if width >= 1 then width - 1 else 0)
    else ZeroPad(NatToDecimal(n), width)
  }

  /** For a non-negative value the field is `width` or more digits that read back as the value. */
  lemma PyFormatIntNat(n: nat, width: nat)
    ensures AllDigits(PyFormatInt(n, width))
    ensures |PyFormatInt(n, width)| >= width
    ensures DecimalValue(PyFormatInt(n, width)) == n
  {
    DecimalRoundTrip(n);
    DecimalValueZeroPad(NatToDecimal(n), width);
  }

  function Pow10(k: nat): (p: nat)
    ensures p >= 1
  {
    if k == 0 then 1 else 10 * Pow10(k - 1)
  }

  /** A value below `10^k` has at most `k` digits. */
  lemma {:induction false} DecimalLength(n: nat, k: nat)
    requires 1 <= k && n < Pow10(k)
    ensures |NatToDecimal(n)| <= k
    decreases k
  {
    assert Pow10(1) == 10;
    if n >= 10 {
      DecimalLength(n / 10, k - 1);
    }
  }

  /** A field of `f"{n:0{width}d}"` for `0 <= n < 10^width` has exactly `width` digits. */
  lemma PyFormatIntWidth(n: nat, width: nat)
    requires 1 <= width && n < Pow10(width)
    ensures |PyFormatInt(n, width)| == width
  {
    DecimalLength(n, width);
  }

  /** Every character of a formatted integer is a digit or the minus sign. */
  lemma PyFormatIntChars(n: int, width: nat)
    ensures forall i :: 0 <= i < |PyFormatInt(n, width)| ==>
              IsDigit(PyFormatInt(n, width)[i]) || PyFormatInt(n, width)[i] == '-'
  {
    var d := NatToDecimal(if n < 0 then -n else n);
    var z := ZeroPad(d, if n < 0 && width >= 1 then width - 1 else if n < 0 then 0 else width);
    assert forall i :: 0 <= i < |z| ==> IsDigit(z[i]) by {
      forall i | 0 <= i < |z| ensures IsDigit(z[i]) {
        if i >= |z| - |d| {
          assert z[i] == z[|z| - |d|..][i - (|z| - |d|)];
        }
      }
    }
  }
}

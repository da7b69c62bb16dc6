/** Python's string order and `json.dumps(..., sort_keys=True)`: before a
    value is serialised, the members of every object, at every depth, are
    put in ascending key order.  Keys of a Python dict are distinct, so the
    order of the members a dict was built with never shows in the text. */
module SortedJson {
  import opened JsonValues

  /** Python's `a <= b` on strings: lexicographic by code point. */
  predicate StrLe(a: string, b: string)
    decreases |a|
  {
    if |a| == 0 then true
    else if |b| == 0 then false
    else if a[0] != b[0] then a[0] < b[0]
    else StrLe(a[1..], b[1..])
  }

  lemma {:induction false} StrLeTotal(a: string, b: string)
    ensures StrLe(a, b) || StrLe(b, a)
    decreases |a|
  {
    if |a| > 0 && |b| > 0 && a[0] == b[0] {
      StrLeTotal(a[1..], b[1..]);
    }
  }

  lemma {:induction false} StrLeAntisymmetric(a: string, b: string)
    requires StrLe(a, b) && StrLe(b, a)
    ensures a == b
    decreases |a|
  {
    if |a| > 0 && |b| > 0 {
      StrLeAntisymmetric(a[1..], b[1..]);
      assert a == [a[0]] + a[1..] && b == [b[0]] + b[1..];
    }
  }

  lemma {:induction false} StrLeTransitive(a: string, b: string, c: string)
    requires StrLe(a, b) && StrLe(b, c)
    ensures StrLe(a, c)
    decreases |a|
  {
    if |a| > 0 && |b| > 0 && |c| > 0 && a[0] == b[0] && b[0] == c[0] {
      StrLeTransitive(a[1..], b[1..], c[1..]);
    }
  }

  // ---------------------------------------------------------------------------
  // Sorting the members of one object

  predicate KeysOrdered(ms: seq<Member>) {
    forall i, j :: 0 <= i < j < |ms| ==> StrLe(ms[i].key, ms[j].key)
  }

  /** No two members share a key, as in every Python dict. */
  predicate DistinctKeys(ms: seq<Member>) {
    forall i, j :: 0 <= i < j < |ms| ==> ms[i].key != ms[j].key
  }

  lemma PrependOrdered(m: Member, ms: seq<Member>)
    requires KeysOrdered(ms)
    requires forall j :: 0 <= j < |ms| ==> StrLe(m.key, ms[j].key)
    ensures KeysOrdered([m] + ms)
  {
    var r := [m] + ms;
    forall i, j | 0 <= i < j < |r| ensures StrLe(r[i].key, r[j].key) {
      if i > 0 {
        assert r[i] == ms[i - 1] && r[j] == ms[j - 1];
      }
    }
  }

  /** Inserts `m` before the first member whose key is not below its own. */
  function InsertMember(ms: seq<Member>, m: Member): (r: seq<Member>)
    requires KeysOrdered(ms)
    ensures KeysOrdered(r)
    ensures multiset(r) == multiset(ms) + multiset{m}
  {
    if |ms| == 0 then [m]
    else if StrLe(m.key, ms[0].key) then
      forall j | 0 <= j < |ms| ensures StrLe(m.key, ms[j].key) {
        if j > 0 { StrLeTransitive(m.key, ms[0].key, ms[j].key); }
      }
      PrependOrdered(m, ms);
      [m] + ms
    else
      StrLeTotal(m.key, ms[0].key);
      var rest := InsertMember(ms[1..], m);
      assert ms == [ms[0]] + ms[1..];
      forall j | 0 <= j < |rest| ensures StrLe(ms[0].key, rest[j].key) {
        assert rest[j] in multiset(rest);
      }
      PrependOrdered(ms[0], rest);
      [ms[0]] + rest
  }

  /** `sorted(d.items())` on the members of an object. */
  function SortMembers(ms: seq<Member>): (r: seq<Member>)
    ensures KeysOrdered(r)
    ensures multiset(r) == multiset(ms)
  {
    if |ms| == 0 then []
    else
      assert ms == [ms[0]] + ms[1..];
      InsertMember(SortMembers(ms[1..]), ms[0])
  }

  /** Among these members a key names one member only: members may repeat,
      but never two different members with one key. */
  predicate KeyFixesMember(ms: seq<Member>) {
    forall i, j :: 0 <= i < |ms| && 0 <= j < |ms| && ms[i].key == ms[j].key ==> ms[i] == ms[j]
  }

  /** The property depends only on which members there are. */
  lemma KeyFixesMemberPermutes(a: seq<Member>, b: seq<Member>)
    requires KeyFixesMember(a) && multiset(a) == multiset(b)
    ensures KeyFixesMember(b)
  {
    forall i, j | 0 <= i < |b| && 0 <= j < |b| && b[i].key == b[j].key ensures b[i] == b[j] {
      assert b[i] in multiset(a) && b[j] in multiset(a);
      var p :| 0 <= p < |a| && a[p] == b[i];
      var q :| 0 <= q < |a| && a[q] == b[j];
    }
  }

  /** Two key-ordered lists holding the same members, among which a key names
      one member only, are equal: the key order leaves no choice. */
  lemma {:induction false} OrderedUnique(a: seq<Member>, b: seq<Member>)
    requires KeysOrdered(a) && KeysOrdered(b) && KeyFixesMember(a)
    requires multiset(a) == multiset(b)
    ensures a == b
  {
    if |a| == 0 {
      assert |b| == |multiset(b)| == 0;
    } else {
      assert |b| == |multiset(b)| == |multiset(a)| == |a|;
      OrderedHeadsEqual(a, b);
      MembersTail(a);
      MembersTail(b);
      assert multiset(a[1..]) == multiset(b[1..]);
      assert KeyFixesMember(a[1..]) by {
        assert forall i :: 0 <= i < |a| - 1 ==> a[1..][i] == a[i + 1];
      }
      OrderedUnique(a[1..], b[1..]);
      assert a == [a[0]] + a[1..];
      assert b == [b[0]] + b[1..];
    }
  }

  /** Two non-empty key-ordered lists holding the same members start alike. */
  lemma OrderedHeadsEqual(a: seq<Member>, b: seq<Member>)
    requires KeysOrdered(a) && KeysOrdered(b) && KeyFixesMember(a)
    requires multiset(a) == multiset(b) && |a| > 0 && |b| > 0
    ensures a[0] == b[0]
  {
    assert a[0] in multiset(b);
    var k :| 0 <= k < |b| && b[k] == a[0];
    assert b[0] in multiset(a);
    var m :| 0 <= m < |a| && a[m] == b[0];
    assert StrLe(b[0].key, a[0].key) by {
      if k == 0 { StrLeTotal(a[0].key, a[0].key); }
    }
    assert StrLe(a[0].key, b[0].key) by {
      if m == 0 { StrLeTotal(a[0].key, a[0].key); }
    }
    StrLeAntisymmetric(a[0].key, b[0].key);
    assert a[m].key == a[0].key;
  }

  lemma MembersTail(a: seq<Member>)
    requires KeysOrdered(a) && |a| > 0
    ensures KeysOrdered(a[1..])
    ensures multiset(a[1..]) == multiset(a) - multiset{a[0]}
  {
    assert a == [a[0]] + a[1..];
    assert forall i :: 0 <= i < |a| - 1 ==> a[1..][i] == a[i + 1];
  }

  // ---------------------------------------------------------------------------
  // Sorting every object of a value

  /** The value `json.dumps(..., sort_keys=True)` writes out: arrays keep
      their order, objects have their members sorted by key, recursively. */
  function SortKeys(j: Json): (r: Json)
    ensures j.JArr? <==> r.JArr?
    ensures j.JObj? <==> r.JObj?
    ensures !j.JArr? && !j.JObj? ==> r == j
    ensures r.JArr? ==> |r.items| == |j.items|
    ensures r.JObj? ==> KeysOrdered(r.members) && |r.members| == |j.members|
    decreases j
  {
    match j
    case JArr(items) => JArr(seq(|items|, i requires 0 <= i < |items| => SortKeys(items[i])))
    case JObj(ms) =>
      var sorted := SortMembers(SortValues(ms));
      assert |sorted| == |multiset(sorted)| == |ms|;
      JObj(sorted)
    case _ => j
  }

  /** A member with the keys of its value sorted. */
  function SortMember(m: Member): (r: Member)
    ensures r.key == m.key
    decreases m
  {
    Member(m.key, SortKeys(m.value))
  }

  /** The members of an object, each with its value's keys sorted. */
  function SortValues(ms: seq<Member>): (r: seq<Member>)
    ensures |r| == |ms|
    ensures forall i :: 0 <= i < |ms| ==> r[i] == SortMember(ms[i])
    decreases ms
  {
    seq(|ms|, i requires 0 <= i < |ms| => SortMember(ms[i]))
  }

  /** Sorting the values' keys keeps the object's keys, so keeps them distinct. */
  lemma SortValuesDistinct(ms: seq<Member>)
    requires DistinctKeys(ms)
    ensures DistinctKeys(SortValues(ms))
  {
  }

  /** `f` applied to every member of a list. */
  function MapMembers(f: Member -> Member, ms: seq<Member>): (r: seq<Member>)
    ensures |r| == |ms|
    ensures forall i :: 0 <= i < |ms| ==> r[i] == f(ms[i])
  {
    seq(|ms|, i requires 0 <= i < |ms| => f(ms[i]))
  }

  lemma MapMembersConcat(f: Member -> Member, x: seq<Member>, y: seq<Member>)
    ensures MapMembers(f, x + y) == MapMembers(f, x) + MapMembers(f, y)
  {
  }

  /** Removing the element at `k` from a list holding `a[0]` and the rest of
      `a` leaves the rest of `a`. */
  lemma RemoveMatching(a: seq<Member>, b: seq<Member>, k: nat)
    requires multiset(a) == multiset(b) && |a| > 0 && k < |b| && b[k] == a[0]
    ensures multiset(a[1..]) == multiset(b[..k] + b[k + 1..])
  {
    assert a == [a[0]] + a[1..];
    assert b == b[..k] + [b[k]] + b[k + 1..];
    calc {
      multiset(a[1..]);
      multiset(a) - multiset{a[0]};
      multiset(b[..k]) + multiset{b[k]} + multiset(b[k + 1..]) - multiset{b[k]};
      multiset(b[..k]) + multiset(b[k + 1..]);
      multiset(b[..k] + b[k + 1..]);
    }
  }

  /** Mapping a function over two lists holding the same members gives two
      lists holding the same members. */
  lemma {:induction false} MapMembersPermutes(f: Member -> Member, a: seq<Member>, b: seq<Member>)
    requires multiset(a) == multiset(b)
    ensures multiset(MapMembers(f, a)) == multiset(MapMembers(f, b))
    decreases |a|
  {
    if |a| == 0 {
      assert |b| == |multiset(b)| == 0;
    } else {
      assert a[0] in multiset(b);
      var k :| 0 <= k < |b| && b[k] == a[0];
      var b1, b2 := b[..k], b[k + 1..];
      RemoveMatching(a, b, k);
      MapMembersPermutes(f, a[1..], b1 + b2);
      assert a == [a[0]] + a[1..];
      assert b == b1 + ([b[k]] + b2);
      MapMembersConcat(f, [a[0]], a[1..]);
      MapMembersConcat(f, b1, [b[k]] + b2);
      MapMembersConcat(f, [b[k]], b2);
      MapMembersConcat(f, b1, b2);
    }
  }

  /** Reordering the members of an object reorders the sorted members alike. */
  lemma SortValuesPermutes(a: seq<Member>, b: seq<Member>)
    requires multiset(a) == multiset(b)
    ensures multiset(SortValues(a)) == multiset(SortValues(b))
  {
    MapMembersPermutes(SortMember, a, b);
    assert SortValues(a) == MapMembers(SortMember, a);
    assert SortValues(b) == MapMembers(SortMember, b);
  }

  /** The written form of an object does not depend on the order of its
      members: two objects holding the same members, with distinct keys,
      serialise alike. */
  lemma SortKeysMemberOrder(a: seq<Member>, b: seq<Member>)
    requires multiset(a) == multiset(b) && DistinctKeys(a)
    ensures SortKeys(JObj(a)) == SortKeys(JObj(b))
  {
    var sa, sb := SortValues(a), SortValues(b);
    SortValuesPermutes(a, b);
    SortValuesDistinct(a);
    var oa, ob := SortMembers(sa), SortMembers(sb);
    assert KeyFixesMember(sa);
    KeyFixesMemberPermutes(sa, oa);
    OrderedUnique(oa, ob);
  }

  /** Replacing one member's value by one with the same sorted form leaves the
      sorted object unchanged. */
  lemma SortKeysReplaceValue(a: seq<Member>, b: seq<Member>, k: nat)
    requires |a| == |b| && k < |a|
    requires forall i :: 0 <= i < |a| && i != k ==> a[i] == b[i]
    requires a[k].key == b[k].key && SortKeys(a[k].value) == SortKeys(b[k].value)
    ensures SortKeys(JObj(a)) == SortKeys(JObj(b))
  {
    assert SortValues(a) == SortValues(b) by {
      forall i | 0 <= i < |a| ensures SortValues(a)[i] == SortValues(b)[i] {
        if i != k { assert a[i] == b[i]; }
      }
    }
  }
}

/** JSON values as Python's `json` module produces and consumes them.  An
    object is a list of members in insertion order; lookups take the first
    member with the key, which is the only one when keys are distinct. */
module JsonValues {
  import opened Wrappers

  datatype Json =
    | JNull
    | JBool(b: bool)
    | JInt(i: int)
    | JReal(r: real)
    | JStr(s: string)
    | JArr(items: seq<Json>)
    | JObj(members: seq<Member>)

  datatype Member = Member(key: string, value: Json)

  /** `key in obj` for a member list. */
  predicate HasKey(members: seq<Member>, key: string) {
    exists i :: 0 <= i < |members| && members[i].key == key
  }

  /** `obj.get(key)`: the value of the first member named `key`. */
  function Get(members: seq<Member>, key: string): (r: Option<Json>)
    ensures r.None? <==> !HasKey(members, key)
    ensures r.Some? ==> exists i :: 0 <= i < |members| && members[i] == Member(key, r.value)
  {
    if |members| == 0 then None
    else if members[0].key == key then Some(members[0].value)
    else
      var r := Get(members[1..], key);
      assert forall i :: 1 <= i < |members| ==> members[i] == members[1..][i - 1];
      assert HasKey(members[1..], key) ==> HasKey(members, key);
      r
  }

  /** Looking up a key stored at a position with no earlier member of that key
      returns the stored value. */
  lemma {:induction false} GetAt(members: seq<Member>, i: nat)
    requires i < |members|
    requires forall j :: 0 <= j < i ==> members[j].key != members[i].key
    ensures Get(members, members[i].key) == Some(members[i].value)
  {
    if i > 0 {
      GetAt(members[1..], i - 1);
    }
  }
}

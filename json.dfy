/**
 * The JSON document model of `System.Text.Json.Nodes`, and the in-place update of a
 * `JsonObject` through its indexer.
 */
module Json {
  import opened Wrappers
  import opened Dictionaries

  /** A JSON value. Numbers keep their text; objects are ordered tables without duplicate names. */
  datatype Json =
    | JNull
    | JBool(b: bool)
    | JNumber(text: string)
    | JString(s: string)
    | JArray(items: seq<Json>)
    | JObject(members: Dictionary<string, Json>)

  /**
   * `obj[key] = value`: an existing member keeps its position and takes the new value;
   * a new member is appended.
   */
  function Put(members: Dictionary<string, Json>, key: string, value: Json): (r: Dictionary<string, Json>)
    ensures Keys(r) == Keys(members) + {key}
    ensures Lookup(r, key) == Some(value)
    ensures forall k :: k != key ==> Lookup(r, k) == Lookup(members, k)
    ensures key !in Keys(members) ==> r == members + [(key, value)]
  {
    if members == [] then [(key, value)]
    else
      Cons(members[0], members[1..]);
      assert [members[0]] + members[1..] == members;
      if members[0].0 == key then
        Cons((key, value), members[1..]);
        [(key, value)] + members[1..]
      else
        var rest := Put(members[1..], key, value);
        Cons(members[0], rest);
        [members[0]] + rest
  }

  /** An assignment keeps every member in its place; it adds a member only for a new key. */
  lemma {:induction false} PutKeepsPositions(members: Dictionary<string, Json>, key: string, value: Json)
    ensures var r := Put(members, key, value);
            && |r| == (if key in Keys(members) then |members| else |members| + 1)
            && forall i :: 0 <= i < |members| ==> r[i].0 == members[i].0
  {
    if members != [] && members[0].0 != key {
      Cons(members[0], members[1..]);
      assert [members[0]] + members[1..] == members;
      PutKeepsPositions(members[1..], key, value);
    }
  }

  /**
   * Assigning a key that occurs among the first `m` members changes nothing after them: the
   * length stays and so do the later members.
   */
  lemma {:induction false} PutKeepsTail(members: Dictionary<string, Json>, key: string, value: Json, m: nat)
    requires 0 < m <= |members| && key in Keys(members[..m])
    ensures var r := Put(members, key, value);
            |r| == |members| && r[m..] == members[m..]
    decreases |members|
  {
    var tail := members[1..];
    assert members == [members[0]] + tail;
    Cons(members[0], tail);
    if members[0].0 != key {
      assert members[..m] == [members[0]] + tail[..m - 1];
      Cons(members[0], tail[..m - 1]);
      PutKeepsTail(tail, key, value, m - 1);
    }
  }

  /** Assigning a member the value it already has changes nothing. */
  lemma {:induction false} PutSame(members: Dictionary<string, Json>, key: string, value: Json)
    requires Lookup(members, key) == Some(value)
    ensures Put(members, key, value) == members
  {
    if members[0].0 != key {
      Cons(members[0], members[1..]);
      assert [members[0]] + members[1..] == members;
      PutSame(members[1..], key, value);
    }
  }

  /** A mutable `JsonObject`: its members are updated in place by the indexer. */
  class JsonObjectNode {
    var members: Dictionary<string, Json>

    constructor (members: Dictionary<string, Json>)
      ensures this.members == members
    {
      this.members := members;
    }

    /** `this[key] = value`. */
    method SetItem(key: string, value: Json)
      modifies this
      ensures members == Put(old(members), key, value)
    {
      members := Put(members, key, value);
    }
  }
}

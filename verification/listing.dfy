/** Listing every stored match. The Go server walks its hash map, so the order
    of the list is whatever the walk yields; here each step picks any key not
    yet listed, which admits every order. */
module Listing {
  import opened MatchRecord
  import opened MatchRegistry

  /** A set with an element has a nameable one. */
  lemma HasMember(s: set<int>)
    requires |s| > 0
    ensures exists x :: x in s
  {
    if forall x :: x !in s {
      assert false;
    }
  }

  /** All records of `r`, one per key, in no particular order. The ghost
      `keys` names, position by position, the key each record was read from. */
  method ListMatches(r: Registry) returns (list: seq<Match>, ghost keys: seq<int>)
    ensures |list| == |r.matches|
    ensures forall m :: m in list ==> m in r.matches.Values
    ensures forall k :: k in r.matches ==> r.matches[k] in list
    ensures |keys| == |list|
    ensures forall i :: 0 <= i < |keys| ==> keys[i] in r.matches && list[i] == r.matches[keys[i]]
    ensures forall k :: k in r.matches <==> k in keys
    ensures forall i, j :: 0 <= i < j < |keys| ==> keys[i] != keys[j]
    ensures Valid(r) ==> forall i, j :: 0 <= i < j < |list| ==> list[i].id != list[j].id
  {
    var rest := r.matches.Keys;
    list := [];
    keys := [];
    while |rest| > 0
      invariant rest <= r.matches.Keys
      invariant |keys| == |list|
      invariant |keys| + |rest| == |r.matches.Keys|
      invariant forall i :: 0 <= i < |keys| ==> keys[i] in r.matches && list[i] == r.matches[keys[i]]
      invariant forall i :: 0 <= i < |keys| ==> keys[i] !in rest
      invariant forall k :: k in r.matches ==> k in rest || k in keys
      invariant forall i, j :: 0 <= i < j < |keys| ==> keys[i] != keys[j]
      decreases rest
    {
      HasMember(rest);
      var k :| k in rest;
      list := list + [r.matches[k]];
      keys := keys + [k];
      rest := rest - {k};
    }
    forall k | k in r.matches
      ensures r.matches[k] in list
    {
      var i :| 0 <= i < |keys| && keys[i] == k;
      assert list[i] == r.matches[k];
    }
  }
}

/** `anonymize_values`: a column's values replaced by the position of each
    value among the column's distinct values, in order of first appearance. */
module Anonymize {

  /** `series.unique()`: the distinct values of `s` in order of first appearance. */
  function Unique<T(==)>(s: seq<T>): (u: seq<T>)
    ensures forall i :: 0 <= i < |u| ==> u[i] in s
    ensures forall i :: 0 <= i < |s| ==> s[i] in u
    ensures forall i, j :: 0 <= i < j < |u| ==> u[i] != u[j]
    decreases |s|
  {
    if s == [] then []
    else
      var init, last := s[..|s| - 1], s[|s| - 1];
      assert s == init + [last];
      var p := Unique(init);
      if last in p then p else p + [last]
  }

  /** `dict(zip(unique, range(len(unique))))`: each distinct value to its position. */
  function Mapping<T(==)>(s: seq<T>): (m: map<T, nat>)
    ensures forall i :: 0 <= i < |s| ==> s[i] in m
    ensures forall i :: 0 <= i < |Unique(s)| ==> m[Unique(s)[i]] == i
  {
    var u := Unique(s);
    map i | 0 <= i < |u| :: u[i] := i
  }

  /** `series.map(mapping)`: every value replaced by its surrogate id. */
  function AnonymizeValues<T(==)>(s: seq<T>): (ids: seq<nat>)
    ensures |ids| == |s|
    ensures forall i :: 0 <= i < |s| ==> ids[i] < |Unique(s)| && Unique(s)[ids[i]] == s[i]
  {
    var m := Mapping(s);
    seq(|s|, i requires 0 <= i < |s| => m[s[i]])
  }

  /** Two positions get the same id exactly when they hold the same value. */
  lemma AnonymizeConsistent<T>(s: seq<T>, i: nat, j: nat)
    requires i < |s| && j < |s|
    ensures AnonymizeValues(s)[i] == AnonymizeValues(s)[j] <==> s[i] == s[j]
  {
    var ids, u := AnonymizeValues(s), Unique(s);
    if s[i] == s[j] {
      assert u[ids[i]] == u[ids[j]];
    }
  }

  /** Every id below the number of distinct values is used. */
  lemma AnonymizeOnto<T>(s: seq<T>, k: nat)
    requires k < |Unique(s)|
    ensures exists i :: 0 <= i < |s| && AnonymizeValues(s)[i] == k
  {
    var u := Unique(s);
    assert u[k] in s;
    var i :| 0 <= i < |s| && s[i] == u[k];
    assert AnonymizeValues(s)[i] == k;
  }

  /** The distinct values of a prefix are a prefix of the distinct values. */
  lemma {:induction false} UniquePrefix<T>(s: seq<T>, n: nat)
    requires n <= |s|
    ensures Unique(s[..n]) <= Unique(s)
    decreases |s|
  {
    if n < |s| {
      var init := s[..|s| - 1];
      assert init[..n] == s[..n];
      UniquePrefix(init, n);
    } else {
      assert s[..n] == s;
    }
  }

  /** Ids follow first appearance: a value first seen at position `i` gets
      the number of distinct values seen before it; the first value gets 0. */
  lemma AnonymizeFirstAppearance<T>(s: seq<T>, i: nat)
    requires i < |s| && s[i] !in s[..i]
    ensures AnonymizeValues(s)[i] == |Unique(s[..i])|
    ensures i == 0 ==> AnonymizeValues(s)[i] == 0
  {
    var pre := s[..i + 1];
    assert pre[..|pre| - 1] == s[..i] && pre[|pre| - 1] == s[i];
    assert Unique(pre) == Unique(s[..i]) + [s[i]];
    UniquePrefix(s, i + 1);
    var u := Unique(s);
    var k := |Unique(s[..i])|;
    assert u[k] == s[i];
    var ids := AnonymizeValues(s);
    assert u[ids[i]] == s[i];
  }
}

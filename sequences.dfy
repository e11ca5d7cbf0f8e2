/**
 Small facts about sequences shared by the order card and the registration
 form: where an element first occurs.
 */
module Sequences {

  /** Position of the first occurrence of `x` in `s`, or `|s|` when `x` does not occur. */
  function IndexOf<T(==)>(s: seq<T>, x: T): (k: nat)
    ensures k <= |s|
    ensures k < |s| <==> x in s
    ensures k < |s| ==> s[k] == x
    ensures x !in s[..k]
  {
    if s == [] then 0
    else if s[0] == x then 0
    else
      var k' := IndexOf(s[1..], x);
      assert s[..1 + k'] == [s[0]] + s[1..][..k'];
      1 + k'
  }

  /** `IndexOf` is the only position that is an occurrence with none before it. */
  lemma IndexOfUnique<T>(s: seq<T>, x: T, k: nat)
    requires k <= |s|
    requires k < |s| ==> s[k] == x
    requires x !in s[..k]
    ensures IndexOf(s, x) == k
  {
  }

  /** Appending an element leaves the first occurrence of anything already present where it was. */
  lemma IndexOfAppend<T>(p: seq<T>, y: T, x: T)
    ensures x in p ==> IndexOf(p + [y], x) == IndexOf(p, x)
    ensures x !in p && x == y ==> IndexOf(p + [y], x) == |p|
  {
    var s := p + [y];
    var k := IndexOf(p, x);
    assert s[..k] == p[..k];
    if x in p {
      IndexOfUnique(s, x, k);
    } else if x == y {
      assert s[..|p|] == p;
      IndexOfUnique(s, x, |p|);
    }
  }
}

/** The parts of java.util.List that the parser relies on, over sequences. */
module JavaLists {

  /** Index of the first occurrence of `x` in `s`. */
  function FirstIndex<T(==)>(s: seq<T>, x: T): (k: nat)
    requires x in s
    ensures k < |s| && s[k] == x && x !in s[..k]
  {
    if s[0] == x then 0
    else
      var k := FirstIndex(s[1..], x);
      assert s[1..][..k] == s[1..k + 1];
      k + 1
  }

  /** `list.remove(x)`: drops the first element equal to `x`; the list is unchanged when there is none. */
  function RemoveFirst<T(==)>(s: seq<T>, x: T): (r: seq<T>)
    ensures x !in s ==> r == s
    ensures x in s ==> r == s[..FirstIndex(s, x)] + s[FirstIndex(s, x) + 1..]
    ensures forall y :: y in r ==> y in s
  {
    if x in s then
      var k := FirstIndex(s, x);
      assert forall y :: y in s[..k] + s[k + 1..] ==> y in s by {
        forall y | y in s[..k] + s[k + 1..] ensures y in s {
          if y in s[..k] { assert y in s; }
        }
      }
      s[..k] + s[k + 1..]
    else s
  }

  /** Removing an element removes exactly the position where it first occurs. */
  lemma RemoveFirstAt<T>(a: seq<T>, x: T, b: seq<T>)
    requires x !in a
    ensures RemoveFirst(a + [x] + b, x) == a + b
  {
    var s := a + [x] + b;
    assert s[..|a|] == a && s[|a|] == x;
    assert s[..|a|] == a;
    assert s[|a| + 1..] == b;
  }

  /** An element absent from `a` first occurs just after `a`. */
  lemma FirstIndexAt<T>(a: seq<T>, x: T, b: seq<T>)
    requires x !in a
    ensures FirstIndex(a + [x] + b, x) == |a|
  {
    var s := a + [x] + b;
    assert s[..|a|] == a && s[|a|] == x;
  }

  /** Every element of `s` is a different object. */
  ghost predicate Distinct<T>(s: seq<T>)
  {
    forall i, j :: 0 <= i < j < |s| ==> s[i] != s[j]
  }

  /** Appending an element not yet in a list of distinct elements keeps them distinct. */
  lemma DistinctAppend<T>(s: seq<T>, x: T)
    requires Distinct(s) && x !in s
    ensures Distinct(s + [x])
  {
    var t := s + [x];
    forall i, j | 0 <= i < j < |t| ensures t[i] != t[j] {
      if j < |s| {
        assert t[i] == s[i] && t[j] == s[j];
      } else {
        assert t[i] == s[i] && t[j] == x;
      }
    }
  }
}

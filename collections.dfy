/** Sequence helpers shared by the listener and observer registries. */
module Collections {
  import opened Wrappers

  /** No element occurs twice. */
  predicate Distinct<X(==)>(s: seq<X>) {
    forall i, j :: 0 <= i < j < |s| ==> s[i] != s[j]
  }

  lemma DistinctTail<X>(s: seq<X>)
    requires |s| > 0 && Distinct(s)
    ensures Distinct(s[1..]) && s[0] !in s[1..]
  {
  }

  /** The position of the last occurrence of `x`, if any. */
  function LastIndexOf<X(==)>(s: seq<X>, x: X): (r: Option<nat>)
    ensures r.Some? ==> r.value < |s| && s[r.value] == x && x !in s[r.value + 1..]
    ensures r.None? <==> x !in s
  {
    if s == [] then None
    else if s[|s| - 1] == x then Some(|s| - 1)
    else
      assert s == s[..|s| - 1] + [s[|s| - 1]];
      LastIndexOf(s[..|s| - 1], x)
  }

  /** `removeAtIndex` when an index was found; the sequence itself otherwise. */
  function RemoveAt<X>(s: seq<X>, i: Option<nat>): (r: seq<X>)
    requires i.Some? ==> i.value < |s|
    ensures i.None? ==> r == s
    ensures i.Some? ==> |r| == |s| - 1
    ensures i.Some? ==> forall k :: 0 <= k < i.value ==> r[k] == s[k]
    ensures i.Some? ==> forall k :: i.value <= k < |r| ==> r[k] == s[k + 1]
  {
    if i.None? then s else s[..i.value] + s[i.value + 1..]
  }

  /** Removing an index takes out exactly that one element. */
  lemma RemoveAtMultiset<X>(s: seq<X>, i: nat)
    requires i < |s|
    ensures multiset(RemoveAt(s, Some(i))) + multiset{s[i]} == multiset(s)
  {
    assert s == s[..i] + [s[i]] + s[i + 1..];
  }

  /** Removal keeps a list duplicate-free, and the removed element is then gone. */
  lemma RemoveAtDistinct<X>(s: seq<X>, i: Option<nat>)
    requires i.Some? ==> i.value < |s|
    requires Distinct(s)
    ensures Distinct(RemoveAt(s, i))
    ensures i.Some? ==> s[i.value] !in RemoveAt(s, i)
    ensures forall x :: x in RemoveAt(s, i) ==> x in s
  {
    var r := RemoveAt(s, i);
    if i.Some? {
      forall x | x in r ensures x in s && x != s[i.value] {
        var k :| 0 <= k < |r| && r[k] == x;
        if k >= i.value {
          assert r[k] == s[k + 1];
        }
      }
    }
  }
}

/** The `Array` helpers: removal by index or by value, de-duplication and
    in-place reversal of a JavaScript array. */
module Arrays {
  import opened Errors

  const IndexNegative := "Functions.Array.remove: index is less than 0"
  const IndexTooLarge := "Functions.Array.remove: index is greater than array length"
  const ValueNotFound := "Functions.Array.removeByValue: value not found in array"

  /** `Array.prototype.indexOf` under the element type's equality: the first
      index holding `v`, or -1 when no element equals `v`. */
  function IndexOf<T(==)>(s: seq<T>, v: T): (r: int)
    ensures -1 <= r < |s|
    ensures r == -1 <==> v !in s
    ensures r != -1 ==> s[r] == v && v !in s[..r]
  {
    if |s| == 0 then -1
    else if s[0] == v then 0
    else
      var k := IndexOf(s[1..], v);
      if k == -1 then -1
      else
        assert s[..k + 1] == [s[0]] + s[1..][..k];
        k + 1
  }

  /** `s` in the opposite order. */
  function Reversed<T>(s: seq<T>): (r: seq<T>)
    ensures |r| == |s|
    ensures forall i :: 0 <= i < |s| ==> r[i] == s[|s| - 1 - i]
  {
    if s == [] then [] else [s[|s| - 1]] + Reversed(s[..|s| - 1])
  }

  /** Reversing twice gives the array back. */
  lemma ReversedTwice<T>(s: seq<T>)
    ensures Reversed(Reversed(s)) == s
  {
    assert forall i :: 0 <= i < |s| ==> Reversed(Reversed(s))[i] == s[i];
  }

  /** Reversal keeps every element, as often as it occurs. */
  lemma {:induction false} ReversedSameElements<T>(s: seq<T>)
    ensures multiset(Reversed(s)) == multiset(s)
  {
    if s != [] {
      ReversedSameElements(s[..|s| - 1]);
      assert s == s[..|s| - 1] + [s[|s| - 1]];
    }
  }

  /** The elements among the first `n` of `s` that the `filter` callback of
      `removeDuplicates` keeps: those whose first index in the whole of `s`
      is their own index. */
  function KeepFirsts<T(==)>(s: seq<T>, n: nat): (r: seq<T>)
    requires n <= |s|
    ensures forall i :: 0 <= i < |r| ==> r[i] in s[..n]
    ensures forall k :: 0 <= k < n ==> s[k] in r
    ensures forall i :: 0 <= i < |r| ==> 0 <= IndexOf(s, r[i]) < n
    ensures forall i, j :: 0 <= i < j < |r| ==> IndexOf(s, r[i]) < IndexOf(s, r[j])
  {
    if n == 0 then []
    else
      var prev := KeepFirsts(s, n - 1);
      var last := s[n - 1];
      assert s[..n] == s[..n - 1] + [last];
      var first := IndexOf(s, last);
      if first == n - 1 then prev + [last]
      else
        assert s[first] == s[..n - 1][first];
        prev
  }

  /** `Array.removeDuplicates`: the first occurrence of every value, in the
      order of those first occurrences. */
  function RemoveDuplicates<T(==)>(s: seq<T>): (r: seq<T>)
    ensures forall i :: 0 <= i < |r| ==> r[i] in s
    ensures forall k :: 0 <= k < |s| ==> s[k] in r
    ensures forall i, j :: 0 <= i < j < |r| ==> r[i] != r[j]
    ensures forall i, j :: 0 <= i < j < |r| ==> IndexOf(s, r[i]) < IndexOf(s, r[j])
  {
    assert s[..|s|] == s;
    KeepFirsts(s, |s|)
  }

  /** No two positions of `s` hold equal elements. */
  predicate Distinct<T(==)>(s: seq<T>) {
    forall i, j :: 0 <= i < j < |s| ==> s[i] != s[j]
  }

  /** An array without duplicates comes back unchanged. */
  lemma {:induction false} KeepFirstsOfDistinct<T>(s: seq<T>, n: nat)
    requires n <= |s| && Distinct(s)
    ensures KeepFirsts(s, n) == s[..n]
  {
    if n > 0 {
      KeepFirstsOfDistinct(s, n - 1);
      assert s[..n] == s[..n - 1] + [s[n - 1]];
    }
  }

  /** De-duplicating is idempotent: its result has no duplicates left to remove. */
  lemma RemoveDuplicatesIdempotent<T>(s: seq<T>)
    ensures RemoveDuplicates(RemoveDuplicates(s)) == RemoveDuplicates(s)
  {
    var r := RemoveDuplicates(s);
    KeepFirstsOfDistinct(r, |r|);
    assert r[..|r|] == r;
  }

  /** A JavaScript array that the helpers edit in place. */
  class JsArray<T(==)> {
    var elems: seq<T>

    constructor (init: seq<T>)
      ensures elems == init
    {
      elems := init;
    }

    /** `Array.remove`: `splice(index, 1)` after two range checks. An index
        equal to the length passes the checks and removes nothing. */
    method Remove(index: int) returns (r: Result<seq<T>>)
      modifies this
      ensures index < 0 ==> r == Err(IndexNegative) && elems == old(elems)
      ensures index > |old(elems)| ==> r == Err(IndexTooLarge) && elems == old(elems)
      ensures 0 <= index < |old(elems)| ==>
        r == Ok([old(elems)[index]]) && elems == old(elems)[..index] + old(elems)[index + 1..]
      ensures index == |old(elems)| ==> r == Ok([]) && elems == old(elems)
      ensures r.Ok? ==> 0 <= index <= |elems| && old(elems) == elems[..index] + r.value + elems[index..]
    {
      if index < 0 {
        return Err(IndexNegative);
      }
      if index > |elems| {
        return Err(IndexTooLarge);
      }
      if index < |elems| {
        r := Ok([elems[index]]);
        ghost var before := elems;
        elems := elems[..index] + elems[index + 1..];
        assert elems[..index] == before[..index] && elems[index..] == before[index + 1..];
        assert before == before[..index] + [before[index]] + before[index + 1..];
      } else {
        r := Ok([]);
        assert elems[..index] + elems[index..] == elems;
      }
    }

    /** `Array.removeByValue`: removes the first element equal to `value`. */
    method RemoveByValue(value: T) returns (r: Result<seq<T>>)
      modifies this
      ensures value !in old(elems) ==> r == Err(ValueNotFound) && elems == old(elems)
      ensures value in old(elems) ==> r == Ok([value])
      ensures value in old(elems) ==>
        var i := IndexOf(old(elems), value);
        elems == old(elems)[..i] + old(elems)[i + 1..]
      ensures multiset(elems) + (if r.Ok? then multiset{value} else multiset{}) == multiset(old(elems))
    {
      var index := IndexOf(elems, value);
      if index < 0 {
        return Err(ValueNotFound);
      }
      r := Remove(index);
    }

    /** `Array.reverse`: reverses the array in place, swapping from both ends
        inwards, and returns the same array. */
    method Reverse() returns (same: JsArray<T>)
      modifies this
      ensures same == this
      ensures elems == Reversed(old(elems))
    {
      var n := |elems|;
      var lo := 0;
      while lo < n / 2
        invariant |elems| == n
        invariant 0 <= lo <= n / 2
        invariant forall k :: 0 <= k < lo ==> elems[k] == old(elems)[n - 1 - k] && elems[n - 1 - k] == old(elems)[k]
        invariant forall k :: lo <= k < n - lo ==> elems[k] == old(elems)[k]
      {
        var lower, upper := elems[lo], elems[n - 1 - lo];
        elems := elems[lo := upper][n - 1 - lo := lower];
        lo := lo + 1;
      }
      assert forall k :: 0 <= k < n ==> elems[k] == Reversed(old(elems))[k];
      return this;
    }
  }
}

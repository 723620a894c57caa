/** Sequence operations that the world logic applies to inventories and
    needs lists, each defined once with the contract its callers rely on. */
module Lists {

  /** Position of the first `x` in `s`, or `|s|` when `s` holds no `x`. */
  function FirstIndex<T(==)>(s: seq<T>, x: T): (k: nat)
    ensures k <= |s|
    ensures k < |s| <==> x in s
    ensures k < |s| ==> s[k] == x
    ensures forall j :: 0 <= j < k ==> s[j] != x
  {
    if |s| == 0 then 0
    else if s[0] == x then 0
    else 1 + FirstIndex(s[1..], x)
  }

  /** Python's `list.remove(x)` on a list the caller has checked to hold
      `x`: the first `x` goes and the rest keep their order. A list
      without `x` is returned as it is. */
  function RemoveFirst<T(==)>(s: seq<T>, x: T): (r: seq<T>)
    ensures x in s ==> |r| == |s| - 1
    ensures x !in s ==> r == s
    ensures multiset(r) == multiset(s) - multiset{x}
  {
    var k := FirstIndex(s, x);
    if k < |s| then
      assert s == s[..k] + [s[k]] + s[k+1..];
      s[..k] + s[k+1..]
    else
      s
  }

  /** `list.remove` takes out the first `x` and nothing else: what is left
      is the list before that `x` followed by the list after it. */
  lemma RemoveFirstAt<T>(s: seq<T>, x: T)
    requires x in s
    ensures exists k :: 0 <= k < |s| && s[k] == x && x !in s[..k] && RemoveFirst(s, x) == s[..k] + s[k+1..]
  {
    var k := FirstIndex(s, x);
    assert x !in s[..k];
  }

  /** The comprehension `[n for n in s if n != x]`. */
  function RemoveAll<T(==,!new)>(s: seq<T>, x: T): (r: seq<T>)
    ensures x !in r
    ensures forall y :: y != x ==> multiset(r)[y] == multiset(s)[y]
    ensures |r| <= |s|
  {
    if |s| == 0 then []
    else
      assert s == [s[0]] + s[1..];
      if s[0] == x then RemoveAll(s[1..], x)
      else [s[0]] + RemoveAll(s[1..], x)
  }

  /** Removing the first `x` from a list that had no `x` until one was
      appended gives the list back. */
  lemma RemoveFirstOfAppended<T>(s: seq<T>, x: T)
    requires x !in s
    ensures RemoveFirst(s + [x], x) == s
  {
    var t := s + [x];
    assert t[|s|] == x;
    assert forall j :: 0 <= j < |s| ==> t[j] == s[j];
    assert FirstIndex(t, x) == |s|;
    assert t[..|s|] == s;
  }

  /** Removing the first `x` keeps every other element's membership. */
  lemma RemoveFirstKeepsOthers<T>(s: seq<T>, x: T, y: T)
    requires y != x
    ensures y in RemoveFirst(s, x) <==> y in s
  {
    var r := RemoveFirst(s, x);
    assert multiset(r)[y] == multiset(s)[y];
    assert y in r <==> y in multiset(r);
    assert y in s <==> y in multiset(s);
  }

  /** The filter keeps the order of what it keeps: it distributes over
      concatenation. */
  lemma {:induction false} RemoveAllAppend<T(!new)>(a: seq<T>, b: seq<T>, x: T)
    ensures RemoveAll(a + b, x) == RemoveAll(a, x) + RemoveAll(b, x)
  {
    if |a| == 0 {
      assert a + b == b;
    } else {
      assert (a + b)[0] == a[0];
      assert (a + b)[1..] == a[1..] + b;
      RemoveAllAppend(a[1..], b, x);
    }
  }
}

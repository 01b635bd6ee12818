/** Small facts about sequences used as ordered lists (Python lists and dict key orders). */
module Lists {

  /** No element occurs twice. */
  predicate Distinct<T(==)>(s: seq<T>) {
    forall i, j :: 0 <= i < j < |s| ==> s[i] != s[j]
  }

  /** Two lists without repetition and without a common element concatenate to a list
      without repetition. */
  lemma DistinctAppend<T>(a: seq<T>, b: seq<T>)
    requires Distinct(a) && Distinct(b)
    requires forall x :: x in a ==> x !in b
    ensures Distinct(a + b)
  {
    forall i, j | 0 <= i < j < |a + b| ensures (a + b)[i] != (a + b)[j] {
      if j < |a| {
        assert (a + b)[i] == a[i] && (a + b)[j] == a[j];
      } else if i < |a| {
        assert (a + b)[i] == a[i] && (a + b)[j] == b[j - |a|];
        assert a[i] in a;
      } else {
        assert (a + b)[i] == b[i - |a|] && (a + b)[j] == b[j - |a|];
      }
    }
  }

  /** Python's `xs.index(x)`: the position of the first occurrence. */
  function IndexOf<T(==)>(xs: seq<T>, x: T): (i: nat)
    requires x in xs
    ensures i < |xs| && xs[i] == x
    ensures forall j :: 0 <= j < i ==> xs[j] != x
  {
    if xs[0] == x then 0 else 1 + IndexOf(xs[1..], x)
  }

  /** Appending elements does not move the first occurrence of an element already there. */
  lemma IndexOfAppend<T>(xs: seq<T>, ys: seq<T>, x: T)
    requires x in xs
    ensures IndexOf(xs + ys, x) == IndexOf(xs, x)
  {
    var i, j := IndexOf(xs, x), IndexOf(xs + ys, x);
    assert (xs + ys)[i] == x;
  }

  /** Concatenation is associative (a step the solver finds slowly inside larger proofs). */
  lemma ConcatAssoc<T>(a: seq<T>, b: seq<T>, c: seq<T>)
    ensures a + (b + c) == (a + b) + c
  {
  }

  /** Keeps the first occurrence of every element, in order: the key order of a Python dict
      built by inserting the elements of `s` one after another. */
  function Dedup<T(==,!new)>(s: seq<T>): (r: seq<T>)
    ensures Distinct(r)
    ensures forall x :: x in r <==> x in s
    ensures |r| <= |s|
  {
    if s == [] then []
    else
      var init := Dedup(s[..|s| - 1]);
      var last := s[|s| - 1];
      assert forall x :: x in s <==> x in s[..|s| - 1] || x == last by {
        assert s == s[..|s| - 1] + [last];
      }
      if last in init then init else init + [last]
  }

  /** Dedup changes nothing on a list that is already free of repetitions. */
  lemma {:induction false} DedupOfDistinct<T(!new)>(s: seq<T>)
    requires Distinct(s)
    ensures Dedup(s) == s
  {
    if s != [] {
      var init := s[..|s| - 1];
      assert Distinct(init);
      DedupOfDistinct(init);
      assert s[|s| - 1] !in init by {
        forall i | 0 <= i < |init| ensures init[i] != s[|s| - 1] {
          assert init[i] == s[i];
        }
      }
      assert init + [s[|s| - 1]] == s;
    }
  }

  /** Dedup lists the elements in the order of their first occurrence in `s`. Together
      with `Distinct` and the membership clause of `Dedup` this fixes the result. */
  lemma {:induction false} DedupFirstOccurrenceOrder<T(!new)>(s: seq<T>)
    ensures forall a, b :: 0 <= a < b < |Dedup(s)| ==> IndexOf(s, Dedup(s)[a]) < IndexOf(s, Dedup(s)[b])
  {
    if s != [] {
      var n := |s|;
      var init, last := s[..n - 1], s[n - 1];
      assert s == init + [last];
      DedupFirstOccurrenceOrder(init);
      var p := Dedup(init);
      var r := Dedup(s);
      forall x | x in init ensures IndexOf(s, x) == IndexOf(init, x) && IndexOf(init, x) < n - 1 {
        IndexOfAppend(init, [last], x);
      }
      if last !in init {
        assert IndexOf(s, last) == n - 1;
      }
      forall a, b | 0 <= a < b < |r| ensures IndexOf(s, r[a]) < IndexOf(s, r[b]) {
        assert r[a] == p[a];
        if b < |p| {
          assert r[b] == p[b];
        }
      }
    }
  }
}

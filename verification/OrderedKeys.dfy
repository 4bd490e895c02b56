/** Sequences of distinct keys: the key order of a Python `OrderedDict`. */
module OrderedKeys {

  ghost predicate Distinct<K>(s: seq<K>) {
    forall i, j :: 0 <= i < j < |s| ==> s[i] != s[j]
  }

  function Elems<K>(s: seq<K>): (r: set<K>) {
    set x | x in s
  }

  lemma ElemsConcat<K>(a: seq<K>, b: seq<K>)
    ensures Elems(a + b) == Elems(a) + Elems(b)
  {
  }

  /** `s` without its occurrences of `k`. */
  function Without<K(==)>(s: seq<K>, k: K): (r: seq<K>)
    ensures forall x :: x in r ==> x in s && x != k
    ensures forall x :: x in s && x != k ==> x in r
    ensures |r| <= |s|
  {
    if s == [] then []
    else if s[0] == k then Without(s[1..], k)
    else [s[0]] + Without(s[1..], k)
  }

  /** Python's `OrderedDict.move_to_end`, also appending a key that is new. */
  function MoveToEnd<K(==)>(s: seq<K>, k: K): (r: seq<K>) {
    Without(s, k) + [k]
  }

  /** The sub-order of `s` made of the keys in `keep`. */
  ghost function Keep<K>(s: seq<K>, keep: set<K>): (r: seq<K>)
    ensures forall x :: x in r ==> x in s && x in keep
    ensures forall x :: x in s && x in keep ==> x in r
  {
    if s == [] then []
    else if s[0] in keep then [s[0]] + Keep(s[1..], keep)
    else Keep(s[1..], keep)
  }

  /** `a` is obtained from `b` by deleting keys, the order of the rest being kept. */
  ghost predicate IsSubsequence<K>(a: seq<K>, b: seq<K>) {
    a == Keep(b, Elems(a))
  }

  lemma {:induction false} WithoutAbsent<K>(s: seq<K>, k: K)
    requires k !in s
    ensures Without(s, k) == s
  {
    if s != [] {
      WithoutAbsent(s[1..], k);
    }
  }

  lemma {:induction false} WithoutDistinct<K>(s: seq<K>, k: K)
    requires Distinct(s)
    ensures Distinct(Without(s, k))
    ensures |Without(s, k)| == if k in s then |s| - 1 else |s|
  {
    if s != [] {
      assert s[0] !in s[1..];
      WithoutDistinct(s[1..], k);
      assert s[0] !in Without(s[1..], k);
    }
  }

  lemma WithoutFirst<K>(s: seq<K>)
    requires Distinct(s) && s != []
    ensures Without(s, s[0]) == s[1..]
  {
    WithoutAbsent(s[1..], s[0]);
  }

  lemma {:induction false} WithoutAt<K>(s: seq<K>, i: nat)
    requires Distinct(s) && i < |s|
    ensures Without(s, s[i]) == s[..i] + s[i + 1..]
  {
    if i == 0 {
      WithoutFirst(s);
    } else {
      WithoutAt(s[1..], i - 1);
      assert s[..i] + s[i + 1..] == [s[0]] + (s[1..][..i - 1] + s[1..][i..]);
    }
  }

  lemma {:induction false} WithoutConcat<K>(a: seq<K>, b: seq<K>, k: K)
    ensures Without(a + b, k) == Without(a, k) + Without(b, k)
  {
    if a == [] {
      assert a + b == b;
    } else {
      assert (a + b)[1..] == a[1..] + b;
      WithoutConcat(a[1..], b, k);
    }
  }

  lemma MoveToEndDistinct<K>(s: seq<K>, k: K)
    requires Distinct(s)
    ensures Distinct(MoveToEnd(s, k))
    ensures Elems(MoveToEnd(s, k)) == Elems(s) + {k}
    ensures |MoveToEnd(s, k)| == if k in s then |s| else |s| + 1
  {
    WithoutDistinct(s, k);
  }

  lemma {:induction false} DistinctSize<K>(s: seq<K>)
    requires Distinct(s)
    ensures |Elems(s)| == |s|
  {
    if s != [] {
      DistinctSize(s[1..]);
      assert Elems(s) == {s[0]} + Elems(s[1..]);
    }
  }

  lemma {:induction false} KeepAll<K>(s: seq<K>, keep: set<K>)
    requires Elems(s) <= keep
    ensures Keep(s, keep) == s
  {
    if s != [] {
      assert s[0] in Elems(s);
      assert Elems(s[1..]) <= Elems(s);
      KeepAll(s[1..], keep);
    }
  }

  lemma {:induction false} KeepConcat<K>(a: seq<K>, b: seq<K>, keep: set<K>)
    ensures Keep(a + b, keep) == Keep(a, keep) + Keep(b, keep)
  {
    if a == [] {
      assert a + b == b;
    } else {
      assert (a + b)[1..] == a[1..] + b;
      KeepConcat(a[1..], b, keep);
    }
  }

  lemma {:induction false} KeepMissing<K>(s: seq<K>, keep: set<K>, k: K)
    requires k !in s
    ensures Keep(s, keep + {k}) == Keep(s, keep)
  {
    if s != [] {
      KeepMissing(s[1..], keep, k);
    }
  }

  /** Deleting a key commutes with restricting to a set of keys. */
  lemma {:induction false} KeepWithout<K>(s: seq<K>, keep: set<K>, k: K)
    ensures Keep(Without(s, k), keep + {k}) == Without(Keep(s, keep), k)
    ensures Keep(s, keep - {k}) == Without(Keep(s, keep), k)
  {
    if s != [] {
      KeepWithout(s[1..], keep, k);
    }
  }

  /** A reordering keeps keys distinct. */
  lemma {:induction false} SameMultisetDistinct<K>(a: seq<K>, b: seq<K>)
    requires Distinct(a) && multiset(a) == multiset(b)
    ensures Distinct(b)
  {
    DistinctMultiplicity(a);
    forall i, j | 0 <= i < j < |b|
      ensures b[i] != b[j]
    {
      assert b == b[..j] + b[j..];
      assert b[i] in multiset(b[..j]) by { assert b[..j][i] == b[i]; }
      assert b[j] in multiset(b[j..]) by { assert b[j..][0] == b[j]; }
      assert multiset(b) == multiset(b[..j]) + multiset(b[j..]);
      assert b[i] == b[j] ==> multiset(b)[b[j]] >= 2;
    }
  }

  lemma {:induction false} DistinctMultiplicity<K>(s: seq<K>)
    requires Distinct(s)
    ensures forall x: K :: multiset(s)[x] <= 1
  {
    if s != [] {
      var n := |s| - 1;
      DistinctMultiplicity(s[..n]);
      assert s == s[..n] + [s[n]];
      assert s[n] !in s[..n];
      assert multiset(s) == multiset(s[..n]) + multiset{s[n]};
    }
  }
}

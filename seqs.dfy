/**
 * Sequence helpers shared by the scanner and the detector: an order-preserving
 * filter-map (the shape of every "for x in xs: if ...: out.append(...)" loop
 * of the analysed program) and duplicate-freedom of identity lists.
 */
module Seqs {
  import opened Wrappers

  /** Keeps, in order, the `Some` images of the elements of `s`. */
  function FilterMap<T, U>(s: seq<T>, f: T -> Option<U>): (r: seq<U>)
    ensures |r| <= |s|
    decreases |s|
  {
    if s == [] then []
    else FilterMap(s[..|s| - 1], f) + Kept(f(s[|s| - 1]))
  }

  /** The zero- or one-element contribution of a single element. */
  function Kept<U>(o: Option<U>): (r: seq<U>)
    ensures |r| <= 1
    ensures r == [] <==> o.None?
    ensures o.Some? ==> r[0] == o.value
  {
    match o
    case None => []
    case Some(u) => [u]
  }

  /** Processing the elements one at a time: the result on one more element. */
  lemma FilterMapSnoc<T, U>(s: seq<T>, x: T, f: T -> Option<U>)
    ensures FilterMap(s + [x], f) == FilterMap(s, f) + Kept(f(x))
  {
    assert (s + [x])[..|s|] == s;
  }

  /** The filter-map keeps order: it distributes over concatenation. */
  lemma {:induction false} FilterMapAppend<T, U>(a: seq<T>, b: seq<T>, f: T -> Option<U>)
    ensures FilterMap(a + b, f) == FilterMap(a, f) + FilterMap(b, f)
    decreases |b|
  {
    if b == [] {
      assert a + b == a;
    } else {
      var b' := b[..|b| - 1];
      var x := b[|b| - 1];
      assert b == b' + [x];
      assert a + b == (a + b') + [x];
      FilterMapSnoc(a + b', x, f);
      FilterMapAppend(a, b', f);
      FilterMapSnoc(b', x, f);
      var fa, fb, k := FilterMap(a, f), FilterMap(b', f), Kept(f(x));
      assert (fa + fb) + k == fa + (fb + k);
    }
  }

  /** An element is in the result exactly when some input element maps to it. */
  lemma {:induction false} FilterMapMember<T, U>(s: seq<T>, f: T -> Option<U>, u: U)
    ensures u in FilterMap(s, f) <==> exists i :: 0 <= i < |s| && f(s[i]) == Some(u)
    decreases |s|
  {
    if s != [] {
      var s' := s[..|s| - 1];
      FilterMapMember(s', f, u);
      if u in FilterMap(s, f) && u !in FilterMap(s', f) {
        assert f(s[|s| - 1]) == Some(u);
      }
      if exists i :: 0 <= i < |s| && f(s[i]) == Some(u) {
        var i :| 0 <= i < |s| && f(s[i]) == Some(u);
        if i < |s| - 1 {
          assert s'[i] == s[i];
        }
      }
    }
  }

  /** The result is empty when no input element maps to `Some`. */
  lemma {:induction false} FilterMapNoneKept<T, U>(s: seq<T>, f: T -> Option<U>)
    requires forall i :: 0 <= i < |s| ==> f(s[i]).None?
    ensures FilterMap(s, f) == []
    decreases |s|
  {
    if s != [] {
      FilterMapNoneKept(s[..|s| - 1], f);
    }
  }

  /** No value occurs twice. */
  predicate Distinct<T(==)>(s: seq<T>) {
    forall i, j :: 0 <= i < j < |s| ==> s[i] != s[j]
  }

  /** The values of a sequence, as a set. */
  function Elems<T>(s: seq<T>): set<T> {
    set x | x in s
  }

  lemma ElemsAppend<T>(a: seq<T>, b: seq<T>)
    ensures Elems(a + b) == Elems(a) + Elems(b)
  {
    forall x | x in a + b ensures x in a || x in b {
      var k :| 0 <= k < |a + b| && (a + b)[k] == x;
      if k >= |a| {
        assert b[k - |a|] == x;
      }
    }
  }

  lemma DistinctAppend<T>(a: seq<T>, b: seq<T>)
    requires Distinct(a + b)
    ensures Distinct(a) && Distinct(b)
    ensures Elems(a) !! Elems(b)
  {
    forall i, j | 0 <= i < j < |a| ensures a[i] != a[j] {
      assert a[i] == (a + b)[i] && a[j] == (a + b)[j];
    }
    forall i, j | 0 <= i < j < |b| ensures b[i] != b[j] {
      assert b[i] == (a + b)[|a| + i] && b[j] == (a + b)[|a| + j];
    }
    forall i, j | 0 <= i < |a| && 0 <= j < |b| ensures a[i] != b[j] {
      assert a[i] == (a + b)[i] && b[j] == (a + b)[|a| + j];
    }
  }
}

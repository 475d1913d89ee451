/** Sequence helpers that stand for the LINQ operators the service uses:
    `Where` (filter, order preserving), `FirstOrDefault` (first match) and
    the counting facts behind `approvers.Count`. */
module Seqs {
  import opened Wrappers

  /** No element occurs twice. */
  ghost predicate Distinct<T>(s: seq<T>) {
    forall i, j :: 0 <= i < j < |s| ==> s[i] != s[j]
  }

  /** The elements of `s` that satisfy `p`, in the order of `s`. */
  function Where<T(!new)>(s: seq<T>, p: T -> bool): (r: seq<T>)
    ensures |r| <= |s|
    ensures forall x :: x in r <==> x in s && p(x)
    decreases |s|
  {
    if s == [] then []
    else
      var init := s[..|s| - 1];
      var last := s[|s| - 1];
      assert s == init + [last];
      var rest := Where(init, p);
      if p(last) then rest + [last] else rest
  }

  /** Filtering a concatenation filters each part and keeps them in order. */
  lemma {:induction false} WhereAppend<T(!new)>(a: seq<T>, b: seq<T>, p: T -> bool)
    ensures Where(a + b, p) == Where(a, p) + Where(b, p)
    decreases |b|
  {
    if b == [] {
      assert a + b == a;
    } else {
      var init, last := b[..|b| - 1], b[|b| - 1];
      assert b == init + [last];
      assert a + b == (a + init) + [last];
      WhereAppend(a, init, p);
      WhereSnoc(a + init, last, p);
      WhereSnoc(init, last, p);
      if p(last) {
        assert (Where(a, p) + Where(init, p)) + [last] == Where(a, p) + (Where(init, p) + [last]);
      }
    }
  }

  /** One more element at the end is kept iff it passes the test. */
  lemma WhereSnoc<T(!new)>(s: seq<T>, x: T, p: T -> bool)
    ensures Where(s + [x], p) == if p(x) then Where(s, p) + [x] else Where(s, p)
  {
    var t := s + [x];
    assert t[..|t| - 1] == s;
  }

  /** A single element is kept iff it passes the test. */
  lemma WhereSingle<T(!new)>(x: T, p: T -> bool)
    ensures Where([x], p) == if p(x) then [x] else []
  {
    assert [x][..0] == [];
  }

  /** The first element of `s` that satisfies `p`, if any. */
  function First<T>(s: seq<T>, p: T -> bool): (r: Option<T>)
    ensures r.None? <==> forall i :: 0 <= i < |s| ==> !p(s[i])
    ensures r.Some? ==> exists i :: 0 <= i < |s| && s[i] == r.value && p(s[i]) &&
                                    forall j :: 0 <= j < i ==> !p(s[j])
    decreases |s|
  {
    if s == [] then None
    else if p(s[0]) then Some(s[0])
    else
      var r := First(s[1..], p);
      assert forall i :: 1 <= i < |s| ==> s[i] == s[1..][i - 1];
      r
  }

  /** Filtering with two predicates that agree on `s` gives the same result. */
  lemma {:induction false} WhereCongruent<T(!new)>(s: seq<T>, p: T -> bool, q: T -> bool)
    requires forall x :: x in s ==> p(x) == q(x)
    ensures Where(s, p) == Where(s, q)
    decreases |s|
  {
    if s != [] {
      var init := s[..|s| - 1];
      assert forall x :: x in init ==> x in s;
      WhereCongruent(init, p, q);
    }
  }

  /** Filtering by a predicate every element satisfies changes nothing. */
  lemma {:induction false} WhereKeepsAll<T(!new)>(s: seq<T>, p: T -> bool)
    requires forall x :: x in s ==> p(x)
    ensures Where(s, p) == s
    decreases |s|
  {
    if s != [] {
      var init := s[..|s| - 1];
      assert forall x :: x in init ==> x in s;
      WhereKeepsAll(init, p);
      assert s == init + [s[|s| - 1]];
    }
  }

  /** Two filters in a row keep exactly what their conjunction keeps,
      in the same order. */
  lemma {:induction false} WhereWhere<T(!new)>(s: seq<T>, p: T -> bool, q: T -> bool)
    ensures Where(Where(s, p), q) == Where(s, x => p(x) && q(x))
    decreases |s|
  {
    if s != [] {
      var init := s[..|s| - 1];
      var last := s[|s| - 1];
      WhereWhere(init, p, q);
      var w := Where(init, p);
      if p(last) {
        assert (w + [last])[..|w + [last]| - 1] == w;
      }
    }
  }

  /** Filtering never introduces a repetition. */
  lemma {:induction false} WhereDistinct<T(!new)>(s: seq<T>, p: T -> bool)
    requires Distinct(s)
    ensures Distinct(Where(s, p))
    decreases |s|
  {
    if s != [] {
      var init := s[..|s| - 1];
      var last := s[|s| - 1];
      assert Distinct(init);
      WhereDistinct(init, p);
      assert last !in init;
    }
  }

  /** When `Where` keeps exactly one element, exactly one position of `s`
      satisfies `p`, and it holds that element. */
  lemma {:induction false} WhereOne<T(!new)>(s: seq<T>, p: T -> bool)
    requires |Where(s, p)| == 1
    ensures exists i :: 0 <= i < |s| && p(s[i]) && s[i] == Where(s, p)[0] &&
                        forall j :: 0 <= j < |s| && p(s[j]) ==> j == i
    decreases |s|
  {
    var init := s[..|s| - 1];
    var last := s[|s| - 1];
    var n := |s| - 1;
    assert s == init + [last];
    if p(last) {
      assert Where(init, p) == [];
      assert forall j :: 0 <= j < n ==> !p(s[j]) by {
        forall j | 0 <= j < n ensures !p(s[j]) {
          assert s[j] == init[j];
          assert init[j] in init;
        }
      }
    } else {
      WhereOne(init, p);
      var i :| 0 <= i < n && p(init[i]) && init[i] == Where(init, p)[0] &&
               forall j :: 0 <= j < n && p(init[j]) ==> j == i;
      assert s[i] == init[i];
      assert forall j :: 0 <= j < n ==> s[j] == init[j];
    }
  }

  /** When `Where` keeps two or more elements, two different positions of
      `s` satisfy `p`. */
  lemma {:induction false} WhereTwo<T(!new)>(s: seq<T>, p: T -> bool)
    requires |Where(s, p)| >= 2
    ensures exists i, j :: 0 <= i < j < |s| && p(s[i]) && p(s[j])
    decreases |s|
  {
    var init := s[..|s| - 1];
    var last := s[|s| - 1];
    var n := |s| - 1;
    assert s == init + [last];
    if p(last) {
      var x := Where(init, p)[0];
      assert x in Where(init, p);
      var i :| 0 <= i < n && init[i] == x;
      assert s[i] == init[i] && s[n] == last;
    } else {
      WhereTwo(init, p);
      var i, j :| 0 <= i < j < n && p(init[i]) && p(init[j]);
      assert s[i] == init[i] && s[j] == init[j];
    }
  }
}

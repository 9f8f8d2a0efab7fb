/** Order-preserving selection over sequences: the two forms in which the
    group code uses JavaScript's Array.prototype.filter. `Select` keeps the
    elements whose position is marked in an index-aligned boolean vector
    (`xs.filter((x, i) => flags[i])`); `Filter` keeps the elements that satisfy
    a predicate (`xs.filter(x => p(x))`), which is `Select` over the vector of
    the predicate's values. */
module Sequences {

  /** Position `k` of `keep` is set. A position past the end of the vector
      reads as `undefined` in JavaScript, which is falsy, so it is not set. */
  predicate Kept(keep: seq<bool>, k: int) {
    0 <= k < |keep| && keep[k]
  }

  /** The elements of `s` whose position is set in `keep`, in the order of `s`. */
  function Select<T>(s: seq<T>, keep: seq<bool>): (r: seq<T>)
    ensures |r| <= |s|
    ensures forall x :: x in r ==> x in s
  {
    if s == [] then []
    else Select(s[..|s| - 1], keep) + (if Kept(keep, |s| - 1) then [s[|s| - 1]] else [])
  }

  /** The vector of `p`'s values on `s`, index-aligned with `s` (`s.map(p)`). */
  function Flags<T>(p: T -> bool, s: seq<T>): seq<bool> {
    seq(|s|, k requires 0 <= k < |s| => p(s[k]))
  }

  /** The elements of `s` that satisfy `p`, in the order of `s`. */
  function Filter<T>(p: T -> bool, s: seq<T>): seq<T> {
    Select(s, Flags(p, s))
  }

  ghost predicate StrictlyIncreasing(idx: seq<int>) {
    forall i, j :: 0 <= i < j < |idx| ==> idx[i] < idx[j]
  }

  /** `idx` lists, in increasing order, the positions of `b` at which the
      elements of `a` stand. */
  ghost predicate Embeds<T>(idx: seq<int>, a: seq<T>, b: seq<T>) {
    && |idx| == |a|
    && StrictlyIncreasing(idx)
    && forall j :: 0 <= j < |idx| ==> 0 <= idx[j] < |b| && a[j] == b[idx[j]]
  }

  /** `a` is obtained from `b` by deleting elements, keeping the order. */
  ghost predicate IsSubsequence<T>(a: seq<T>, b: seq<T>) {
    exists idx :: Embeds(idx, a, b)
  }

  /** `r` consists of exactly the elements of `s` at the positions set in
      `keep`, in the order of `s`. */
  ghost predicate SelectsExactly<T>(r: seq<T>, s: seq<T>, keep: seq<bool>) {
    exists idx :: Embeds(idx, r, s) && forall k :: 0 <= k < |s| ==> (k in idx <==> Kept(keep, k))
  }

  ghost predicate Distinct<T>(s: seq<T>) {
    forall i, j :: 0 <= i < j < |s| ==> s[i] != s[j]
  }

  /** The positions below `n` that are set in `keep`, in increasing order. */
  function KeptPositions(keep: seq<bool>, n: nat): seq<int> {
    if n == 0 then []
    else KeptPositions(keep, n - 1) + (if Kept(keep, n - 1) then [n - 1] else [])
  }

  lemma {:induction false} KeptPositionsSound(keep: seq<bool>, n: nat)
    ensures StrictlyIncreasing(KeptPositions(keep, n))
    ensures forall k :: k in KeptPositions(keep, n) <==> 0 <= k < n && Kept(keep, k)
  {
    if n > 0 {
      KeptPositionsSound(keep, n - 1);
      var ps := KeptPositions(keep, n - 1);
      forall j | 0 <= j < |ps| ensures ps[j] < n - 1 {
        assert ps[j] in ps;
      }
    }
  }

  lemma {:induction false} SelectAtKeptPositions<T>(s: seq<T>, keep: seq<bool>)
    ensures Embeds(KeptPositions(keep, |s|), Select(s, keep), s)
  {
    if s != [] {
      var n := |s| - 1;
      var front := s[..n];
      SelectAtKeptPositions(front, keep);
      KeptPositionsSound(keep, |s|);
      var ps, r := KeptPositions(keep, n), Select(front, keep);
      assert KeptPositions(keep, |s|) == ps + (if Kept(keep, n) then [n] else []);
      assert Select(s, keep) == r + (if Kept(keep, n) then [s[n]] else []);
      forall j | 0 <= j < |ps| ensures 0 <= ps[j] < |s| && r[j] == s[ps[j]] {
        assert r[j] == front[ps[j]];
      }
    }
  }

  /** Select on a sequence extended by one element. */
  lemma SelectSnoc<T>(s: seq<T>, x: T, keep: seq<bool>)
    ensures Select(s + [x], keep) == Select(s, keep) + (if Kept(keep, |s|) then [x] else [])
  {
    assert (s + [x])[..|s|] == s;
  }

  /** Select keeps exactly the marked elements, in order. */
  lemma SelectSelectsExactly<T>(s: seq<T>, keep: seq<bool>)
    ensures SelectsExactly(Select(s, keep), s, keep)
  {
    SelectAtKeptPositions(s, keep);
    KeptPositionsSound(keep, |s|);
    var idx := KeptPositions(keep, |s|);
    assert Embeds(idx, Select(s, keep), s);
    assert forall k :: 0 <= k < |s| ==> (k in idx <==> Kept(keep, k));
  }

  lemma {:induction false} IncreasingSameElements(a: seq<int>, b: seq<int>)
    requires StrictlyIncreasing(a) && StrictlyIncreasing(b)
    requires forall k :: k in a <==> k in b
    ensures a == b
  {
    if a != [] {
      assert a[0] in a;
    }
    if b != [] {
      assert b[0] in b;
    }
    if a != [] && b != [] {
      assert a[0] in b;
      assert b[0] in a;
      var i :| 0 <= i < |b| && b[i] == a[0];
      var j :| 0 <= j < |a| && a[j] == b[0];
      assert forall q :: 0 <= q < |b| ==> b[0] <= b[q];
      assert forall p :: 0 <= p < |a| ==> a[0] <= a[p];
      assert a[0] == b[0];
      forall k ensures k in a[1..] <==> k in b[1..] {
        if k in a[1..] {
          var p :| 1 <= p < |a| && a[p] == k;
          assert a[0] < a[p];
          assert k in b;
          var q :| 0 <= q < |b| && b[q] == k;
          assert q != 0;
        }
        if k in b[1..] {
          var q :| 1 <= q < |b| && b[q] == k;
          assert b[0] < b[q];
          assert k in a;
          var p :| 0 <= p < |a| && a[p] == k;
          assert p != 0;
        }
      }
      IncreasingSameElements(a[1..], b[1..]);
      assert a == [a[0]] + a[1..];
      assert b == [b[0]] + b[1..];
    }
  }

  /** The characterisation determines the result: whatever keeps exactly the
      marked elements in order is Select's result. */
  lemma SelectsExactlyUnique<T>(r: seq<T>, s: seq<T>, keep: seq<bool>)
    requires SelectsExactly(r, s, keep)
    ensures r == Select(s, keep)
  {
    var idx :| Embeds(idx, r, s) && forall k :: 0 <= k < |s| ==> (k in idx <==> Kept(keep, k));
    SelectAtKeptPositions(s, keep);
    KeptPositionsSound(keep, |s|);
    var ps := KeptPositions(keep, |s|);
    forall k ensures k in idx <==> k in ps {
      if k in idx {
        var j :| 0 <= j < |idx| && idx[j] == k;
      }
    }
    IncreasingSameElements(idx, ps);
  }

  /** Both directions: `r` is Select's result exactly when it keeps exactly
      the marked elements of `s`, in the order of `s`. */
  lemma SelectCharacterization<T>(r: seq<T>, s: seq<T>, keep: seq<bool>)
    ensures r == Select(s, keep) <==> SelectsExactly(r, s, keep)
  {
    SelectSelectsExactly(s, keep);
    if SelectsExactly(r, s, keep) {
      SelectsExactlyUnique(r, s, keep);
    }
  }

  lemma SelectIsSubsequence<T>(s: seq<T>, keep: seq<bool>)
    ensures IsSubsequence(Select(s, keep), s)
  {
    SelectAtKeptPositions(s, keep);
  }

  /** An element survives Filter exactly when it is in `s` and satisfies `p`. */
  lemma FilterMembership<T>(p: T -> bool, s: seq<T>)
    ensures forall x :: x in Filter(p, s) <==> x in s && p(x)
  {
    var f := Flags(p, s);
    SelectAtKeptPositions(s, f);
    KeptPositionsSound(f, |s|);
    var ps, r := KeptPositions(f, |s|), Filter(p, s);
    forall x ensures x in r <==> x in s && p(x) {
      if x in r {
        var j :| 0 <= j < |r| && r[j] == x;
        assert ps[j] in ps;
      }
      if x in s && p(x) {
        var k :| 0 <= k < |s| && s[k] == x;
        assert Kept(f, k);
        var j :| 0 <= j < |ps| && ps[j] == k;
        assert r[j] == x;
      }
    }
  }

  lemma FilterIsSubsequence<T>(p: T -> bool, s: seq<T>)
    ensures IsSubsequence(Filter(p, s), s)
  {
    SelectIsSubsequence(s, Flags(p, s));
  }

  lemma SubsequenceTransitive<T>(a: seq<T>, b: seq<T>, c: seq<T>)
    requires IsSubsequence(a, b) && IsSubsequence(b, c)
    ensures IsSubsequence(a, c)
  {
    var ab :| Embeds(ab, a, b);
    var bc :| Embeds(bc, b, c);
    var ac := seq(|ab|, j requires 0 <= j < |ab| => bc[ab[j]]);
    assert Embeds(ac, a, c);
  }

  /** Deleting elements from a sequence without repetitions leaves one. */
  lemma SubsequenceOfDistinct<T>(a: seq<T>, b: seq<T>)
    requires IsSubsequence(a, b) && Distinct(b)
    ensures Distinct(a)
  {
    var idx :| Embeds(idx, a, b);
    forall i, j | 0 <= i < j < |a| ensures a[i] != a[j] {
      assert idx[i] < idx[j];
    }
  }

  lemma DistinctConcat<T>(a: seq<T>, b: seq<T>)
    requires Distinct(a) && Distinct(b)
    requires forall x :: x in a ==> x !in b
    ensures Distinct(a + b)
  {
    forall i, j | 0 <= i < j < |a + b| ensures (a + b)[i] != (a + b)[j] {
      if i < |a| && |a| <= j {
        assert (a + b)[i] in a && (a + b)[j] == b[j - |a|];
      }
    }
  }

  /** A filter every element passes keeps the whole sequence. */
  lemma {:induction false} FilterAll<T>(p: T -> bool, s: seq<T>)
    requires forall x :: x in s ==> p(x)
    ensures Filter(p, s) == s
  {
    var f := Flags(p, s);
    SelectAtKeptPositions(s, f);
    KeptPositionsSound(f, |s|);
    var ps := KeptPositions(f, |s|);
    var all := seq(|s|, k requires 0 <= k < |s| => k);
    forall k ensures k in ps <==> k in all {
      if 0 <= k < |s| {
        assert all[k] == k;
        assert s[k] in s;
      }
    }
    IncreasingSameElements(ps, all);
  }
}

/** Sequence operations behind the roster's derived lists:
    `Array.from(new Set(xs))` (first-occurrence de-duplication) and the
    default `Array.prototype.sort` on strings. */
module Seqs {
  import Text

  predicate Distinct<T(==)>(s: seq<T>)
  {
    forall i, j :: 0 <= i < j < |s| ==> s[i] != s[j]
  }

  /** `a` can be obtained from `b` by deleting elements, keeping order. */
  ghost predicate SubsequenceOf<T>(a: seq<T>, b: seq<T>)
    decreases |b|
  {
    if |a| == 0 then true
    else if |b| == 0 then false
    else (a[|a| - 1] == b[|b| - 1] && SubsequenceOf(a[..|a| - 1], b[..|b| - 1]))
         || SubsequenceOf(a, b[..|b| - 1])
  }

  /** Index of the first occurrence of `x` in `s`. */
  function FirstIndex<T(==)>(s: seq<T>, x: T): (k: nat)
    requires x in s
    ensures k < |s| && s[k] == x
    ensures forall i :: 0 <= i < k ==> s[i] != x
  {
    if s[0] == x then 0 else 1 + FirstIndex(s[1..], x)
  }

  lemma FirstIndexOfPrefix<T>(s: seq<T>, x: T, y: T)
    requires y in s
    ensures FirstIndex(s + [x], y) == FirstIndex(s, y)
  {
    var k := FirstIndex(s, y);
    var t := s + [x];
    assert t[k] == y;
    assert forall i :: 0 <= i < k ==> t[i] != y;
  }

  /** `Array.from(new Set(xs))`: the distinct elements of `xs`, in the
      order of their first occurrence (see DedupOrder). */
  function Dedup<T(==)>(xs: seq<T>): (r: seq<T>)
    ensures Distinct(r)
    ensures forall i :: 0 <= i < |r| ==> r[i] in xs
    ensures forall i :: 0 <= i < |xs| ==> xs[i] in r
  {
    if |xs| == 0 then []
    else
      var d := Dedup(xs[..|xs| - 1]);
      var last := xs[|xs| - 1];
      assert forall i :: 0 <= i < |xs| - 1 ==> xs[i] == xs[..|xs| - 1][i];
      if last in d then d else d + [last]
  }

  /** De-duplication lists the elements in the order in which they first
      appear in the input. */
  lemma {:induction false} DedupOrder<T>(xs: seq<T>)
    ensures forall i, j :: 0 <= i < j < |Dedup(xs)| ==> FirstIndex(xs, Dedup(xs)[i]) < FirstIndex(xs, Dedup(xs)[j])
  {
    if |xs| > 0 {
      var init := xs[..|xs| - 1];
      var last := xs[|xs| - 1];
      var d := Dedup(init);
      var r := Dedup(xs);
      DedupOrder(init);
      assert xs == init + [last];
      forall i | 0 <= i < |d|
        ensures FirstIndex(xs, d[i]) == FirstIndex(init, d[i])
      {
        FirstIndexOfPrefix(init, last, d[i]);
      }
      if last !in d {
        assert r == d + [last];
        assert last !in init;
        assert FirstIndex(xs, last) == |init| by {
          assert xs[|init|] == last;
          assert forall k :: 0 <= k < |init| ==> xs[k] == init[k];
        }
        forall i, j | 0 <= i < j < |r|
          ensures FirstIndex(xs, r[i]) < FirstIndex(xs, r[j])
        {
          assert r[i] == d[i];
          if j < |d| {
            assert r[j] == d[j];
          } else {
            assert r[j] == last;
            assert FirstIndex(init, d[i]) < |init|;
          }
        }
      }
    }
  }

  /** De-duplication only deletes elements. */
  lemma {:induction false} DedupSubsequence<T>(xs: seq<T>)
    ensures SubsequenceOf(Dedup(xs), xs)
  {
    if |xs| > 0 {
      var init := xs[..|xs| - 1];
      var d := Dedup(init);
      var r := Dedup(xs);
      DedupSubsequence(init);
      if xs[|xs| - 1] in d {
        assert r == d;
        SubsequenceDropLast(d, xs);
      } else {
        assert r[..|r| - 1] == d;
      }
    }
  }

  lemma {:induction false} SubsequenceDropLast<T>(a: seq<T>, b: seq<T>)
    requires |b| > 0 && SubsequenceOf(a, b[..|b| - 1])
    ensures SubsequenceOf(a, b)
  {
  }

  // ---------------------------------------------------------------------
  // Sorting strings
  // ---------------------------------------------------------------------

  predicate Sorted(s: seq<string>)
  {
    forall i :: 0 < i < |s| ==> Text.StrLe(s[i - 1], s[i])
  }

  /** A sorted list is ordered between any two positions, not only
      neighbouring ones. */
  lemma {:induction false} SortedIsOrdered(s: seq<string>)
    requires Sorted(s)
    ensures forall i, j :: 0 <= i < j < |s| ==> Text.StrLe(s[i], s[j])
  {
    if |s| > 1 {
      var init := s[..|s| - 1];
      assert forall i :: 0 <= i < |init| ==> init[i] == s[i];
      SortedIsOrdered(init);
      forall i | 0 <= i < |s| - 1
        ensures Text.StrLe(s[i], s[|s| - 1])
      {
        if i < |s| - 2 {
          Text.StrLeTransitive(s[i], s[|s| - 2], s[|s| - 1]);
        }
      }
    }
  }

  /** Sorted without repeats means strictly ascending: no later string
      comes before an earlier one. */
  lemma SortedDistinctIsStrict(s: seq<string>)
    requires Sorted(s) && Distinct(s)
    ensures forall i, j :: 0 <= i < j < |s| ==> Text.StrLe(s[i], s[j]) && !Text.StrLe(s[j], s[i])
  {
    SortedIsOrdered(s);
    forall i, j | 0 <= i < j < |s|
      ensures !Text.StrLe(s[j], s[i])
    {
      if Text.StrLe(s[j], s[i]) {
        Text.StrLeAntisymmetric(s[i], s[j]);
      }
    }
  }

  function Insert(x: string, s: seq<string>): (r: seq<string>)
    requires Sorted(s)
    ensures Sorted(r)
    ensures multiset(r) == multiset(s) + multiset{x}
    ensures |r| == |s| + 1 && (r[0] == x || (|s| > 0 && r[0] == s[0]))
  {
    if |s| == 0 then [x]
    else if Text.StrLe(x, s[0]) then [x] + s
    else
      Text.StrLeTotal(x, s[0]);
      var t := Insert(x, s[1..]);
      assert s == [s[0]] + s[1..];
      [s[0]] + t
  }

  /** Insertion sort: an ascending permutation of `s`. */
  function SortStrings(s: seq<string>): (r: seq<string>)
    ensures Sorted(r)
    ensures multiset(r) == multiset(s)
  {
    if |s| == 0 then []
    else
      assert s == [s[0]] + s[1..];
      Insert(s[0], SortStrings(s[1..]))
  }

  lemma DistinctByMultiset<T>(s: seq<T>, t: seq<T>)
    requires Distinct(s) && multiset(s) == multiset(t)
    ensures Distinct(t)
  {
    forall i, j | 0 <= i < j < |t|
      ensures t[i] != t[j]
    {
      if t[i] == t[j] {
        assert t == t[..i] + [t[i]] + t[i + 1..j] + [t[j]] + t[j + 1..];
        assert multiset(t)[t[i]] >= 2;
        DistinctCountsOne(s, t[i]);
        assert false;
      }
    }
  }

  lemma {:induction false} DistinctCountsOne<T>(s: seq<T>, x: T)
    requires Distinct(s)
    ensures multiset(s)[x] <= 1
  {
    if |s| > 0 {
      assert s == [s[0]] + s[1..];
      DistinctCountsOne(s[1..], x);
      if s[0] == x {
        assert x !in s[1..];
      }
    }
  }

  /** `Array.from(new Set(xs)).sort()`: the distinct strings of `xs` in
      ascending order. */
  function SortedDistinct(xs: seq<string>): (r: seq<string>)
    ensures Sorted(r) && Distinct(r)
    ensures forall i :: 0 <= i < |r| ==> r[i] in xs
    ensures forall i :: 0 <= i < |xs| ==> xs[i] in r
  {
    var d := Dedup(xs);
    var r := SortStrings(d);
    DistinctByMultiset(d, r);
    SameElements(d, r);
    r
  }

  lemma SameElements<T>(s: seq<T>, t: seq<T>)
    requires multiset(s) == multiset(t)
    ensures forall i :: 0 <= i < |t| ==> t[i] in s
    ensures forall i :: 0 <= i < |s| ==> s[i] in t
  {
    forall i | 0 <= i < |t|
      ensures t[i] in s
    {
      assert t[i] in multiset(t);
    }
    forall i | 0 <= i < |s|
      ensures s[i] in t
    {
      assert s[i] in multiset(s);
    }
  }
}

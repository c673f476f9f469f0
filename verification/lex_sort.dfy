/** Kotlin's `sorted()` on a list of strings: the natural, lexicographic
    order of `String.compareTo`, and a sort that produces the ordered
    permutation of its input. */
module LexSort {

  /** `a` is lexicographically at most `b`: a proper prefix comes first,
      otherwise the first differing character decides. */
  predicate LexLe(a: string, b: string) {
    |a| == 0 || (|b| > 0 && (a[0] < b[0] || (a[0] == b[0] && LexLe(a[1..], b[1..]))))
  }

  lemma {:induction false} LexLeReflexive(a: string)
    ensures LexLe(a, a)
  {
    if |a| > 0 {
      LexLeReflexive(a[1..]);
    }
  }

  lemma {:induction false} LexLeAntisymmetric(a: string, b: string)
    requires LexLe(a, b) && LexLe(b, a)
    ensures a == b
  {
    if |a| > 0 {
      LexLeAntisymmetric(a[1..], b[1..]);
      assert a == [a[0]] + a[1..] && b == [b[0]] + b[1..];
    }
  }

  lemma {:induction false} LexLeTransitive(a: string, b: string, c: string)
    requires LexLe(a, b) && LexLe(b, c)
    ensures LexLe(a, c)
  {
    if |a| > 0 && a[0] == b[0] && b[0] == c[0] {
      LexLeTransitive(a[1..], b[1..], c[1..]);
    }
  }

  lemma {:induction false} LexLeTotal(a: string, b: string)
    ensures LexLe(a, b) || LexLe(b, a)
  {
    if |a| > 0 && |b| > 0 && a[0] == b[0] {
      LexLeTotal(a[1..], b[1..]);
    }
  }

  predicate Sorted(s: seq<string>) {
    forall i, j :: 0 <= i < j < |s| ==> LexLe(s[i], s[j])
  }

  /** `h` is at most every element of `s`. */
  predicate LowerBound(h: string, s: seq<string>) {
    forall j :: 0 <= j < |s| ==> LexLe(h, s[j])
  }

  /** Being a lower bound depends only on the elements, not their order. */
  lemma LowerBoundPermutation(h: string, a: seq<string>, b: seq<string>)
    requires LowerBound(h, a) && multiset(a) == multiset(b)
    ensures LowerBound(h, b)
  {
    forall j | 0 <= j < |b| ensures LexLe(h, b[j]) {
      assert b[j] in multiset(a);
      var k :| 0 <= k < |a| && a[k] == b[j];
    }
  }

  lemma ConsSorted(h: string, t: seq<string>)
    requires Sorted(t) && LowerBound(h, t)
    ensures Sorted([h] + t)
  {
    var r := [h] + t;
    forall i, j | 0 <= i < j < |r| ensures LexLe(r[i], r[j]) {
      if i > 0 {
        assert r[i] == t[i - 1] && r[j] == t[j - 1];
      } else {
        assert r[j] == t[j - 1];
      }
    }
  }

  /** Places `x` into a sorted list, keeping it sorted. */
  function Insert(x: string, s: seq<string>): (r: seq<string>)
    requires Sorted(s)
    ensures Sorted(r)
    ensures multiset(r) == multiset(s) + multiset{x}
  {
    if |s| == 0 then [x]
    else
      var h, tail := s[0], s[1..];
      assert s == [h] + tail;
      assert Sorted(tail) && LowerBound(h, tail);
      if LexLe(x, h) then
        assert LowerBound(x, s) by {
          forall j | 0 <= j < |s| ensures LexLe(x, s[j]) {
            if j > 0 {
              LexLeTransitive(x, h, s[j]);
            }
          }
        }
        ConsSorted(x, s);
        [x] + s
      else
        LexLeTotal(x, h);
        var t := Insert(x, tail);
        assert LowerBound(h, tail + [x]);
        assert multiset(tail + [x]) == multiset(t);
        LowerBoundPermutation(h, tail + [x], t);
        ConsSorted(h, t);
        [h] + t
  }

  /** `list.sorted()`: the sorted permutation of `s`. */
  function Sort(s: seq<string>): (r: seq<string>)
    ensures Sorted(r)
    ensures multiset(r) == multiset(s)
  {
    if |s| == 0 then [] else
      assert s == [s[0]] + s[1..];
      Insert(s[0], Sort(s[1..]))
  }

  /** The first element of a sorted list is at most everything in it. */
  lemma HeadIsLeast(s: seq<string>, y: string)
    requires Sorted(s) && |s| > 0 && y in multiset(s)
    ensures LexLe(s[0], y)
  {
    var k :| 0 <= k < |s| && s[k] == y;
    if k == 0 {
      LexLeReflexive(y);
    }
  }

  lemma TailMultiset(s: seq<string>)
    requires |s| > 0
    ensures multiset(s[1..]) == multiset(s) - multiset{s[0]}
  {
    assert s == [s[0]] + s[1..];
  }

  lemma TailSorted(s: seq<string>)
    requires Sorted(s) && |s| > 0
    ensures Sorted(s[1..])
  {
  }

  /** A multiset has only one sorted arrangement: two sorted lists with the
      same elements, counted with multiplicity, are equal. */
  lemma {:induction false} SortedUnique(a: seq<string>, b: seq<string>)
    requires Sorted(a) && Sorted(b)
    requires multiset(a) == multiset(b)
    ensures a == b
  {
    if |a| == 0 {
      assert |b| == |multiset(b)| == 0;
    } else {
      assert |b| == |multiset(b)| == |multiset(a)| == |a|;
      assert a[0] in multiset(a) && b[0] in multiset(b);
      HeadIsLeast(a, b[0]);
      HeadIsLeast(b, a[0]);
      LexLeAntisymmetric(a[0], b[0]);
      TailMultiset(a);
      TailMultiset(b);
      TailSorted(a);
      TailSorted(b);
      SortedUnique(a[1..], b[1..]);
      assert a == [a[0]] + a[1..] && b == [b[0]] + b[1..];
    }
  }

  /** Two sorted lists are equal exactly when they hold the same elements
      with the same multiplicities. */
  lemma SortedEqualIffSameElements(a: seq<string>, b: seq<string>)
    requires Sorted(a) && Sorted(b)
    ensures a == b <==> multiset(a) == multiset(b)
  {
    if multiset(a) == multiset(b) {
      SortedUnique(a, b);
    }
  }
}

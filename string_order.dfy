/**
  * Python's ordering of `str` values and `sorted()` on a list of names:
  * strings compare code point by code point, and a proper prefix comes
  * first. The order is total, so the sorted arrangement of a list is
  * unique, whatever algorithm produces it.
  */
module StringOrder {

  /** Python's `a <= b` on strings. */
  predicate Le(a: string, b: string)
    decreases |a|
  {
    |a| == 0 || (|b| > 0 && (a[0] < b[0] || (a[0] == b[0] && Le(a[1..], b[1..]))))
  }

  lemma {:induction false} LeReflexive(a: string)
    ensures Le(a, a)
    decreases |a|
  {
    if |a| > 0 {
      LeReflexive(a[1..]);
    }
  }

  lemma {:induction false} LeTotal(a: string, b: string)
    ensures Le(a, b) || Le(b, a)
    decreases |a|
  {
    if |a| > 0 && |b| > 0 && a[0] == b[0] {
      LeTotal(a[1..], b[1..]);
    }
  }

  lemma {:induction false} LeAntisymmetric(a: string, b: string)
    requires Le(a, b) && Le(b, a)
    ensures a == b
    decreases |a|
  {
    if |a| > 0 {
      LeAntisymmetric(a[1..], b[1..]);
      assert a == [a[0]] + a[1..] && b == [b[0]] + b[1..];
    }
  }

  lemma {:induction false} LeTransitive(a: string, b: string, c: string)
    requires Le(a, b) && Le(b, c)
    ensures Le(a, c)
    decreases |a|
  {
    if |a| > 0 && a[0] == b[0] && b[0] == c[0] {
      LeTransitive(a[1..], b[1..], c[1..]);
    }
  }

  /** Two strings that agree before position `k` and differ there are ordered by that character. */
  lemma {:induction false} LeAt(a: string, b: string, k: nat)
    requires k < |a| && k < |b| && a[..k] == b[..k] && a[k] < b[k]
    ensures Le(a, b) && a != b
    decreases k
  {
    if k > 0 {
      assert a[1..][..k - 1] == a[..k][1..] == b[..k][1..] == b[1..][..k - 1];
      assert a[0] == a[..k][0] == b[..k][0] == b[0];
      LeAt(a[1..], b[1..], k - 1);
    }
  }

  predicate Sorted(s: seq<string>) {
    forall i, j :: 0 <= i < j < |s| ==> Le(s[i], s[j])
  }

  /** Neighbours in order make the whole sequence ordered. */
  lemma {:induction false} AdjacentSorted(s: seq<string>)
    requires forall i :: 0 < i < |s| ==> Le(s[i - 1], s[i])
    ensures Sorted(s)
    decreases |s|
  {
    if |s| > 1 {
      var t := s[1..];
      forall i | 0 < i < |t| ensures Le(t[i - 1], t[i]) {
        assert t[i - 1] == s[i] && t[i] == s[i + 1];
      }
      AdjacentSorted(t);
      forall j | 1 < j < |s| ensures Le(s[0], s[j]) {
        assert t[0] == s[1] && t[j - 1] == s[j];
        LeTransitive(s[0], s[1], s[j]);
      }
      forall i, j | 0 < i < j < |s| ensures Le(s[i], s[j]) {
        assert t[i - 1] == s[i] && t[j - 1] == s[j];
      }
    }
  }

  function Insert(x: string, s: seq<string>): (r: seq<string>)
    ensures multiset(r) == multiset(s) + multiset{x}
    decreases |s|
  {
    if |s| == 0 then [x]
    else if Le(x, s[0]) then [x] + s
    else
      assert s == [s[0]] + s[1..];
      [s[0]] + Insert(x, s[1..])
  }

  lemma {:induction false} InsertSorted(x: string, s: seq<string>)
    requires Sorted(s)
    ensures Sorted(Insert(x, s))
    decreases |s|
  {
    if |s| > 0 {
      if Le(x, s[0]) {
        forall j | 0 < j < |s| ensures Le(x, s[j]) {
          LeTransitive(x, s[0], s[j]);
        }
      } else {
        SortedTail(s);
        InsertSorted(x, s[1..]);
        var r := Insert(x, s);
        var tail := Insert(x, s[1..]);
        LeTotal(x, s[0]);
        forall k | 0 <= k < |s[1..]| ensures Le(s[0], s[1..][k]) {
          assert s[1..][k] == s[k + 1];
        }
        InsertLowerBound(x, s[1..], s[0]);
        assert r == [s[0]] + tail;
        forall i, j | 0 <= i < j < |r| ensures Le(r[i], r[j]) {
          if i > 0 { assert r[i] == tail[i - 1] && r[j] == tail[j - 1]; }
        }
      }
    }
  }

  /** A bound below `x` and below every element of `s` stays below every element after inserting `x`. */
  lemma InsertLowerBound(x: string, s: seq<string>, y: string)
    requires Le(y, x) && forall k :: 0 <= k < |s| ==> Le(y, s[k])
    ensures forall j :: 0 <= j < |Insert(x, s)| ==> Le(y, Insert(x, s)[j])
  {
    var r := Insert(x, s);
    forall j | 0 <= j < |r| ensures Le(y, r[j]) {
      assert r[j] in multiset(r);
      if r[j] != x {
        assert r[j] in multiset(s);
        var k :| 0 <= k < |s| && s[k] == r[j];
      }
    }
  }

  /** Python's `sorted(names)`: the names in ascending order, each kept as often as it occurs. */
  function Sort(xs: seq<string>): (r: seq<string>)
    ensures Sorted(r) && multiset(r) == multiset(xs)
    decreases |xs|
  {
    if |xs| == 0 then []
    else
      assert xs == [xs[0]] + xs[1..];
      var rest := Sort(xs[1..]);
      InsertSorted(xs[0], rest);
      Insert(xs[0], rest)
  }

  lemma SortLength(xs: seq<string>)
    ensures |Sort(xs)| == |xs|
  {
    assert |multiset(Sort(xs))| == |multiset(xs)|;
  }

  lemma SortedFirstIsLeast(s: seq<string>, x: string)
    requires Sorted(s) && x in s
    ensures Le(s[0], x)
  {
    var k :| 0 <= k < |s| && s[k] == x;
    if k == 0 { LeReflexive(x); }
  }

  lemma SortedTail(s: seq<string>)
    requires Sorted(s) && |s| > 0
    ensures Sorted(s[1..])
  {
    forall i, j | 0 <= i < j < |s| - 1 ensures Le(s[1..][i], s[1..][j]) {
      assert s[1..][i] == s[i + 1] && s[1..][j] == s[j + 1];
    }
  }

  /** Two sorted arrangements of the same names are the same sequence. */
  lemma {:induction false} SortedUnique(a: seq<string>, b: seq<string>)
    requires Sorted(a) && Sorted(b) && multiset(a) == multiset(b)
    ensures a == b
    decreases |a|
  {
    assert |a| == |multiset(a)| == |multiset(b)| == |b|;
    if |a| > 0 {
      assert a[0] in multiset(b) && b[0] in multiset(a);
      SortedFirstIsLeast(b, a[0]);
      SortedFirstIsLeast(a, b[0]);
      LeAntisymmetric(a[0], b[0]);
      assert a == [a[0]] + a[1..] && b == [b[0]] + b[1..];
      assert multiset(a[1..]) == multiset(a) - multiset{a[0]};
      assert multiset(b[1..]) == multiset(b) - multiset{b[0]};
      SortedTail(a);
      SortedTail(b);
      SortedUnique(a[1..], b[1..]);
    }
  }
}

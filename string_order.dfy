/** Java's `String.compareTo`, the order behind `StringComparator`, `TreeSet<String>` and the
    child-label tie-break of the campus search. */
module StringOrder {

  /** `a.compareTo(b)`: the difference of the first pair of differing characters, or the
      difference of the lengths when one string is a prefix of the other. */
  function Compare(a: string, b: string): (r: int)
    ensures (|a| <= |b| && a == b[..|a|]) || (|b| <= |a| && b == a[..|b|]) ==> r == |a| - |b|
    decreases |a|
  {
    if a == [] || b == [] then |a| - |b|
    else if a[0] != b[0] then a[0] as int - b[0] as int
    else
      Compare(a[1..], b[1..])
  }

  /** At the first position where the strings differ, `compareTo` is the difference of the two
      characters there. */
  lemma {:induction false} CompareAtFirstDifference(a: string, b: string, i: nat)
    requires i < |a| && i < |b| && a[..i] == b[..i] && a[i] != b[i]
    ensures Compare(a, b) == a[i] as int - b[i] as int
  {
    if i > 0 {
      assert a[0] == a[..i][0] == b[..i][0] == b[0];
      assert a[1..][..i - 1] == a[..i][1..] == b[..i][1..] == b[1..][..i - 1];
      CompareAtFirstDifference(a[1..], b[1..], i - 1);
    }
  }

  /** `a` sorts no later than `b`. */
  predicate Le(a: string, b: string) { Compare(a, b) <= 0 }

  /** `a` sorts strictly before `b`. */
  predicate Lt(a: string, b: string) { Compare(a, b) < 0 }

  /** `compareTo` returns zero exactly on equal strings. */
  lemma {:induction false} CompareZero(a: string, b: string)
    ensures Compare(a, b) == 0 <==> a == b
  {
    if a != [] && b != [] && a[0] == b[0] {
      CompareZero(a[1..], b[1..]);
      assert a == [a[0]] + a[1..] && b == [b[0]] + b[1..];
    }
  }

  /** Swapping the arguments negates the result. */
  lemma {:induction false} CompareAntisymmetric(a: string, b: string)
    ensures Compare(b, a) == -Compare(a, b)
  {
    if a != [] && b != [] && a[0] == b[0] {
      CompareAntisymmetric(a[1..], b[1..]);
    }
  }

  /** Any two strings are comparable. */
  lemma LeTotal(a: string, b: string)
    ensures Le(a, b) || Le(b, a)
  {
    CompareAntisymmetric(a, b);
  }

  /** The order is transitive. */
  lemma {:induction false} LeTransitive(a: string, b: string, c: string)
    requires Le(a, b) && Le(b, c)
    ensures Le(a, c)
  {
    if a != [] && b != [] && c != [] && a[0] == b[0] && b[0] == c[0] {
      LeTransitive(a[1..], b[1..], c[1..]);
    }
  }

  /** A strict ascending run: every earlier entry sorts strictly before every later one. */
  ghost predicate StrictlyAscending(s: seq<string>) {
    forall i, j :: 0 <= i < j < |s| ==> Lt(s[i], s[j])
  }

  /** A strict ascending run never repeats: its later entries all differ from its first. */
  lemma AscendingHeadUnique(s: seq<string>)
    requires StrictlyAscending(s) && s != []
    ensures forall x :: x in s[1..] <==> x in s && x != s[0]
  {
    forall i | 1 <= i < |s| ensures s[i] != s[0] {
      CompareZero(s[0], s[i]);
    }
  }

  /** Lists with the same elements are empty together. */
  lemma SameElementsEmpty(a: seq<string>, b: seq<string>)
    requires forall x :: x in a <==> x in b
    ensures a == [] <==> b == []
  {
    if a != [] {
      assert a[0] in b;
    }
    if b != [] {
      assert b[0] in a;
    }
  }

  /** Two strict ascending runs over the same elements are the same list: at most one order
      lists a set strictly ascending. */
  lemma {:induction false} AscendingUnique(a: seq<string>, b: seq<string>)
    requires StrictlyAscending(a) && StrictlyAscending(b)
    requires forall x :: x in a <==> x in b
    ensures a == b
    decreases |a|
  {
    SameElementsEmpty(a, b);
    if a != [] {
      assert a[0] in b;
      assert b[0] in b;
      if a[0] != b[0] {
        var k :| 0 <= k < |b| && b[k] == a[0];
        var m :| 0 <= m < |a| && a[m] == b[0];
        assert Lt(b[0], a[0]) && Lt(a[0], b[0]);
        CompareAntisymmetric(a[0], b[0]);
        assert false;
      }
      AscendingHeadUnique(a);
      AscendingHeadUnique(b);
      AscendingUnique(a[1..], b[1..]);
      assert a == [a[0]] + a[1..] && b == [b[0]] + b[1..];
    }
  }

  /** Every finite non-empty set of strings has a least element. */
  lemma {:induction false} MinExists(s: set<string>)
    requires s != {}
    ensures exists m :: m in s && forall y :: y in s ==> Le(m, y)
    decreases |s|
  {
    var x :| x in s;
    if s == {x} {
      CompareZero(x, x);
      assert forall y :: y in s ==> y == x;
    } else {
      MinExists(s - {x});
      var m :| m in s - {x} && forall y :: y in s - {x} ==> Le(m, y);
      if Le(x, m) {
        CompareZero(x, x);
        forall y | y in s ensures Le(x, y) {
          if y != x { LeTransitive(x, m, y); }
        }
      } else {
        LeTotal(x, m);
        assert forall y :: y in s ==> Le(m, y);
      }
    }
  }

  /** Iteration over a `TreeSet<String>`: each element once, in ascending order. */
  method SortedFromSet(s: set<string>) returns (r: seq<string>)
    ensures StrictlyAscending(r)
    ensures forall x :: x in r <==> x in s
    ensures |r| == |s|
  {
    var rest := s;
    r := [];
    while rest != {}
      invariant rest <= s
      invariant forall x :: x in s <==> x in r || x in rest
      invariant forall x :: x in r ==> x !in rest
      invariant StrictlyAscending(r)
      invariant forall x, y :: x in r && y in rest ==> Lt(x, y)
      invariant |r| + |rest| == |s|
      decreases |rest|
    {
      MinExists(rest);
      var m :| m in rest && forall y :: y in rest ==> Le(m, y);
      forall y | y in rest - {m} ensures Lt(m, y) { CompareZero(m, y); }
      r := r + [m];
      rest := rest - {m};
    }
  }
}

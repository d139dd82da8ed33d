/** The order Python's sorted() puts strings in, and the sorted listing of a set. */
module StringOrder {

  /** Lexicographic order by code point. */
  predicate Le(a: string, b: string) {
    if a == [] then true
    else if b == [] then false
    else if a[0] != b[0] then a[0] < b[0]
    else Le(a[1..], b[1..])
  }

  lemma {:induction false} LeAntisymmetric(a: string, b: string)
    requires Le(a, b) && Le(b, a)
    ensures a == b
  {
    if a != [] && b != [] {
      LeAntisymmetric(a[1..], b[1..]);
      assert a == [a[0]] + a[1..];
      assert b == [b[0]] + b[1..];
    }
  }

  lemma {:induction false} LeTransitive(a: string, b: string, c: string)
    requires Le(a, b) && Le(b, c)
    ensures Le(a, c)
  {
    if a != [] && a[0] == b[0] == c[0] {
      LeTransitive(a[1..], b[1..], c[1..]);
    }
  }

  lemma {:induction false} LeTotal(a: string, b: string)
    ensures Le(a, b) || Le(b, a)
  {
    if a != [] && b != [] && a[0] == b[0] {
      LeTotal(a[1..], b[1..]);
    }
  }

  /** a and b agree up to k, where a has the smaller character. */
  ghost predicate SmallerAt(a: string, b: string, k: int) {
    0 <= k < |a| && k < |b| && a[..k] == b[..k] && a[k] < b[k]
  }

  /** A string comes before those it is a prefix of, and before those with the greater character at the first
      difference. */
  lemma {:induction false} LeIsLexicographic(a: string, b: string)
    ensures Le(a, b) <==> a <= b || exists k :: SmallerAt(a, b, k)
  {
    if a == [] || b == [] {
    } else if a[0] != b[0] {
      if a[0] < b[0] { assert SmallerAt(a, b, 0); }
    } else {
      LeIsLexicographic(a[1..], b[1..]);
      PrefixOfMore(a, b);
      if k :| SmallerAt(a[1..], b[1..], k) {
        assert a[..k + 1] == [a[0]] + a[1..][..k] && b[..k + 1] == [b[0]] + b[1..][..k];
        assert SmallerAt(a, b, k + 1);
      }
      if k :| SmallerAt(a, b, k) {
        assert a[1..][..k - 1] == a[..k][1..] && b[1..][..k - 1] == b[..k][1..];
        assert SmallerAt(a[1..], b[1..], k - 1);
      }
    }
  }

  lemma PrefixOfMore(a: string, b: string)
    requires a != [] && b != [] && a[0] == b[0]
    ensures a <= b <==> a[1..] <= b[1..]
  {
    assert a == [a[0]] + a[1..] && b == [b[0]] + b[1..];
    if a <= b {
      assert b[..|a|] == a;
      assert b[1..][..|a| - 1] == a[1..];
    }
    if a[1..] <= b[1..] {
      assert b[1..][..|a| - 1] == a[1..];
      assert b[..|a|] == a;
    }
  }

  predicate IsLeast(m: string, s: set<string>) {
    m in s && forall x | x in s :: Le(m, x)
  }

  lemma {:induction false} LeastExists(s: set<string>)
    requires s != {}
    ensures exists m :: IsLeast(m, s)
  {
    var x :| x in s;
    LeTotal(x, x);
    if s == {x} {
      assert IsLeast(x, s);
    } else {
      var t := s - {x};
      LeastExists(t);
      var m :| IsLeast(m, t);
      LeTotal(x, m);
      var least := if Le(x, m) then x else m;
      forall y | y in s ensures Le(least, y) {
        if y != x && least == x { LeTransitive(x, m, y); }
      }
      assert IsLeast(least, s);
    }
  }

  function Least(s: set<string>): (m: string)
    requires s != {}
    ensures IsLeast(m, s)
  {
    LeastExists(s);
    assert forall a, b | IsLeast(a, s) && IsLeast(b, s) :: a == b by {
      forall a, b | IsLeast(a, s) && IsLeast(b, s) ensures a == b { LeAntisymmetric(a, b); }
    }
    var m :| m in s && IsLeast(m, s);
    m
  }

  /** Strictly ascending: sorted with no repetition. */
  ghost predicate Ascending(xs: seq<string>) {
    forall i, j | 0 <= i < j < |xs| :: Le(xs[i], xs[j]) && xs[i] != xs[j]
  }

  /** sorted(s), for a set of strings. */
  function Sorted(s: set<string>): (r: seq<string>)
    ensures forall x :: x in r <==> x in s
    ensures |r| == |s|
  {
    if s == {} then []
    else
      var m := Least(s);
      [m] + Sorted(s - {m})
  }

  lemma AscendingWithLeast(m: string, rest: seq<string>)
    requires Ascending(rest) && forall x | x in rest :: Le(m, x) && m != x
    ensures Ascending([m] + rest)
  {
    var all := [m] + rest;
    forall i, j | 0 <= i < j < |all| ensures Le(all[i], all[j]) && all[i] != all[j] {
      assert all[j] == rest[j - 1];
      if i > 0 { assert all[i] == rest[i - 1]; }
    }
  }

  lemma {:induction false} SortedAscends(s: set<string>)
    ensures Ascending(Sorted(s))
  {
    if s == {} {
    } else {
      var m := Least(s);
      SortedAscends(s - {m});
      AscendingWithLeast(m, Sorted(s - {m}));
    }
  }

  /** There is only one ascending listing of a set. */
  lemma {:induction false} AscendingIsSorted(xs: seq<string>, s: set<string>)
    requires Ascending(xs) && forall x :: x in xs <==> x in s
    ensures xs == Sorted(s)
  {
    if xs == [] {
      assert s == {};
    } else {
      var m, rest := xs[0], xs[1..];
      assert xs == [m] + rest;
      LeTotal(m, m);
      assert IsLeast(m, s);
      LeAntisymmetric(m, Least(s));
      assert forall j | 0 <= j < |rest| :: rest[j] == xs[j + 1];
      AscendingIsSorted(rest, s - {m});
    }
  }
}

/** Python's ordering of `str` values (code point by code point) and `sorted(set(...))`. */
module Ordering {

  /** `a <= b` for Python strings: lexicographic on code points, a prefix first. */
  predicate StrLe(a: string, b: string)
  {
    |a| == 0 || (|b| > 0 && (a[0] < b[0] || (a[0] == b[0] && StrLe(a[1..], b[1..]))))
  }

  predicate StrLt(a: string, b: string)
  {
    StrLe(a, b) && a != b
  }

  lemma StrLeTotal(a: string, b: string)
    ensures StrLe(a, b) || StrLe(b, a)
  {
    if |a| > 0 && |b| > 0 && a[0] == b[0] {
      StrLeTotal(a[1..], b[1..]);
    }
  }

  lemma StrLeReflexive(a: string)
    ensures StrLe(a, a)
  {
    if |a| > 0 {
      StrLeReflexive(a[1..]);
    }
  }

  lemma StrLeAntisymmetric(a: string, b: string)
    requires StrLe(a, b) && StrLe(b, a)
    ensures a == b
  {
    SameElementsBothEmpty(a, b);
    if |a| > 0 {
      StrLeAntisymmetric(a[1..], b[1..]);
      assert a == [a[0]] + a[1..] && b == [b[0]] + b[1..];
    }
  }

  lemma StrLeTransitive(a: string, b: string, c: string)
    requires StrLe(a, b) && StrLe(b, c)
    ensures StrLe(a, c)
  {
    if |a| > 0 && |b| > 0 && |c| > 0 && a[0] == b[0] && b[0] == c[0] {
      StrLeTransitive(a[1..], b[1..], c[1..]);
    }
  }

  lemma StrLtTransitive(a: string, b: string, c: string)
    requires StrLt(a, b) && StrLe(b, c)
    ensures StrLt(a, c)
  {
    StrLeTransitive(a, b, c);
    if a == c {
      StrLeAntisymmetric(a, b);
    }
  }

  /** Strictly increasing: sorted and free of duplicates. */
  ghost predicate StrictlySorted(s: seq<string>)
  {
    forall i, j :: 0 <= i < j < |s| ==> StrLt(s[i], s[j])
  }

  /** Inserts `x` into a strictly sorted sequence unless it is already there. */
  function Insert(x: string, s: seq<string>): (r: seq<string>)
    requires StrictlySorted(s)
    ensures StrictlySorted(r)
    ensures forall y :: y in r <==> y == x || y in s
    ensures |r| == if x in s then |s| else |s| + 1
  {
    if |s| == 0 then [x]
    else if x == s[0] then s
    else if StrLe(x, s[0]) then
      assert forall j :: 0 < j < |s| ==> StrLt(x, s[j]) by {
        forall j | 0 < j < |s| ensures StrLt(x, s[j]) { StrLtTransitive(x, s[0], s[j]); }
      }
      [x] + s
    else
      StrLeTotal(x, s[0]);
      var rest := Insert(x, s[1..]);
      assert forall y :: y in rest ==> StrLt(s[0], y);
      [s[0]] + rest
  }

  /** `sorted(set(xs))`: the distinct values of `xs` in increasing order. */
  function SortedUnique(xs: seq<string>): (r: seq<string>)
    ensures StrictlySorted(r)
    ensures forall y :: y in r <==> y in xs
  {
    if |xs| == 0 then []
    else Insert(xs[|xs| - 1], SortedUnique(xs[..|xs| - 1]))
  }

  /** Two strictly sorted sequences holding the same strings are the same sequence,
      so `SortedUnique` is the only possible result of sorting a set. */
  lemma {:induction false} StrictlySortedUnique(a: seq<string>, b: seq<string>)
    requires StrictlySorted(a) && StrictlySorted(b)
    requires forall y :: y in a <==> y in b
    ensures a == b
  {
    SameElementsBothEmpty(a, b);
    if |a| > 0 {
      assert b[0] in a && a[0] in b;
      assert StrLe(a[0], b[0]) by {
        var k :| 0 <= k < |a| && a[k] == b[0];
        if k == 0 { StrLeReflexive(a[0]); }
      }
      assert StrLe(b[0], a[0]) by {
        var k :| 0 <= k < |b| && b[k] == a[0];
        if k == 0 { StrLeReflexive(b[0]); }
      }
      StrLeAntisymmetric(a[0], b[0]);
      forall y ensures y in a[1..] <==> y in b[1..] {
        if y in a[1..] {
          var k :| 1 <= k < |a| && a[k] == y;
          assert StrLt(a[0], a[k]);
          assert y in b;
          var m :| 0 <= m < |b| && b[m] == y;
          assert m != 0;
          assert b[1..][m - 1] == y;
        }
        if y in b[1..] {
          var k :| 1 <= k < |b| && b[k] == y;
          assert StrLt(b[0], b[k]);
          assert y in a;
          var m :| 0 <= m < |a| && a[m] == y;
          assert m != 0;
          assert a[1..][m - 1] == y;
        }
      }
      StrictlySortedUnique(a[1..], b[1..]);
      assert a == [a[0]] + a[1..] && b == [b[0]] + b[1..];
    }
  }

  lemma SameElementsBothEmpty<T>(a: seq<T>, b: seq<T>)
    requires forall y :: y in a <==> y in b
    ensures |a| == 0 <==> |b| == 0
  {
    if |a| > 0 {
      assert a[0] in b;
    }
    if |b| > 0 {
      assert b[0] in a;
    }
  }

  /** The number of entries of `sorted(set(xs))` is the number of distinct values of `xs`. */
  lemma {:induction false} SortedUniqueLength(xs: seq<string>)
    ensures |SortedUnique(xs)| == |set y | y in xs|
  {
    if |xs| > 0 {
      var init := xs[..|xs| - 1];
      SortedUniqueLength(init);
      var last := xs[|xs| - 1];
      assert xs == init + [last];
      var s0 := set y | y in init;
      assert (set y | y in xs) == s0 + {last};
      if last in init {
        assert s0 + {last} == s0;
      } else {
        assert last !in s0;
        assert |s0 + {last}| == |s0| + 1;
      }
    }
  }

  /** The union of a sequence of sets. */
  function Union(sets: seq<set<string>>): (r: set<string>)
    ensures forall x :: x in r <==> exists i :: 0 <= i < |sets| && x in sets[i]
  {
    if |sets| == 0 then {}
    else
      var init := sets[..|sets| - 1];
      assert forall i :: 0 <= i < |init| ==> init[i] == sets[i];
      Union(init) + sets[|sets| - 1]
  }

  /** `sorted(s)` for a set of strings: its members in increasing order, each once. */
  method SortSet(s: set<string>) returns (r: seq<string>)
    ensures StrictlySorted(r)
    ensures forall y :: y in r <==> y in s
    ensures |r| == |s|
  {
    r := [];
    var rest := s;
    while rest != {}
      invariant rest <= s
      invariant StrictlySorted(r)
      invariant forall y :: y in r <==> y in s && y !in rest
      invariant |r| + |rest| == |s|
      decreases |rest|
    {
      var x :| x in rest;
      r := Insert(x, r);
      rest := rest - {x};
    }
  }
}

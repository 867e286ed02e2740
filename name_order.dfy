/**
 * Sorted listings of remote object names.  `SortNames` is `list.sort()` on a
 * list of names; `SortedNames` is the specification side: the one strictly
 * increasing enumeration of a finite set of names.
 */
module NameOrder {
  import opened Strings

  predicate Sorted(s: seq<string>)
  {
    forall i, j :: 0 <= i < j < |s| ==> LexLe(s[i], s[j])
  }

  predicate StrictlySorted(s: seq<string>)
  {
    forall i, j :: 0 <= i < j < |s| ==> LexLess(s[i], s[j])
  }

  predicate Distinct(s: seq<string>)
  {
    forall i, j :: 0 <= i < j < |s| ==> s[i] != s[j]
  }

  function Elems(s: seq<string>): set<string>
  {
    set x | x in s
  }

  lemma ElemsAppend(s: seq<string>, x: string)
    ensures Elems(s + [x]) == Elems(s) + {x}
  {
    assert forall y :: y in s + [x] <==> y in s || y == x;
  }

  /** Inserts `x` into a sorted list before the first element not below it. */
  function Insert(s: seq<string>, x: string): (r: seq<string>)
    requires Sorted(s)
    ensures Sorted(r)
    ensures multiset(r) == multiset(s) + multiset{x}
  {
    if s == [] then [x]
    else if LexLe(x, s[0]) then
      InsertFront(s, x);
      [x] + s
    else
      var rest := Insert(s[1..], x);
      LexTrichotomy(x, s[0]);
      InsertBehind(s, x, rest);
      [s[0]] + rest
  }

  lemma InsertFront(s: seq<string>, x: string)
    requires Sorted(s) && s != [] && LexLe(x, s[0])
    ensures Sorted([x] + s)
  {
    forall j | 0 < j < |s| ensures LexLe(x, s[j]) {
      if x != s[0] && s[0] != s[j] {
        LexLessTransitive(x, s[0], s[j]);
      }
    }
  }

  lemma InsertBehind(s: seq<string>, x: string, rest: seq<string>)
    requires Sorted(s) && s != [] && LexLess(s[0], x)
    requires Sorted(rest) && multiset(rest) == multiset(s[1..]) + multiset{x}
    ensures Sorted([s[0]] + rest)
    ensures multiset([s[0]] + rest) == multiset(s) + multiset{x}
  {
    assert s == [s[0]] + s[1..];
    forall k | 0 <= k < |rest| ensures LexLe(s[0], rest[k]) {
      assert rest[k] in multiset(rest);
      if rest[k] != x {
        assert rest[k] in s[1..];
      }
    }
  }

  /** `matching.sort()`: an ordered permutation of the input. */
  method SortNames(xs: seq<string>) returns (ys: seq<string>)
    ensures Sorted(ys) && multiset(ys) == multiset(xs)
    ensures Distinct(xs) ==> StrictlySorted(ys)
  {
    ys := [];
    for i := 0 to |xs|
      invariant Sorted(ys) && multiset(ys) == multiset(xs[..i])
    {
      assert xs[..i + 1] == xs[..i] + [xs[i]];
      ys := Insert(ys, xs[i]);
    }
    assert xs[..|xs|] == xs;
    if Distinct(xs) {
      SortedOfDistinct(xs, ys);
    }
  }

  lemma {:induction false} DistinctCount(xs: seq<string>, v: string)
    requires Distinct(xs)
    ensures multiset(xs)[v] <= 1
  {
    if xs != [] {
      var n := |xs| - 1;
      assert xs == xs[..n] + [xs[n]];
      DistinctCount(xs[..n], v);
      assert xs[n] !in xs[..n];
    }
  }

  lemma RepeatCount(ys: seq<string>, i: int, j: int)
    requires 0 <= i < j < |ys| && ys[i] == ys[j]
    ensures multiset(ys)[ys[i]] >= 2
  {
    assert ys == ys[..j] + ys[j..];
    assert ys[i] in ys[..j] && ys[j] in ys[j..];
  }

  lemma SortedOfDistinct(xs: seq<string>, ys: seq<string>)
    requires Distinct(xs) && Sorted(ys) && multiset(ys) == multiset(xs)
    ensures StrictlySorted(ys)
  {
    forall i, j | 0 <= i < j < |ys| ensures LexLess(ys[i], ys[j]) {
      if ys[i] == ys[j] {
        RepeatCount(ys, i, j);
        DistinctCount(xs, ys[i]);
      }
    }
  }

  /** `x` is the least name of `S`. */
  ghost predicate IsLeast(x: string, S: set<string>)
  {
    x in S && forall y :: y in S ==> LexLe(x, y)
  }

  lemma {:induction false} LeastExists(S: set<string>)
    requires S != {}
    ensures exists x :: IsLeast(x, S)
  {
    var z :| z in S;
    if S == {z} {
      assert IsLeast(z, S);
    } else {
      LeastExists(S - {z});
      var x :| IsLeast(x, S - {z});
      LexTrichotomy(x, z);
      if LexLe(x, z) {
        assert IsLeast(x, S);
      } else {
        forall y | y in S ensures LexLe(z, y) {
          if y != z {
            assert LexLe(x, y);
            if x != y {
              LexLessTransitive(z, x, y);
            }
          }
        }
        assert IsLeast(z, S);
      }
    }
  }

  /** The lexicographically least name of a non-empty set. */
  ghost function Least(S: set<string>): (x: string)
    requires S != {}
    ensures IsLeast(x, S)
  {
    LeastExists(S);
    var x :| IsLeast(x, S); x
  }

  /** The names of `S` in increasing order. */
  ghost function SortedNames(S: set<string>): (s: seq<string>)
    ensures StrictlySorted(s) && Elems(s) == S && |s| == |S|
    decreases |S|
  {
    if S == {} then []
    else
      var x := Least(S);
      var rest := SortedNames(S - {x});
      SortedCons(x, S, rest);
      [x] + rest
  }

  lemma SortedCons(x: string, S: set<string>, rest: seq<string>)
    requires IsLeast(x, S)
    requires StrictlySorted(rest) && Elems(rest) == S - {x}
    ensures StrictlySorted([x] + rest) && Elems([x] + rest) == S
  {
    forall k | 0 <= k < |rest| ensures LexLess(x, rest[k]) {
      assert rest[k] in Elems(rest);
    }
    forall y | y in S ensures y in Elems([x] + rest) {
      if y != x {
        assert y in Elems(rest);
      }
    }
    forall y | y in Elems([x] + rest) ensures y in S {
      if y != x {
        assert y in rest;
        assert y in Elems(rest);
      }
    }
  }

  lemma ElemsTail(s: seq<string>)
    requires StrictlySorted(s) && s != []
    ensures Elems(s[1..]) == Elems(s) - {s[0]}
    ensures s[0] !in Elems(s[1..])
  {
    LexLessIrreflexive(s[0]);
    assert s == [s[0]] + s[1..];
    forall y | y in Elems(s[1..]) ensures y != s[0] {
      var k :| 0 <= k < |s[1..]| && s[1..][k] == y;
      assert s[k + 1] == y;
    }
  }

  /** A strictly increasing list is determined by its elements. */
  lemma {:induction false} SortedUnique(s: seq<string>, t: seq<string>)
    requires StrictlySorted(s) && StrictlySorted(t) && Elems(s) == Elems(t)
    ensures s == t
  {
    assert s != [] ==> s[0] in Elems(s);
    assert t != [] ==> t[0] in Elems(t);
    if s != [] && t != [] {
      assert s[0] in Elems(t) && t[0] in Elems(s);
      var i :| 0 <= i < |s| && s[i] == t[0];
      var j :| 0 <= j < |t| && t[j] == s[0];
      assert s[0] == t[0] by {
        if i > 0 && j > 0 {
          LexLessTransitive(s[0], s[i], s[0]);
          LexLessIrreflexive(s[0]);
        }
      }
      ElemsTail(s);
      ElemsTail(t);
      SortedUnique(s[1..], t[1..]);
      assert s == [s[0]] + s[1..] && t == [t[0]] + t[1..];
    }
  }

  /** The sorted listing that a strictly increasing list of the same names is. */
  lemma SortedNamesOf(s: seq<string>, S: set<string>)
    requires StrictlySorted(s) && Elems(s) == S
    ensures SortedNames(S) == s
  {
    SortedUnique(s, SortedNames(S));
  }

  lemma {:induction false} StrictlySortedCard(s: seq<string>)
    requires StrictlySorted(s)
    ensures |Elems(s)| == |s|
  {
    if s != [] {
      ElemsTail(s);
      StrictlySortedCard(s[1..]);
    }
  }

  lemma StrictlySortedDistinct(s: seq<string>)
    requires StrictlySorted(s)
    ensures Distinct(s)
  {
    forall i, j | 0 <= i < j < |s| ensures s[i] != s[j] {
      LexLessIrreflexive(s[i]);
    }
  }

  /** Splitting a list without repeats splits its elements. */
  lemma ElemsSplit(s: seq<string>, c: int)
    requires Distinct(s) && 0 <= c <= |s|
    ensures Elems(s[..c]) <= Elems(s)
    ensures Elems(s[c..]) == Elems(s) - Elems(s[..c])
  {
    assert s == s[..c] + s[c..];
    forall x | x in Elems(s[c..]) ensures x !in Elems(s[..c]) {
      var j :| 0 <= j < |s| - c && s[c..][j] == x;
    }
  }
}

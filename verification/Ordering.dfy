/**
  Go's byte-lexicographic order on strings, and an in-place sort by a string
  key, written over the comparison and the swap that Go's `sort` package asks
  its clients for.
*/
module Ordering {

  predicate Less(a: string, b: string) {
    b != "" && (a == "" || a[0] < b[0] || (a[0] == b[0] && Less(a[1..], b[1..])))
  }

  lemma {:induction false} LessIrreflexive(a: string)
    ensures !Less(a, a)
  {
    if a == "" {
    } else {
      LessIrreflexive(a[1..]);
    }
  }

  lemma {:induction false} LessTransitive(a: string, b: string, c: string)
    requires Less(a, b) && Less(b, c)
    ensures Less(a, c)
  {
    if a == "" {
    } else if a[0] == b[0] == c[0] {
      LessTransitive(a[1..], b[1..], c[1..]);
    }
  }

  lemma {:induction false} LessTotal(a: string, b: string)
    ensures Less(a, b) || a == b || Less(b, a)
  {
    if a == "" || b == "" {
    } else if a[0] == b[0] {
      LessTotal(a[1..], b[1..]);
      assert a == [a[0]] + a[1..] && b == [b[0]] + b[1..];
    }
  }

  lemma {:induction false} LessAfterCommonPrefix(p: string, a: string, b: string)
    ensures Less(p + a, p + b) <==> Less(a, b)
  {
    if p == "" {
      assert p + a == a && p + b == b;
    } else {
      LessAfterCommonPrefix(p[1..], a, b);
      assert (p + a)[1..] == p[1..] + a && (p + b)[1..] == p[1..] + b;
    }
  }

  /** The strings agree up to i, where the first one ends or has the smaller character. */
  ghost predicate SmallerAt(a: string, b: string, i: nat) {
    i <= |a| && i < |b| && a[..i] == b[..i] && (i == |a| || a[i] < b[i])
  }

  lemma {:induction false} LessSmaller(a: string, b: string) returns (i: nat)
    requires Less(a, b)
    ensures SmallerAt(a, b, i)
  {
    if a == "" || a[0] < b[0] {
      i := 0;
    } else {
      i := LessSmaller(a[1..], b[1..]);
      assert a[..i + 1] == [a[0]] + a[1..][..i] && b[..i + 1] == [b[0]] + b[1..][..i];
      i := i + 1;
    }
  }

  lemma SmallerLess(a: string, b: string, i: nat)
    requires SmallerAt(a, b, i)
    ensures Less(a, b)
  {
    assert a == a[..i] + a[i..] && b == a[..i] + b[i..];
    LessAfterCommonPrefix(a[..i], a[i..], b[i..]);
  }

  /** The order is the lexicographic one: the first difference decides, and a proper prefix comes first. */
  lemma LessExactly(a: string, b: string)
    ensures Less(a, b) <==> exists i: nat :: SmallerAt(a, b, i)
  {
    if Less(a, b) {
      var i := LessSmaller(a, b);
    }
    if i: nat :| SmallerAt(a, b, i) {
      SmallerLess(a, b, i);
    }
  }

  // ----- Sorted lists -----

  ghost predicate StrictlySorted(xs: seq<string>) {
    forall i, j :: 0 <= i < j < |xs| ==> Less(xs[i], xs[j])
  }

  ghost predicate NoDuplicates<T>(xs: seq<T>) {
    forall i, j :: 0 <= i < j < |xs| ==> xs[i] != xs[j]
  }

  ghost function Elements<T>(xs: seq<T>): set<T> {
    set x | x in xs
  }

  lemma StrictlySortedNoDuplicates(xs: seq<string>)
    requires StrictlySorted(xs)
    ensures NoDuplicates(xs)
  {
    forall i, j | 0 <= i < j < |xs| ensures xs[i] != xs[j] {
      LessIrreflexive(xs[i]);
    }
  }

  /** A strictly sorted list is determined by its elements. */
  lemma {:induction false} StrictlySortedUnique(xs: seq<string>, ys: seq<string>)
    requires StrictlySorted(xs) && StrictlySorted(ys)
    requires forall x :: x in xs <==> x in ys
    ensures xs == ys
  {
    assert xs != [] ==> xs[0] in ys;
    assert ys != [] ==> ys[0] in xs;
    if xs == [] || ys == [] {
    } else {
      StrictlySortedNoDuplicates(xs);
      StrictlySortedNoDuplicates(ys);
      var x, y := xs[0], ys[0];
      assert x in ys && y in xs;
      if x != y {
        assert Less(x, y) && Less(y, x);
        LessTransitive(x, y, x);
        LessIrreflexive(x);
        assert false;
      }
      forall z ensures z in xs[1..] <==> z in ys[1..] {
        assert z in xs <==> z == x || z in xs[1..];
        assert z in ys <==> z == x || z in ys[1..];
      }
      StrictlySortedUnique(xs[1..], ys[1..]);
      assert xs == [x] + xs[1..] && ys == [x] + ys[1..];
    }
  }

  lemma {:induction false} Greatest(s: set<string>) returns (m: string)
    requires s != {}
    ensures m in s && forall x :: x in s ==> x == m || Less(x, m)
    decreases |s|
  {
    var pick :| pick in s;
    var rest := s - {pick};
    assert forall y :: y in s ==> y == pick || y in rest;
    m := pick;
    if rest == {} {
    } else {
      var n := Greatest(rest);
      LessTotal(pick, n);
      if Less(pick, n) {
        m := n;
      } else {
        forall y | y in rest ensures Less(y, pick) {
          if y != n {
            LessTransitive(y, n, pick);
          }
        }
      }
    }
  }

  /** Every finite set of strings can be listed in strict order. */
  lemma {:induction false} StrictlySortedExists(s: set<string>) returns (xs: seq<string>)
    ensures StrictlySorted(xs) && forall x :: x in xs <==> x in s
    decreases |s|
  {
    if s == {} {
      xs := [];
    } else {
      var m := Greatest(s);
      var ys := StrictlySortedExists(s - {m});
      xs := ys + [m];
      forall i, j | 0 <= i < j < |xs| ensures Less(xs[i], xs[j]) {
        if j == |ys| {
          assert ys[i] in s - {m};
        }
      }
    }
  }

  ghost function SortedOf(s: set<string>): (xs: seq<string>)
    ensures StrictlySorted(xs) && forall x :: x in xs <==> x in s
  {
    assert exists xs: seq<string> :: StrictlySorted(xs) && forall x :: x in xs <==> x in s by {
      var xs := StrictlySortedExists(s);
    }
    var xs: seq<string> :| StrictlySorted(xs) && forall x :: x in xs <==> x in s;
    xs
  }

  lemma NoDuplicatesConcat<T>(xs: seq<T>, ys: seq<T>)
    requires NoDuplicates(xs) && NoDuplicates(ys)
    requires forall x :: x in xs ==> x !in ys
    ensures NoDuplicates(xs + ys)
  {
    forall i, j | 0 <= i < j < |xs + ys| ensures (xs + ys)[i] != (xs + ys)[j] {
      if i < |xs| <= j {
        assert xs[i] in xs && ys[j - |xs|] in ys;
      }
    }
  }

  lemma {:induction false} NoDuplicatesCount<T>(xs: seq<T>)
    requires NoDuplicates(xs)
    ensures |Elements(xs)| == |xs|
  {
    if xs == [] {
    } else {
      var n := |xs| - 1;
      NoDuplicatesCount(xs[..n]);
      assert Elements(xs) == Elements(xs[..n]) + {xs[n]} by {
        assert xs == xs[..n] + [xs[n]];
      }
      assert xs[n] !in Elements(xs[..n]);
    }
  }

  // ----- Permutations -----

  lemma SamePermutationElements<T>(xs: seq<T>, ys: seq<T>)
    requires multiset(xs) == multiset(ys)
    ensures |xs| == |ys|
    ensures forall x :: x in xs <==> x in ys
  {
    assert |multiset(xs)| == |xs| && |multiset(ys)| == |ys|;
    forall x ensures x in xs <==> x in ys {
      assert x in xs <==> x in multiset(xs);
      assert x in ys <==> x in multiset(ys);
    }
  }

  lemma {:induction false} CountOne<T>(xs: seq<T>, x: T)
    requires NoDuplicates(xs)
    ensures multiset(xs)[x] <= 1
  {
    if xs == [] {
    } else {
      assert xs == [xs[0]] + xs[1..];
      CountOne(xs[1..], x);
      if x == xs[0] {
        assert x !in xs[1..];
      }
    }
  }

  lemma PermutationNoDuplicates<T>(xs: seq<T>, ys: seq<T>)
    requires NoDuplicates(xs) && multiset(xs) == multiset(ys)
    ensures NoDuplicates(ys)
  {
    forall i, j | 0 <= i < j < |ys| ensures ys[i] != ys[j] {
      CountOne(xs, ys[i]);
      assert ys == ys[..j] + ys[j..];
      assert ys[i] in ys[..j];
      assert ys[j] in ys[j..];
      assert multiset(ys)[ys[i]] == multiset(ys[..j])[ys[i]] + multiset(ys[j..])[ys[i]];
    }
  }

  lemma SameElementsPermutation<T>(xs: seq<T>, ys: seq<T>)
    requires NoDuplicates(xs) && NoDuplicates(ys)
    requires forall x :: x in xs <==> x in ys
    ensures multiset(xs) == multiset(ys)
  {
    forall x ensures multiset(xs)[x] == multiset(ys)[x] {
      CountOne(xs, x);
      CountOne(ys, x);
      assert x in xs <==> x in multiset(xs);
      assert x in ys <==> x in multiset(ys);
    }
  }

  lemma SwapIsPermutation<T>(s: seq<T>, i: nat, j: nat)
    requires i < |s| && j < |s|
    ensures multiset(s[i := s[j]][j := s[i]]) == multiset(s)
  {
  }

  // ----- Sorting in place -----

  ghost predicate SortedBy<T>(xs: seq<T>, key: T -> string) {
    forall i, j :: 0 <= i < j < |xs| ==> !Less(key(xs[j]), key(xs[i]))
  }

  method Swap<T>(a: array<T>, i: nat, j: nat)
    requires i < a.Length && j < a.Length
    modifies a
    ensures a[..] == old(a[..])[i := old(a[j])][j := old(a[i])]
    ensures multiset(a[..]) == multiset(old(a[..]))
  {
    SwapIsPermutation(a[..], i, j);
    a[i], a[j] := a[j], a[i];
  }

  lemma NotLessTransitive(a: string, b: string, c: string)
    requires !Less(b, a) && !Less(c, b)
    ensures !Less(c, a)
  {
  }

  /** Insertion sort; only its contract is used. Equal keys may come out in any order. */
  method Sort<T>(a: array<T>, key: T -> string)
    modifies a
    ensures multiset(a[..]) == multiset(old(a[..]))
    ensures SortedBy(a[..], key)
  {
    var n := 0;
    while n < a.Length
      invariant n <= a.Length
      invariant multiset(a[..]) == multiset(old(a[..]))
      invariant SortedBy(a[..n], key)
    {
      InsertLast(a, key, n);
      n := n + 1;
    }
    assert a[..n] == a[..];
  }

  method InsertLast<T>(a: array<T>, key: T -> string, n: nat)
    requires n < a.Length
    requires SortedBy(a[..n], key)
    modifies a
    ensures multiset(a[..]) == multiset(old(a[..]))
    ensures SortedBy(a[..n + 1], key)
  {
    var k := n;
    assert forall i :: 0 <= i < n ==> a[i] == a[..n][i];
    while k > 0 && Less(key(a[k]), key(a[k - 1]))
      invariant 0 <= k <= n
      invariant multiset(a[..]) == multiset(old(a[..]))
      invariant forall i, j :: 0 <= i < j <= n && j != k ==> !Less(key(a[j]), key(a[i]))
    {
      LessAsymmetric(key(a[k]), key(a[k - 1]));
      Swap(a, k, k - 1);
      k := k - 1;
    }
    forall i | 0 <= i < k ensures !Less(key(a[k]), key(a[i])) {
      if i < k - 1 {
        NotLessTransitive(key(a[i]), key(a[k - 1]), key(a[k]));
      }
    }
  }

  lemma LessAsymmetric(a: string, b: string)
    requires Less(a, b)
    ensures !Less(b, a)
  {
  }

  /** Sorting a duplicate-free list of keys gives a strictly sorted one. */
  lemma SortedBecomesStrict(xs: seq<string>)
    requires NoDuplicates(xs)
    requires forall i, j :: 0 <= i < j < |xs| ==> !Less(xs[j], xs[i])
    ensures StrictlySorted(xs)
  {
    forall i, j | 0 <= i < j < |xs| ensures Less(xs[i], xs[j]) {
      LessTotal(xs[i], xs[j]);
    }
  }
}

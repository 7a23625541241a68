/**
  The part of Go's `strings` package that the repository relies on, for
  one-character separators: Split, Join, HasPrefix, HasSuffix and TrimSuffix.
  A Dafny string stands for a Go string, character by character.
*/
module GoStrings {

  function Split(s: string, sep: char): (parts: seq<string>)
    ensures |parts| >= 1
    ensures forall i :: 0 <= i < |parts| ==> sep !in parts[i]
  {
    if s == "" then [""]
    else
      var rest := Split(s[1..], sep);
      if s[0] == sep then [""] + rest else [[s[0]] + rest[0]] + rest[1..]
  }

  function Join(parts: seq<string>, sep: char): string {
    if |parts| == 0 then ""
    else if |parts| == 1 then parts[0]
    else parts[0] + [sep] + Join(parts[1..], sep)
  }

  predicate HasPrefix(s: string, prefix: string) {
    prefix <= s
  }

  predicate HasSuffix(s: string, suffix: string) {
    |suffix| <= |s| && s[|s| - |suffix|..] == suffix
  }

  function TrimSuffix(s: string, suffix: string): string {
    if HasSuffix(s, suffix) then s[..|s| - |suffix|] else s
  }

  ghost predicate SeparatorFree(parts: seq<string>, sep: char) {
    forall i :: 0 <= i < |parts| ==> sep !in parts[i]
  }

  // ----- Split -----

  lemma {:induction false} SplitWithoutSeparator(s: string, sep: char)
    requires sep !in s
    ensures Split(s, sep) == [s]
  {
    if s == "" {
    } else {
      SplitWithoutSeparator(s[1..], sep);
      assert [s[0]] + s[1..] == s;
    }
  }

  /** Splitting is a homomorphism from separated text to lists. */
  lemma {:induction false} SplitConcat(a: string, b: string, sep: char)
    ensures Split(a + [sep] + b, sep) == Split(a, sep) + Split(b, sep)
  {
    var s := a + [sep] + b;
    if a == "" {
      assert s == [sep] + b;
      assert s[1..] == b;
    } else {
      assert s[1..] == a[1..] + [sep] + b;
      SplitConcat(a[1..], b, sep);
    }
  }

  /** Splitting introduces no characters. */
  lemma {:induction false} SplitAvoids(s: string, sep: char, c: char)
    requires c !in s
    ensures SeparatorFree(Split(s, sep), c)
  {
    if s == "" {
    } else {
      SplitAvoids(s[1..], sep, c);
    }
  }

  // ----- Join -----

  lemma {:induction false} JoinConcat(xs: seq<string>, ys: seq<string>, sep: char)
    requires xs != [] && ys != []
    ensures Join(xs + ys, sep) == Join(xs, sep) + [sep] + Join(ys, sep)
  {
    assert (xs + ys)[1..] == xs[1..] + ys;
    if |xs| == 1 {
    } else {
      JoinConcat(xs[1..], ys, sep);
    }
  }

  lemma JoinAppend(xs: seq<string>, x: string, sep: char)
    requires xs != []
    ensures Join(xs + [x], sep) == Join(xs, sep) + [sep] + x
  {
    JoinConcat(xs, [x], sep);
  }

  // ----- Round trips -----

  lemma {:induction false} JoinSplit(s: string, sep: char)
    ensures Join(Split(s, sep), sep) == s
  {
    if s == "" {
    } else {
      var rest := Split(s[1..], sep);
      JoinSplit(s[1..], sep);
      if s[0] == sep {
        assert ([""] + rest)[1..] == rest;
        assert [sep] + s[1..] == s;
      } else {
        var first := [s[0]] + rest[0];
        assert ([first] + rest[1..])[1..] == rest[1..];
        assert [s[0]] + s[1..] == s;
      }
    }
  }

  lemma {:induction false} SplitJoin(xs: seq<string>, sep: char)
    requires xs != [] && SeparatorFree(xs, sep)
    ensures Split(Join(xs, sep), sep) == xs
  {
    SplitWithoutSeparator(xs[0], sep);
    if |xs| > 1 {
      SplitJoin(xs[1..], sep);
      SplitConcat(xs[0], Join(xs[1..], sep), sep);
      assert [xs[0]] + xs[1..] == xs;
    } else {
      assert xs == [xs[0]];
    }
  }

  lemma JoinInjective(xs: seq<string>, ys: seq<string>, sep: char)
    requires xs != [] && SeparatorFree(xs, sep)
    requires ys != [] && SeparatorFree(ys, sep)
    requires Join(xs, sep) == Join(ys, sep)
    ensures xs == ys
  {
    SplitJoin(xs, sep);
    SplitJoin(ys, sep);
  }

  /** Appending one separator-free part to the text appends it to the list. */
  lemma SplitAppend(s: string, x: string, sep: char)
    requires sep !in x
    ensures Split(s + [sep] + x, sep) == Split(s, sep) + [x]
  {
    SplitConcat(s, x, sep);
    SplitWithoutSeparator(x, sep);
  }

  lemma AppendInjective<T>(q: seq<T>, c: T, q': seq<T>, c': T)
    requires q + [c] == q' + [c']
    ensures q == q' && c == c'
  {
    assert q == (q + [c])[..|q|] && q' == (q' + [c'])[..|q'|];
    assert c == (q + [c])[|q|] && c' == (q' + [c'])[|q'|];
  }

  /** The list of a text with one more part determines the text and the part. */
  lemma SplitAppendInjective(s: string, x: string, s': string, x': string, sep: char)
    requires Split(s, sep) + [x] == Split(s', sep) + [x']
    ensures s == s' && x == x'
  {
    AppendInjective(Split(s, sep), x, Split(s', sep), x');
    JoinSplit(s, sep);
    JoinSplit(s', sep);
  }

  /** One split is a proper prefix of another exactly when the text followed by a separator is a prefix. */
  lemma SplitPrefix(a: string, b: string, sep: char)
    ensures Split(a, sep) < Split(b, sep) <==> a + [sep] <= b
  {
    var xs, ys := Split(a, sep), Split(b, sep);
    if a + [sep] <= b {
      var rest := b[|a| + 1..];
      assert b == a + [sep] + rest;
      SplitConcat(a, rest, sep);
    }
    if xs < ys {
      var rest := ys[|xs|..];
      assert ys == xs + rest;
      JoinConcat(xs, rest, sep);
      JoinSplit(a, sep);
      JoinSplit(b, sep);
    }
  }
}

/**
  What the string-keyed map of a static route builder means. An endpoint is
  read as its list of components (its text split on "/"), and a history of
  added endpoints as the set E of those lists. TrieOf(E) is the map the builder
  must hold after that history.
*/
module EndpointTrie {
  import opened GoStrings

  const SLASH := '/'

  type Components = seq<string>

  /** The components of an endpoint that begins with a slash. */
  ghost predicate WellFormed(e: Components) {
    |e| >= 2 && e[0] == "" && SeparatorFree(e, SLASH)
  }

  ghost predicate AllWellFormed(E: set<Components>) {
    forall e :: e in E ==> WellFormed(e)
  }

  function Normalise(endpoint: string): string {
    if HasPrefix(endpoint, "/") then endpoint else "/" + endpoint
  }

  function ComponentsOf(endpoint: string): Components {
    Split(Normalise(endpoint), SLASH)
  }

  lemma ComponentsWellFormed(endpoint: string)
    ensures WellFormed(ComponentsOf(endpoint))
    ensures Join(ComponentsOf(endpoint), SLASH) == Normalise(endpoint)
  {
    var s := Normalise(endpoint);
    assert s == "" + [SLASH] + s[1..];
    SplitConcat("", s[1..], SLASH);
    JoinSplit(s, SLASH);
  }

  /** A missing leading slash makes no difference: the components are those of the text below the root. */
  lemma ComponentsBelowRoot(endpoint: string)
    ensures ComponentsOf("/" + endpoint) == [""] + Split(endpoint, '/')
    ensures !HasPrefix(endpoint, "/") ==> ComponentsOf(endpoint) == [""] + Split(endpoint, '/')
  {
    assert "/" + endpoint == "" + [SLASH] + endpoint;
    SplitConcat("", endpoint, SLASH);
  }

  lemma ComponentsOfJoin(e: Components)
    requires WellFormed(e)
    ensures ComponentsOf(Join(e, SLASH)) == e
    ensures HasPrefix(Join(e, SLASH), "/")
  {
    SplitJoin(e, SLASH);
    assert Join(e, SLASH)[0] == SLASH;
  }

  // ----- Directories, branches and leaves -----

  /** q is an added endpoint or a prefix of one. */
  ghost predicate IsBranch(E: set<Components>, q: Components) {
    exists e :: e in E && q <= e
  }

  /** q is a non-empty proper component-prefix of an added endpoint. */
  ghost predicate IsDir(E: set<Components>, q: Components) {
    q != [] && exists e :: e in E && q < e
  }

  /** e is added and is not a proper component-prefix of another added endpoint. */
  ghost predicate IsMaximal(E: set<Components>, e: Components) {
    e in E && forall f :: f in E ==> !(e < f)
  }

  ghost function Maximal(E: set<Components>): set<Components> {
    set e | e in E && IsMaximal(E, e)
  }

  lemma DirIsBranch(E: set<Components>, q: Components)
    requires IsDir(E, q)
    ensures IsBranch(E, q)
  {
  }

  lemma BranchWellFormed(E: set<Components>, q: Components)
    requires AllWellFormed(E) && IsBranch(E, q) && q != []
    ensures SeparatorFree(q, SLASH) && q[0] == ""
    ensures Split(Join(q, SLASH), SLASH) == q
  {
    var e :| e in E && q <= e;
    forall i | 0 <= i < |q| ensures SLASH !in q[i] {
      assert q[i] == e[i];
    }
    assert q[0] == e[0];
    SplitJoin(q, SLASH);
  }

  /** A branch is a directory, or a maximal endpoint, and never both. */
  lemma BranchDirOrMaximal(E: set<Components>, q: Components)
    requires q != [] && IsBranch(E, q)
    ensures IsDir(E, q) <==> !IsMaximal(E, q)
  {
    if !IsDir(E, q) {
      var e :| e in E && q <= e;
      assert !(q < e);
      assert q == e;
    }
  }

  lemma StepIsBranch(E: set<Components>, q: Components, e: Components)
    requires e in E && q < e
    ensures IsBranch(E, q + [e[|q|]])
  {
  }

  lemma BranchHasParent(E: set<Components>, q: Components, c: string)
    requires q != [] && IsBranch(E, q + [c])
    ensures IsDir(E, q)
  {
  }

  /** Every added endpoint extends to a maximal one. */
  lemma {:induction false} ExtendsToMaximal(E: set<Components>, e: Components) returns (m: Components)
    requires e in E
    ensures IsMaximal(E, m) && e <= m
    decreases set f | f in E && e < f
  {
    if f :| f in E && e < f {
      var above, aboveF := set g | g in E && e < g, set g | g in E && f < g;
      assert f in above && f !in aboveF;
      assert aboveF <= above;
      m := ExtendsToMaximal(E, f);
    } else {
      m := e;
    }
  }

  // ----- The map -----

  ghost function Keys(E: set<Components>): set<string> {
    set e, i | e in E && 1 <= i < |e| :: Join(e[..i], SLASH)
  }

  /** The component that follows q in each added endpoint below it. */
  ghost function Kids(E: set<Components>, q: Components): set<string> {
    set e | e in E && q < e :: e[|q|]
  }

  ghost function TrieOf(E: set<Components>): map<string, set<string>> {
    map p | p in Keys(E) :: Kids(E, Split(p, SLASH))
  }

  lemma KeyIsDir(E: set<Components>, p: string)
    requires AllWellFormed(E)
    ensures p in Keys(E) <==> IsDir(E, Split(p, SLASH))
  {
    var q := Split(p, SLASH);
    if p in Keys(E) {
      var e, i :| e in E && 1 <= i < |e| && p == Join(e[..i], SLASH);
      SplitJoin(e[..i], SLASH);
      assert e[..i] < e;
    }
    if IsDir(E, q) {
      var e :| e in E && q < e;
      JoinSplit(p, SLASH);
      assert q == e[..|q|];
    }
  }

  lemma KidIsBranch(E: set<Components>, q: Components, c: string)
    ensures c in Kids(E, q) <==> IsBranch(E, q + [c])
  {
  }

  /**
    The exact meaning of the map: p is a key if and only if its components are
    a non-empty proper component-prefix of an added endpoint, and c is a child
    of p if and only if c comes right after that prefix in an added endpoint.
  */
  lemma TrieMeaning(E: set<Components>)
    requires AllWellFormed(E)
    ensures forall p :: p in TrieOf(E) <==> IsDir(E, Split(p, SLASH))
    ensures forall p, c :: p in TrieOf(E) ==>
              (c in TrieOf(E)[p] <==> IsBranch(E, Split(p, SLASH) + [c]))
  {
    forall p ensures p in TrieOf(E) <==> IsDir(E, Split(p, SLASH)) {
      KeyIsDir(E, p);
    }
    forall p, c | p in TrieOf(E)
      ensures c in TrieOf(E)[p] <==> IsBranch(E, Split(p, SLASH) + [c])
    {
      KidIsBranch(E, Split(p, SLASH), c);
    }
  }

  lemma DirIsKey(E: set<Components>, q: Components)
    requires AllWellFormed(E) && IsDir(E, q)
    ensures Join(q, SLASH) in TrieOf(E)
    ensures Split(Join(q, SLASH), SLASH) == q
  {
    DirIsBranch(E, q);
    BranchWellFormed(E, q);
    TrieMeaning(E);
  }

  lemma KidSlashFree(E: set<Components>, p: string, c: string)
    requires AllWellFormed(E) && p in TrieOf(E) && c in TrieOf(E)[p]
    ensures SLASH !in c
    ensures Split(p + "/" + c, SLASH) == Split(p, SLASH) + [c]
    ensures p + "/" + c == Join(Split(p, SLASH) + [c], SLASH)
  {
    TrieMeaning(E);
    var q := Split(p, SLASH);
    BranchWellFormed(E, q + [c]);
    assert (q + [c])[|q|] == c;
    SplitAppend(p, c, SLASH);
    JoinSplit(p + "/" + c, SLASH);
  }

  /** The trie of two histories is the pointwise union of their tries. */
  ghost function PointwiseUnion(m: map<string, set<string>>, n: map<string, set<string>>): map<string, set<string>> {
    map p | p in m.Keys + n.Keys :: (if p in m then m[p] else {}) + (if p in n then n[p] else {})
  }

  lemma TrieOfUnion(E: set<Components>, F: set<Components>)
    requires AllWellFormed(E) && AllWellFormed(F)
    ensures TrieOf(E + F) == PointwiseUnion(TrieOf(E), TrieOf(F))
  {
    assert Keys(E + F) == Keys(E) + Keys(F);
    forall p | p in Keys(E + F)
      ensures TrieOf(E + F)[p] == PointwiseUnion(TrieOf(E), TrieOf(F))[p]
    {
      var q := Split(p, SLASH);
      KeyIsDir(E, p);
      KeyIsDir(F, p);
      assert Kids(E + F, q) == Kids(E, q) + Kids(F, q);
      assert p !in Keys(E) ==> Kids(E, q) == {};
      assert p !in Keys(F) ==> Kids(F, q) == {};
    }
  }

  // ----- Ancestor closure -----

  /** Every key but the root has a parent key that lists it, and every key lists something. */
  ghost predicate AncestorClosed(m: map<string, set<string>>) {
    && (m != map[] ==> "" in m)
    && (forall p :: p in m ==> m[p] != {})
    && (forall p :: p in m && p != "" ==>
          exists parent, c :: IsChildOf(m, parent, c, p))
  }

  ghost predicate IsChildOf(m: map<string, set<string>>, parent: string, c: string, p: string) {
    parent in m && c in m[parent] && p == parent + "/" + c
  }

  lemma ParentUnique(E: set<Components>, p: string, parent: string, c: string, parent': string, c': string)
    requires AllWellFormed(E)
    requires IsChildOf(TrieOf(E), parent, c, p) && IsChildOf(TrieOf(E), parent', c', p)
    ensures parent == parent' && c == c'
  {
    KidSlashFree(E, parent, c);
    KidSlashFree(E, parent', c');
    SplitAppendInjective(parent, c, parent', c', SLASH);
  }

  /** A rooted path other than the root is its parent, a slash and its last component. */
  lemma LastComponent(p: string) returns (parent: string, c: string)
    requires p != "" && Split(p, SLASH)[0] == ""
    ensures p == parent + "/" + c && Split(p, SLASH) == Split(parent, SLASH) + [c]
  {
    var q := Split(p, SLASH);
    JoinSplit(p, SLASH);
    var n := |q| - 1;
    assert q == q[..n] + [q[n]];
    assert n == 0 ==> q == [""];
    parent, c := Join(q[..n], SLASH), q[n];
    JoinAppend(q[..n], c, SLASH);
    SplitJoin(q[..n], SLASH);
  }

  lemma ParentExists(E: set<Components>, p: string) returns (parent: string, c: string)
    requires AllWellFormed(E) && p in TrieOf(E) && p != ""
    ensures IsChildOf(TrieOf(E), parent, c, p)
  {
    var q := Split(p, SLASH);
    KeyIsDir(E, p);
    DirIsBranch(E, q);
    BranchWellFormed(E, q);
    parent, c := LastComponent(p);
    BranchHasParent(E, Split(parent, SLASH), c);
    KeyIsDir(E, parent);
    KidIsBranch(E, Split(parent, SLASH), c);
  }

  /** Holds again after every complete FromEndpoint; the parent is unique by ParentUnique. */
  lemma TrieAncestorClosed(E: set<Components>)
    requires AllWellFormed(E)
    ensures AncestorClosed(TrieOf(E))
  {
    TrieMeaning(E);
    if TrieOf(E) != map[] {
      var p :| p in TrieOf(E);
      var e :| e in E && Split(p, SLASH) < e;
      assert [""] < e;
      assert Split("", SLASH) == [""];
    }
    forall p | p in TrieOf(E) ensures TrieOf(E)[p] != {} {
      var q := Split(p, SLASH);
      var e :| e in E && q < e;
      StepIsBranch(E, q, e);
      assert e[|q|] in TrieOf(E)[p];
    }
    forall p | p in TrieOf(E) && p != ""
      ensures exists parent, c :: IsChildOf(TrieOf(E), parent, c, p)
    {
      var parent, c := ParentExists(E, p);
    }
  }

  // ----- Adding one endpoint, deepest level first -----

  ghost function Touch(m: map<string, set<string>>, p: string, c: string): map<string, set<string>> {
    m[p := (if p in m then m[p] else {}) + {c}]
  }

  /** The map after the levels |e|-1, |e|-2, ..., i of e have been recorded in m. */
  ghost function Graft(m: map<string, set<string>>, e: Components, i: nat): map<string, set<string>>
    requires 1 <= i <= |e|
    decreases |e| - i
  {
    if i == |e| then m else Touch(Graft(m, e, i + 1), Join(e[..i], SLASH), e[i])
  }

  /** p names the directory of e at level i or deeper. */
  ghost predicate OnPath(e: Components, i: nat, p: string) {
    Split(p, SLASH) < e && i <= |Split(p, SLASH)|
  }

  /** The map n records, besides m, that c follows p for each level of e from i on. */
  ghost predicate Grafted(m: map<string, set<string>>, e: Components, i: nat, p: string, n: map<string, set<string>>) {
    && (p in n <==> p in m || OnPath(e, i, p))
    && (p in n ==> forall c ::
          c in n[p] <==> (p in m && c in m[p]) || (OnPath(e, i, p) && c == e[|Split(p, SLASH)|]))
  }

  lemma TouchGrafts(m: map<string, set<string>>, e: Components, i: nat, p: string, n: map<string, set<string>>)
    requires WellFormed(e) && 1 <= i < |e| && Grafted(m, e, i + 1, p, n)
    ensures Grafted(m, e, i, p, Touch(n, Join(e[..i], SLASH), e[i]))
  {
    var q := Split(p, SLASH);
    SplitJoin(e[..i], SLASH);
    JoinSplit(p, SLASH);
    assert p == Join(e[..i], SLASH) <==> q == e[..i];
    assert q < e && |q| == i <==> q == e[..i];
  }

  lemma {:induction false} GraftMeaning(m: map<string, set<string>>, e: Components, i: nat, p: string)
    requires WellFormed(e) && 1 <= i <= |e|
    ensures Grafted(m, e, i, p, Graft(m, e, i))
    decreases |e| - i
  {
    if i == |e| {
    } else {
      GraftMeaning(m, e, i + 1, p);
      TouchGrafts(m, e, i, p, Graft(m, e, i + 1));
    }
  }

  lemma GraftKeys(E: set<Components>, e: Components, p: string)
    requires AllWellFormed(E) && WellFormed(e)
    ensures p in Graft(TrieOf(E), e, 1) <==> p in TrieOf(E + {e})
  {
    GraftMeaning(TrieOf(E), e, 1, p);
    KeyIsDir(E, p);
    KeyIsDir(E + {e}, p);
  }

  lemma OneMoreKid(E: set<Components>, e: Components, q: Components, c: string)
    ensures c in Kids(E + {e}, q) <==> c in Kids(E, q) || (q < e && c == e[|q|])
  {
    KidIsBranch(E, q, c);
    KidIsBranch(E + {e}, q, c);
    if q < e && c == e[|q|] { StepIsBranch(E + {e}, q, e); }
    if IsBranch(E + {e}, q + [c]) && !IsBranch(E, q + [c]) {
      assert q + [c] <= e;
      assert q == e[..|q|] && c == e[|q|];
    }
  }

  /** Only the directories of E have children. */
  lemma KidOfDir(E: set<Components>, p: string, c: string)
    requires AllWellFormed(E) && c in Kids(E, Split(p, SLASH))
    ensures p in Keys(E)
  {
    KidIsBranch(E, Split(p, SLASH), c);
    BranchHasParent(E, Split(p, SLASH), c);
    KeyIsDir(E, p);
  }

  lemma GraftKids(E: set<Components>, e: Components, p: string)
    requires AllWellFormed(E) && WellFormed(e)
    requires p in Graft(TrieOf(E), e, 1) && p in TrieOf(E + {e})
    ensures Graft(TrieOf(E), e, 1)[p] == TrieOf(E + {e})[p]
  {
    var n, q := Graft(TrieOf(E), e, 1), Split(p, SLASH);
    GraftMeaning(TrieOf(E), e, 1, p);
    forall c ensures c in n[p] <==> c in Kids(E + {e}, q) {
      OneMoreKid(E, e, q, c);
      if c in Kids(E, q) { KidOfDir(E, p, c); }
    }
  }

  /** Recording every level of one more endpoint yields the trie of the larger history. */
  lemma GraftIsTrie(E: set<Components>, e: Components)
    requires AllWellFormed(E) && WellFormed(e)
    ensures Graft(TrieOf(E), e, 1) == TrieOf(E + {e})
  {
    forall p ensures p in Graft(TrieOf(E), e, 1) <==> p in TrieOf(E + {e}) {
      GraftKeys(E, e, p);
    }
    forall p | p in Graft(TrieOf(E), e, 1) ensures Graft(TrieOf(E), e, 1)[p] == TrieOf(E + {e})[p] {
      GraftKids(E, e, p);
    }
  }

  lemma ChildSurvives(m: map<string, set<string>>, e: Components, i: nat, parent: string, c: string, p: string)
    requires WellFormed(e) && 1 <= i <= |e| && IsChildOf(m, parent, c, p)
    ensures IsChildOf(Graft(m, e, i), parent, c, p)
  {
    GraftMeaning(m, e, i, parent);
  }

  /** A directory of e below the root is a child of the directory of e above it. */
  lemma LevelAbove(e: Components, j: nat)
    requires WellFormed(e) && 1 < j < |e|
    ensures Join(e[..j], SLASH) == Join(e[..j - 1], SLASH) + "/" + e[j - 1]
    ensures Split(Join(e[..j - 1], SLASH), SLASH) == e[..j - 1]
  {
    assert e[..j] == e[..j - 1] + [e[j - 1]];
    JoinAppend(e[..j - 1], e[j - 1], SLASH);
    SplitJoin(e[..j - 1], SLASH);
  }

  /** The last recorded level is listed by a parent that the earlier history already had. */
  lemma MidwayParentHere(E: set<Components>, e: Components, i: nat)
    requires AllWellFormed(E) && WellFormed(e) && 1 < i < |e| && IsBranch(E, e[..i])
    ensures IsChildOf(TrieOf(E), Join(e[..i - 1], SLASH), e[i - 1], Join(e[..i], SLASH))
  {
    var q, c := e[..i - 1], e[i - 1];
    assert e[..i] == q + [c];
    LevelAbove(e, i);
    BranchHasParent(E, q, c);
    KidIsBranch(E, q, c);
    KeyIsDir(E, Join(q, SLASH));
  }

  /** A deeper level is listed by the level above it, which the loop has just recorded. */
  lemma MidwayParentDeeper(m: map<string, set<string>>, e: Components, i: nat, j: nat)
    requires WellFormed(e) && 1 <= i < j < |e|
    ensures IsChildOf(Graft(m, e, i), Join(e[..j - 1], SLASH), e[j - 1], Join(e[..j], SLASH))
  {
    LevelAbove(e, j);
    GraftMeaning(m, e, i, Join(e[..j - 1], SLASH));
  }

  lemma MidwayParent(E: set<Components>, e: Components, i: nat, p: string) returns (parent: string, c: string)
    requires AllWellFormed(E) && WellFormed(e) && 1 < i < |e| && IsBranch(E, e[..i])
    requires p in Graft(TrieOf(E), e, i) && p != ""
    ensures IsChildOf(Graft(TrieOf(E), e, i), parent, c, p)
  {
    if p in TrieOf(E) {
      parent, c := ParentExists(E, p);
      ChildSurvives(TrieOf(E), e, i, parent, c, p);
    } else {
      var j := MidwayLevel(E, e, i, p);
      parent, c := Join(e[..j - 1], SLASH), e[j - 1];
      if j == i {
        MidwayParentHere(E, e, i);
        ChildSurvives(TrieOf(E), e, i, parent, c, p);
      } else {
        MidwayParentDeeper(TrieOf(E), e, i, j);
      }
    }
  }

  lemma MidwayLevel(E: set<Components>, e: Components, i: nat, p: string) returns (j: nat)
    requires WellFormed(e) && 1 <= i <= |e|
    requires p in Graft(TrieOf(E), e, i) && p !in TrieOf(E)
    ensures i <= j < |e| && p == Join(e[..j], SLASH)
  {
    GraftMeaning(TrieOf(E), e, i, p);
    j := |Split(p, SLASH)|;
    assert Split(p, SLASH) == e[..j];
    JoinSplit(p, SLASH);
  }

  lemma MidwayListsSomething(E: set<Components>, e: Components, i: nat, p: string)
    requires AllWellFormed(E) && WellFormed(e) && 1 <= i < |e| && p in Graft(TrieOf(E), e, i)
    ensures Graft(TrieOf(E), e, i)[p] != {}
  {
    GraftMeaning(TrieOf(E), e, i, p);
    TrieAncestorClosed(E);
    if p in TrieOf(E) {
      var c :| c in TrieOf(E)[p];
      assert c in Graft(TrieOf(E), e, i)[p];
    } else {
      assert e[|Split(p, SLASH)|] in Graft(TrieOf(E), e, i)[p];
    }
  }

  lemma MidwayRoot(E: set<Components>, e: Components, i: nat)
    requires AllWellFormed(E) && WellFormed(e) && 1 < i < |e| && IsBranch(E, e[..i])
    ensures "" in Graft(TrieOf(E), e, i)
  {
    var f :| f in E && e[..i] <= f;
    assert Split("", SLASH) == [""] && [""] < f;
    KeyIsDir(E, "");
    GraftMeaning(TrieOf(E), e, i, "");
  }

  lemma MidwayClosed(E: set<Components>, e: Components, i: nat)
    requires AllWellFormed(E) && WellFormed(e) && 1 < i < |e| && IsBranch(E, e[..i])
    ensures AncestorClosed(Graft(TrieOf(E), e, i))
  {
    var m := Graft(TrieOf(E), e, i);
    MidwayRoot(E, e, i);
    forall p | p in m ensures m[p] != {} {
      MidwayListsSomething(E, e, i, p);
    }
    forall p | p in m && p != "" ensures exists parent, c :: IsChildOf(m, parent, c, p) {
      var parent, c := MidwayParent(E, e, i, p);
    }
  }

  lemma MidwayOpen(E: set<Components>, e: Components, i: nat)
    requires AllWellFormed(E) && WellFormed(e) && 1 < i < |e|
    requires AncestorClosed(Graft(TrieOf(E), e, i))
    ensures IsBranch(E, e[..i])
  {
    var m := Graft(TrieOf(E), e, i);
    var p := Join(e[..i], SLASH);
    SplitJoin(e[..i], SLASH);
    GraftMeaning(TrieOf(E), e, i, p);
    assert p != "" by {
      assert Split("", SLASH) == [""];
    }
    var parent, c :| IsChildOf(m, parent, c, p);
    GraftMeaning(TrieOf(E), e, i, parent);
    if parent in TrieOf(E) && c in TrieOf(E)[parent] {
      KidSlashFree(E, parent, c);
      KeyIsDir(E, parent);
      KidIsBranch(E, Split(parent, SLASH), c);
    } else {
      assert |Split(parent, SLASH)| >= i;
      SplitAppend(parent, c, SLASH);
      assert false;
    }
  }

  /**
    Recording the deepest levels first breaks closure on the way: with levels
    |e|-1 .. i recorded and i above the root, the map is ancestor-closed if and
    only if the earlier history already listed e[..i].
  */
  lemma ClosureMidway(E: set<Components>, e: Components, i: nat)
    requires AllWellFormed(E) && WellFormed(e) && 1 < i < |e|
    ensures AncestorClosed(Graft(TrieOf(E), e, i)) <==> IsBranch(E, e[..i])
  {
    if AncestorClosed(Graft(TrieOf(E), e, i)) {
      MidwayOpen(E, e, i);
    }
    if IsBranch(E, e[..i]) {
      MidwayClosed(E, e, i);
    }
  }
}

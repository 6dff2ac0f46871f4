/** The list-based mountain manager: a list of mountains that is appended
    to, edited in place and queried by difficulty. */
module Mountains {
  import opened Errors

  /** A mountain on a trail; only its difficulty is inspected here, the
      other fields take part in equality only. */
  datatype Mountain = Mountain(name: string, difficultyLevel: int, length: int)

  // ---------------------------------------------------------------------
  // Sequence helpers
  // ---------------------------------------------------------------------

  /** Position of the first occurrence of `x`, as Python's `list.index`. */
  function FirstIndex<T(==)>(s: seq<T>, x: T): (r: nat)
    requires x in s
    ensures r < |s| && s[r] == x
    ensures x !in s[..r]
  {
    if s[0] == x then 0
    else
      assert s == [s[0]] + s[1..];
      var r' := FirstIndex(s[1..], x);
      assert s[..1 + r'] == [s[0]] + s[1..][..r'];
      1 + r'
  }

  /** The mountains of `s` whose difficulty is `d`, in list order. */
  function WithDifficulty(s: seq<Mountain>, d: int): (r: seq<Mountain>)
    ensures forall m :: m in r ==> m.difficultyLevel == d
    ensures |r| <= |s|
  {
    if s == [] then []
    else
      var front := WithDifficulty(s[..|s| - 1], d);
      var last := s[|s| - 1];
      front + if last.difficultyLevel == d then [last] else []
  }

  /** `WithDifficulty(s, d)` keeps every mountain of difficulty `d` as often
      as `s` holds it, and drops every other mountain. */
  lemma {:induction false} WithDifficultyCount(s: seq<Mountain>, d: int, m: Mountain)
    ensures multiset(WithDifficulty(s, d))[m] == if m.difficultyLevel == d then multiset(s)[m] else 0
    decreases |s|
  {
    if s != [] {
      WithDifficultyCount(s[..|s| - 1], d, m);
      assert s == s[..|s| - 1] + [s[|s| - 1]];
    }
  }

  /** The set of difficulties of the mountains in `s`. */
  function Difficulties(s: seq<Mountain>): (r: set<int>)
    ensures forall m :: m in s ==> m.difficultyLevel in r
  {
    if s == [] then {}
    else
      assert s == s[..|s| - 1] + [s[|s| - 1]];
      Difficulties(s[..|s| - 1]) + {s[|s| - 1].difficultyLevel}
  }

  /** Every difficulty in `Difficulties(s)` is that of some mountain of `s`. */
  lemma {:induction false} DifficultyWitness(s: seq<Mountain>, d: int) returns (m: Mountain)
    requires d in Difficulties(s)
    ensures m in s && m.difficultyLevel == d
    decreases |s|
  {
    if s[|s| - 1].difficultyLevel == d {
      m := s[|s| - 1];
    } else {
      m := DifficultyWitness(s[..|s| - 1], d);
    }
  }

  /** The difficulties occurring in `s`, each once, in order of first appearance. */
  function DistinctDifficulties(s: seq<Mountain>): (r: seq<int>)
    ensures NoDuplicates(r)
    ensures forall d :: d in r <==> d in Difficulties(s)
  {
    if s == [] then []
    else
      var front := DistinctDifficulties(s[..|s| - 1]);
      var last := s[|s| - 1];
      assert s == s[..|s| - 1] + [last];
      if last.difficultyLevel in front then front else front + [last.difficultyLevel]
  }

  ghost predicate NoDuplicates<T>(s: seq<T>) {
    forall i, j :: 0 <= i < j < |s| ==> s[i] != s[j]
  }

  ghost predicate Ascending(s: seq<int>) {
    forall i, j :: 0 <= i < j < |s| ==> s[i] <= s[j]
  }

  // ---------------------------------------------------------------------
  // Merge sort (the external `mergesort` the manager calls)
  // ---------------------------------------------------------------------

  function Merge(a: seq<int>, b: seq<int>): (r: seq<int>)
    requires Ascending(a) && Ascending(b)
    ensures Ascending(r)
    ensures multiset(r) == multiset(a) + multiset(b)
    decreases |a| + |b|
  {
    if a == [] then b
    else if b == [] then a
    else if a[0] <= b[0] then
      var rest := Merge(a[1..], b);
      assert a == [a[0]] + a[1..];
      LowerBound(a[0], a[1..], b, rest);
      [a[0]] + rest
    else
      var rest := Merge(a, b[1..]);
      assert b == [b[0]] + b[1..];
      LowerBound(b[0], a, b[1..], rest);
      [b[0]] + rest
  }

  /** A value below both merged inputs can be put in front of their merge. */
  lemma LowerBound(x: int, a: seq<int>, b: seq<int>, rest: seq<int>)
    requires forall y :: y in a ==> x <= y
    requires forall y :: y in b ==> x <= y
    requires Ascending(rest) && multiset(rest) == multiset(a) + multiset(b)
    ensures Ascending([x] + rest)
  {
    forall i | 0 <= i < |rest| ensures x <= rest[i] {
      assert rest[i] in multiset(rest);
      assert rest[i] in a || rest[i] in b;
    }
  }

  /** The sorted permutation of `s`. */
  function Mergesort(s: seq<int>): (r: seq<int>)
    ensures Ascending(r)
    ensures multiset(r) == multiset(s)
    decreases |s|
  {
    if |s| <= 1 then s
    else
      var mid := |s| / 2;
      assert s == s[..mid] + s[mid..];
      Merge(Mergesort(s[..mid]), Mergesort(s[mid..]))
  }

  /** Two equal elements of a sequence make their multiplicity at least two. */
  lemma {:induction false} RepeatedCountsTwice(s: seq<int>, i: nat, j: nat)
    requires i < j < |s| && s[i] == s[j]
    ensures multiset(s)[s[i]] >= 2
  {
    assert s == s[..j] + s[j..];
    assert s[i] in s[..j];
    assert s[j] in s[j..];
  }

  lemma {:induction false} NoDuplicatesCountsOnce(s: seq<int>, x: int)
    requires NoDuplicates(s)
    ensures multiset(s)[x] <= 1
    decreases |s|
  {
    if s != [] {
      assert s == [s[0]] + s[1..];
      assert NoDuplicates(s[1..]);
      NoDuplicatesCountsOnce(s[1..], x);
      if s[0] == x {
        assert x !in s[1..];
      }
    }
  }

  ghost predicate StrictlyAscending(s: seq<int>) {
    forall i, j :: 0 <= i < j < |s| ==> s[i] < s[j]
  }

  /** Sorting distinct values gives a strictly ascending sequence of the same values. */
  lemma SortDistinct(s: seq<int>)
    requires NoDuplicates(s)
    ensures StrictlyAscending(Mergesort(s))
    ensures forall x :: x in Mergesort(s) <==> x in s
  {
    var r := Mergesort(s);
    forall i, j | 0 <= i < j < |r| ensures r[i] < r[j] {
      if r[i] == r[j] {
        RepeatedCountsTwice(r, i, j);
        NoDuplicatesCountsOnce(s, r[i]);
        assert false;
      }
    }
    forall x ensures x in r <==> x in s {
      assert x in r <==> x in multiset(r);
      assert x in s <==> x in multiset(s);
    }
  }

  // ---------------------------------------------------------------------
  // Grouping
  // ---------------------------------------------------------------------

  /** The groups `group_by_difficulty` collects for the difficulty list `ds`. */
  function GroupsFor(s: seq<Mountain>, ds: seq<int>): (r: seq<seq<Mountain>>)
    ensures |r| == |ds|
    ensures forall k :: 0 <= k < |ds| ==> r[k] == WithDifficulty(s, ds[k])
  {
    if ds == [] then [] else GroupsFor(s, ds[..|ds| - 1]) + [WithDifficulty(s, ds[|ds| - 1])]
  }

  function Flatten<T>(gs: seq<seq<T>>): seq<T> {
    if gs == [] then [] else Flatten(gs[..|gs| - 1]) + gs[|gs| - 1]
  }

  /** The groups for distinct difficulties hold each mountain of `s` as often
      as `s` does if its difficulty is listed, and not at all otherwise. */
  lemma {:induction false} GroupsCount(s: seq<Mountain>, ds: seq<int>, m: Mountain)
    requires NoDuplicates(ds)
    ensures multiset(Flatten(GroupsFor(s, ds)))[m] == if m.difficultyLevel in ds then multiset(s)[m] else 0
    decreases |ds|
  {
    if ds != [] {
      var front := ds[..|ds| - 1];
      assert NoDuplicates(front);
      GroupsCount(s, front, m);
      WithDifficultyCount(s, ds[|ds| - 1], m);
      assert GroupsFor(s, ds)[..|ds| - 1] == GroupsFor(s, front);
      assert ds == front + [ds[|ds| - 1]];
      assert m.difficultyLevel == ds[|ds| - 1] ==> m.difficultyLevel !in front;
    }
  }

  /** The groups for a list holding every difficulty of `s` once are a
      permutation of `s`. */
  lemma GroupsArePermutation(s: seq<Mountain>, ds: seq<int>)
    requires NoDuplicates(ds)
    requires forall m :: m in s ==> m.difficultyLevel in ds
    ensures multiset(Flatten(GroupsFor(s, ds))) == multiset(s)
  {
    forall m ensures multiset(Flatten(GroupsFor(s, ds)))[m] == multiset(s)[m] {
      GroupsCount(s, ds, m);
    }
  }

  /** What `group_by_difficulty` promises: one non-empty group per
      difficulty, by strictly ascending difficulty, each holding in list order
      exactly the mountains of that difficulty, all groups together a
      permutation of the list. */
  ghost predicate GroupedByDifficulty(s: seq<Mountain>, groups: seq<seq<Mountain>>) {
    && (forall i :: 0 <= i < |groups| ==> |groups[i]| > 0)
    && (forall i, m :: 0 <= i < |groups| && m in groups[i] ==>
          m.difficultyLevel == groups[i][0].difficultyLevel)
    && (forall i, j :: 0 <= i < j < |groups| ==>
          groups[i][0].difficultyLevel < groups[j][0].difficultyLevel)
    && (forall i :: 0 <= i < |groups| ==>
          groups[i] == WithDifficulty(s, groups[i][0].difficultyLevel))
    && multiset(Flatten(groups)) == multiset(s)
  }

  /** Each group built from a list of difficulties occurring in `s` is
      non-empty and headed by a mountain of its difficulty. */
  lemma GroupHeads(s: seq<Mountain>, ds: seq<int>, i: nat)
    requires forall d :: d in ds ==> d in Difficulties(s)
    requires i < |ds|
    ensures |GroupsFor(s, ds)[i]| > 0 && GroupsFor(s, ds)[i][0].difficultyLevel == ds[i]
  {
    var g := GroupsFor(s, ds)[i];
    var m := DifficultyWitness(s, ds[i]);
    WithDifficultyCount(s, ds[i], m);
    assert multiset(g)[m] > 0;
    assert g[0] in g;
  }

  /** The groups for a strictly ascending list of exactly the difficulties
      of `s` are grouped by difficulty. */
  lemma GroupingProperties(s: seq<Mountain>, ds: seq<int>)
    requires StrictlyAscending(ds)
    requires forall d :: d in ds <==> d in Difficulties(s)
    ensures GroupedByDifficulty(s, GroupsFor(s, ds))
  {
    var groups: seq<seq<Mountain>> := GroupsFor(s, ds);
    forall i | 0 <= i < |groups|
      ensures |groups[i]| > 0 && groups[i][0].difficultyLevel == ds[i]
    {
      GroupHeads(s, ds, i);
    }
    assert NoDuplicates(ds);
    GroupsArePermutation(s, ds);
  }

  /** The groups of the sorted distinct difficulties of `s` are grouped by difficulty. */
  lemma SortedGroupingProperties(s: seq<Mountain>)
    ensures GroupedByDifficulty(s, GroupsFor(s, Mergesort(DistinctDifficulties(s))))
  {
    SortDistinct(DistinctDifficulties(s));
    GroupingProperties(s, Mergesort(DistinctDifficulties(s)));
  }

  // ---------------------------------------------------------------------
  // The manager
  // ---------------------------------------------------------------------

  class MountainManager {
    var mountains: seq<Mountain>

    constructor ()
      ensures mountains == []
    {
      mountains := [];
    }

    method AddMountain(mountain: Mountain)
      modifies this
      ensures mountains == old(mountains) + [mountain]
    {
      mountains := mountains + [mountain];
    }

    /** Deletes the first occurrence of `mountain`; ValueError when absent. */
    method RemoveMountain(mountain: Mountain) returns (o: Outcome)
      modifies this
      ensures mountain !in old(mountains) ==> o == Fail(ValueError) && mountains == old(mountains)
      ensures mountain in old(mountains) ==>
        var i := FirstIndex(old(mountains), mountain);
        o == Pass && mountains == old(mountains)[..i] + old(mountains)[i + 1..]
    {
      if mountain !in mountains {
        return Fail(ValueError);
      }
      var i := FirstIndex(mountains, mountain);
      mountains := mountains[..i] + mountains[i + 1..];
      o := Pass;
    }

    /** Replaces the first occurrence of `old` by `new`; ValueError when absent. */
    method EditMountain(oldMountain: Mountain, newMountain: Mountain) returns (o: Outcome)
      modifies this
      ensures oldMountain !in old(mountains) ==> o == Fail(ValueError) && mountains == old(mountains)
      ensures oldMountain in old(mountains) ==>
        o == Pass && mountains == old(mountains)[FirstIndex(old(mountains), oldMountain) := newMountain]
    {
      if oldMountain !in mountains {
        return Fail(ValueError);
      }
      var index := FirstIndex(mountains, oldMountain);
      mountains := mountains[index := newMountain];
      o := Pass;
    }

    /** The mountains of difficulty `diff`, in list order. */
    method MountainsWithDifficulty(diff: int) returns (r: seq<Mountain>)
      ensures r == WithDifficulty(mountains, diff)
    {
      r := [];
      for i := 0 to |mountains|
        invariant r == WithDifficulty(mountains[..i], diff)
      {
        assert mountains[..i + 1][..i] == mountains[..i];
        if mountains[i].difficultyLevel == diff {
          r := r + [mountains[i]];
        }
      }
      assert mountains[..|mountains|] == mountains;
    }

    /** One group per difficulty, by ascending difficulty; each group holds,
        in list order, exactly the mountains of that difficulty. */
    method GroupByDifficulty() returns (groups: seq<seq<Mountain>>)
      ensures GroupedByDifficulty(mountains, groups)
    {
      var difficulties := CollectDifficulties();
      var sortedDifficulties := Mergesort(difficulties);
      groups := GroupsByList(sortedDifficulties);
      SortedGroupingProperties(mountains);
    }

    /** The first loop of `group_by_difficulty`: each difficulty once, in
        order of first appearance. */
    method CollectDifficulties() returns (difficulties: seq<int>)
      ensures difficulties == DistinctDifficulties(mountains)
    {
      difficulties := [];
      for i := 0 to |mountains|
        invariant difficulties == DistinctDifficulties(mountains[..i])
      {
        assert mountains[..i + 1][..i] == mountains[..i];
        if mountains[i].difficultyLevel !in difficulties {
          difficulties := difficulties + [mountains[i].difficultyLevel];
        }
      }
      assert mountains[..|mountains|] == mountains;
    }

    /** The second loop of `group_by_difficulty`: one group per listed
        difficulty, in list order. */
    method GroupsByList(ds: seq<int>) returns (groups: seq<seq<Mountain>>)
      ensures groups == GroupsFor(mountains, ds)
    {
      groups := [];
      for j := 0 to |ds|
        invariant groups == GroupsFor(mountains, ds[..j])
      {
        assert ds[..j + 1][..j] == ds[..j];
        var group := MountainsWithDifficulty(ds[j]);
        groups := groups + [group];
      }
      assert ds[..|ds|] == ds;
    }
  }
}

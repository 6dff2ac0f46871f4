/** The trail algebra: an immutable tree of mountains in series and
    two-way splits, and the three stack-driven walks over it.

    The walks never enter the `pathFollow` part of a split: after a split
    they stop, exactly as the stack loops they model do. */
module Trails {

  /** A split: two alternative paths, then a path both continue on. */
  datatype TrailSplit<M> = TrailSplit(pathTop: Trail<M>, pathBottom: Trail<M>, pathFollow: Trail<M>)
  {
    /** Removes the branch, leaving the path that follows it. */
    function RemoveBranch(): (r: TrailStore<M>)
      ensures Trail(r) == pathFollow
    {
      pathFollow.store
    }
  }

  /** A mountain followed by the rest of the trail. */
  datatype TrailSeries<M> = TrailSeries(mountain: M, following: Trail<M>)
  {
    /** Removes the first mountain, leaving the trail that follows it. */
    function RemoveMountain(): (r: TrailStore<M>)
      ensures Trail(r) == following
    {
      following.store
    }

    /** Puts `m` in series before this series. */
    function AddMountainBefore(m: M): (r: TrailStore<M>)
      ensures r.Series? && r.series.RemoveMountain() == Series(this)
      ensures Mountains(Trail(r)) == [m] + Mountains(Trail(Series(this)))
    {
      Series(TrailSeries(m, Trail(Series(this))))
    }

    /** Puts an empty split before this series, which becomes its following path. */
    function AddEmptyBranchBefore(): (r: TrailStore<M>)
      ensures r.Split? && r.split.RemoveBranch() == Series(this)
      ensures r.split.pathTop.store == EmptyStore && r.split.pathBottom.store == EmptyStore
      ensures Mountains(Trail(r)) == []
    {
      Split(TrailSplit(Trail(EmptyStore), Trail(EmptyStore), Trail(Series(this))))
    }

    /** Puts `m` between this series' mountain and the trail that follows it. */
    function AddMountainAfter(m: M): (r: TrailStore<M>)
      ensures r.Series? && r.series.mountain == mountain
      ensures var added := r.series.following.store;
              added.Series? && added.series.mountain == m && added.series.RemoveMountain() == following.store
      ensures Mountains(Trail(r)) == [mountain, m] + Mountains(following)
    {
      Series(TrailSeries(mountain, Trail(Series(TrailSeries(m, following)))))
    }

    /** Puts an empty split between this series' mountain and the trail that
        follows it; that trail becomes the split's following path. */
    function AddEmptyBranchAfter(): (r: TrailStore<M>)
      ensures r.Series? && r.series.mountain == mountain
      ensures r.series.following.store.Split? && r.series.following.store.split.RemoveBranch() == following.store
      ensures r.series.following.store.split.pathTop.store == EmptyStore
              && r.series.following.store.split.pathBottom.store == EmptyStore
      ensures Mountains(Trail(r)) == [mountain]
    {
      var branch := Trail(Split(TrailSplit(Trail(EmptyStore), Trail(EmptyStore), following)));
      assert Mountains(branch) == [];
      Series(TrailSeries(mountain, branch))
    }
  }

  datatype TrailStore<M> = EmptyStore | Split(split: TrailSplit<M>) | Series(series: TrailSeries<M>)

  /** A personality's choice at a split: given the mountains added so far and
      the two paths, true selects the top path. */
  type Selector<!M> = (seq<M>, Trail<M>, Trail<M>) -> bool

  datatype Trail<M> = Trail(store: TrailStore<M>)
  {
    /** Puts `m` before everything currently in the trail. */
    function AddMountainBefore(m: M): (r: Trail<M>)
      ensures r.store.Series? && Trail(r.store.series.RemoveMountain()) == this
      ensures Mountains(r) == [m] + Mountains(this)
    {
      Trail(Series(TrailSeries(m, this)))
    }

    /** Puts an empty split before everything currently in the trail. */
    function AddEmptyBranchBefore(): (r: Trail<M>)
      ensures r.store.Split? && Trail(r.store.split.RemoveBranch()) == this
      ensures r.store.split.pathTop.store == EmptyStore && r.store.split.pathBottom.store == EmptyStore
      ensures Mountains(r) == []
    {
      Trail(Split(TrailSplit(Trail(EmptyStore), Trail(EmptyStore), this)))
    }

    /** Walks one route, adding each series mountain to the personality and
        asking it at each split whether to take the top path. Returns the
        mountains added, in order. */
    method FollowPath(select: Selector<M>) returns (added: seq<M>)
      ensures added == Followed(this, [], select)
    {
      var stack := [this];
      added := [];
      while stack != []
        invariant |stack| <= 1
        invariant stack == [] ==> added == Followed(this, [], select)
        invariant stack != [] ==> Followed(stack[0], added, select) == Followed(this, [], select)
        decreases StackSize(stack)
      {
        var current := stack[0];
        stack := [];
        match current.store {
          case Series(s) =>
            added := added + [s.mountain];
            stack := [s.following];
          case Split(sp) =>
            if select(added, sp.pathTop, sp.pathBottom) {
              stack := [sp.pathTop];
            } else {
              stack := [sp.pathBottom];
            }
          case EmptyStore =>
        }
      }
    }

    /** Every mountain on the trail, depth first: a series' mountain before
        what follows it, a split's bottom path before its top path. */
    method CollectAllMountains() returns (mountains: seq<M>)
      ensures mountains == Mountains(this)
    {
      var stack := [this];
      Pushed([], this);
      mountains := [];
      while stack != []
        invariant mountains + StackMountains(stack) == Mountains(this)
        decreases StackSize(stack)
      {
        var current := stack[|stack| - 1];
        var rest := stack[..|stack| - 1];
        assert stack == rest + [current];
        Grown(rest, current);
        assert mountains + (Mountains(current) + StackMountains(rest)) == Mountains(this) by {
          Pushed(rest, current);
          Assoc(mountains, Mountains(current), StackMountains(rest));
        }
        stack := rest;
        match current.store {
          case Series(s) =>
            Grown(rest, s.following);
            assert (mountains + [s.mountain]) + StackMountains(rest + [s.following]) == Mountains(this) by {
              Pushed(rest, s.following);
              Assoc([s.mountain], Mountains(s.following), StackMountains(rest));
              Assoc(mountains, [s.mountain], Mountains(s.following) + StackMountains(rest));
            }
            mountains := mountains + [s.mountain];
            stack := stack + [s.following];
          case Split(sp) =>
            Grown(rest, sp.pathTop);
            Grown(rest + [sp.pathTop], sp.pathBottom);
            assert mountains + StackMountains(rest + [sp.pathTop] + [sp.pathBottom]) == Mountains(this) by {
              Pushed(rest, sp.pathTop);
              Pushed(rest + [sp.pathTop], sp.pathBottom);
              Assoc(Mountains(sp.pathBottom), Mountains(sp.pathTop), StackMountains(rest));
            }
            stack := stack + [sp.pathTop] + [sp.pathBottom];
          case EmptyStore =>
        }
      }
    }

    /** The first `k` mountains of every route, one list per choice of
        paths at the splits met before the `k`-th mountain. */
    method LengthKPaths(k: int) returns (paths: seq<seq<M>>)
      ensures paths == KPaths(this, [], k)
    {
      var stack: seq<(Trail<M>, seq<M>)> := [(this, [])];
      PairPushed([], this, [], k);
      paths := [];
      while stack != []
        invariant paths + StackPaths(stack, k) == KPaths(this, [], k)
        decreases PairStackSize(stack)
      {
        var top := stack[|stack| - 1];
        var rest := stack[..|stack| - 1];
        var (currentTrail, currentMountains) := top;
        PairPushed(rest, currentTrail, currentMountains, k);
        assert stack == rest + [(currentTrail, currentMountains)];
        stack := rest;
        match currentTrail.store {
          case Series(s) =>
            var newMountains := currentMountains + [s.mountain];
            if |newMountains| == k {
              Assoc(paths, [newMountains], StackPaths(rest, k));
              paths := paths + [newMountains];
            } else {
              PairPushed(rest, s.following, newMountains, k);
              stack := stack + [(s.following, newMountains)];
            }
          case Split(sp) =>
            PairPushed(rest, sp.pathTop, currentMountains, k);
            PairPushed(rest + [(sp.pathTop, currentMountains)], sp.pathBottom, currentMountains, k);
            Assoc(KPaths(sp.pathBottom, currentMountains, k), KPaths(sp.pathTop, currentMountains, k), StackPaths(rest, k));
            stack := stack + [(sp.pathTop, currentMountains)] + [(sp.pathBottom, currentMountains)];
          case EmptyStore =>
        }
      }
    }
  }

  // ---------------------------------------------------------------------
  // Specifications of the walks
  // ---------------------------------------------------------------------

  /** The mountains `collect_all_mountains` lists. */
  function Mountains<M>(t: Trail<M>): seq<M> {
    match t.store
    case EmptyStore => []
    case Series(s) => [s.mountain] + Mountains(s.following)
    case Split(sp) => Mountains(sp.pathBottom) + Mountains(sp.pathTop)
  }

  /** `done` followed by the mountains `follow_path` adds from `t` on. */
  function Followed<M>(t: Trail<M>, done: seq<M>, select: Selector<M>): seq<M> {
    match t.store
    case EmptyStore => done
    case Series(s) => Followed(s.following, done + [s.mountain], select)
    case Split(sp) =>
      if select(done, sp.pathTop, sp.pathBottom) then Followed(sp.pathTop, done, select)
      else Followed(sp.pathBottom, done, select)
  }

  /** The lists `length_k_paths` collects from `t` when `cur` has been walked. */
  function KPaths<M>(t: Trail<M>, cur: seq<M>, k: int): seq<seq<M>> {
    match t.store
    case EmptyStore => []
    case Series(s) =>
      var next := cur + [s.mountain];
      if |next| == k then [next] else KPaths(s.following, next, k)
    case Split(sp) => KPaths(sp.pathBottom, cur, k) + KPaths(sp.pathTop, cur, k)
  }

  /** `r` is the list of mountains met on one route through `t`: through a
      series, and into the top or the bottom path of a split, where it ends. */
  ghost predicate IsRoute<M>(t: Trail<M>, r: seq<M>) {
    match t.store
    case EmptyStore => r == []
    case Series(s) => r != [] && r[0] == s.mountain && IsRoute(s.following, r[1..])
    case Split(sp) => IsRoute(sp.pathTop, r) || IsRoute(sp.pathBottom, r)
  }

  /** `p` is a prefix of some route through `t`. */
  ghost predicate IsRoutePrefix<M>(t: Trail<M>, p: seq<M>) {
    p == [] ||
    match t.store
    case EmptyStore => false
    case Series(s) => p[0] == s.mountain && IsRoutePrefix(s.following, p[1..])
    case Split(sp) => IsRoutePrefix(sp.pathTop, p) || IsRoutePrefix(sp.pathBottom, p)
  }

  // ---------------------------------------------------------------------
  // Stack bookkeeping
  // ---------------------------------------------------------------------

  function Size<M>(t: Trail<M>): (n: nat)
    ensures n >= 1
  {
    match t.store
    case EmptyStore => 1
    case Series(s) => 1 + Size(s.following)
    case Split(sp) => 1 + Size(sp.pathTop) + Size(sp.pathBottom) + Size(sp.pathFollow)
  }

  function StackSize<M>(stack: seq<Trail<M>>): nat {
    if stack == [] then 0 else StackSize(stack[..|stack| - 1]) + Size(stack[|stack| - 1])
  }

  function PairStackSize<M>(stack: seq<(Trail<M>, seq<M>)>): nat {
    if stack == [] then 0 else PairStackSize(stack[..|stack| - 1]) + Size(stack[|stack| - 1].0)
  }

  /** Concatenation is associative. */
  lemma Assoc<T>(a: seq<T>, b: seq<T>, c: seq<T>)
    ensures (a + b) + c == a + (b + c)
  {
  }

  /** Pushing `t` onto a stack of trails adds its size. */
  lemma Grown<M>(stack: seq<Trail<M>>, t: Trail<M>)
    ensures StackSize(stack + [t]) == StackSize(stack) + Size(t)
  {
    assert (stack + [t])[..|stack|] == stack;
  }

  /** Pushing `t` onto a stack of trails puts its mountains first. */
  lemma Pushed<M>(stack: seq<Trail<M>>, t: Trail<M>)
    ensures StackMountains(stack + [t]) == Mountains(t) + StackMountains(stack)
  {
    assert (stack + [t])[..|stack|] == stack;
  }

  /** Pushing `t`, with the mountains met before it, onto a stack of pairs. */
  lemma PairPushed<M>(stack: seq<(Trail<M>, seq<M>)>, t: Trail<M>, cur: seq<M>, k: int)
    ensures PairStackSize(stack + [(t, cur)]) == PairStackSize(stack) + Size(t)
    ensures StackPaths(stack + [(t, cur)], k) == KPaths(t, cur, k) + StackPaths(stack, k)
  {
    assert (stack + [(t, cur)])[..|stack|] == stack;
  }

  /** What the trails on the stack still contribute, top of the stack first. */
  function StackMountains<M>(stack: seq<Trail<M>>): seq<M> {
    if stack == [] then [] else Mountains(stack[|stack| - 1]) + StackMountains(stack[..|stack| - 1])
  }

  function StackPaths<M>(stack: seq<(Trail<M>, seq<M>)>, k: int): seq<seq<M>> {
    if stack == [] then []
    else
      var (t, cur) := stack[|stack| - 1];
      KPaths(t, cur, k) + StackPaths(stack[..|stack| - 1], k)
  }

  // ---------------------------------------------------------------------
  // Properties of the walks
  // ---------------------------------------------------------------------

  /** `follow_path` adds the mountains of exactly one route, after those it
      had already added. */
  lemma {:induction false} FollowedIsRoute<M>(t: Trail<M>, done: seq<M>, select: Selector<M>)
    ensures var f := Followed(t, done, select);
      |done| <= |f| && f[..|done|] == done && IsRoute(t, f[|done|..])
  {
    var f := Followed(t, done, select);
    match t.store
    case EmptyStore =>
    case Series(s) =>
      FollowedIsRoute(s.following, done + [s.mountain], select);
      assert f[|done|..][1..] == f[|done| + 1..];
    case Split(sp) =>
      FollowedIsRoute(sp.pathTop, done, select);
      FollowedIsRoute(sp.pathBottom, done, select);
  }

  /** Every list `length_k_paths` returns has exactly `k` mountains. */
  lemma {:induction false} KPathsHaveLengthK<M>(t: Trail<M>, cur: seq<M>, k: int)
    ensures forall p :: p in KPaths(t, cur, k) ==> |p| == k
  {
    match t.store
    case EmptyStore =>
    case Series(s) => KPathsHaveLengthK(s.following, cur + [s.mountain], k);
    case Split(sp) =>
      KPathsHaveLengthK(sp.pathBottom, cur, k);
      KPathsHaveLengthK(sp.pathTop, cur, k);
  }

  /** Once `k` mountains have been passed no list is collected; so `k <= 0`
      yields no list at all. */
  lemma {:induction false} KPathsPastK<M>(t: Trail<M>, cur: seq<M>, k: int)
    requires |cur| >= k
    ensures KPaths(t, cur, k) == []
  {
    match t.store
    case EmptyStore =>
    case Series(s) => KPathsPastK(s.following, cur + [s.mountain], k);
    case Split(sp) =>
      KPathsPastK(sp.pathBottom, cur, k);
      KPathsPastK(sp.pathTop, cur, k);
  }

  lemma NonPositiveKYieldsNothing<M>(t: Trail<M>, k: int)
    requires k <= 0
    ensures KPaths(t, [], k) == []
  {
    KPathsPastK(t, [], k);
  }

  /** Every collected list extends `cur` by a prefix of a route. */
  lemma {:induction false} KPathsAreRoutePrefixes<M>(t: Trail<M>, cur: seq<M>, k: int, p: seq<M>)
    requires p in KPaths(t, cur, k)
    ensures |cur| <= |p| && p[..|cur|] == cur && IsRoutePrefix(t, p[|cur|..])
  {
    match t.store
    case EmptyStore =>
    case Series(s) =>
      var next := cur + [s.mountain];
      if |next| == k {
        assert p == next;
        assert p[|cur|..] == [s.mountain];
        assert p[|cur|..][1..] == [];
      } else {
        KPathsAreRoutePrefixes(s.following, next, k, p);
        assert p[|cur|..][1..] == p[|next|..];
      }
    case Split(sp) =>
      if p in KPaths(sp.pathBottom, cur, k) {
        KPathsAreRoutePrefixes(sp.pathBottom, cur, k, p);
      } else {
        KPathsAreRoutePrefixes(sp.pathTop, cur, k, p);
      }
  }

  /** Every route long enough contributes its first `k` mountains. */
  lemma {:induction false} RoutesGiveKPaths<M>(t: Trail<M>, cur: seq<M>, k: int, r: seq<M>)
    requires IsRoute(t, r)
    requires |cur| < k <= |cur| + |r|
    ensures cur + r[..k - |cur|] in KPaths(t, cur, k)
  {
    match t.store
    case EmptyStore =>
    case Series(s) =>
      var next := cur + [s.mountain];
      if |next| == k {
        assert cur + r[..k - |cur|] == next;
      } else {
        RoutesGiveKPaths(s.following, next, k, r[1..]);
        assert next + r[1..][..k - |next|] == cur + r[..k - |cur|];
      }
    case Split(sp) =>
      if IsRoute(sp.pathTop, r) {
        RoutesGiveKPaths(sp.pathTop, cur, k, r);
      } else {
        RoutesGiveKPaths(sp.pathBottom, cur, k, r);
      }
  }

  /** `collect_all_mountains` lists every mountain of every route. */
  lemma {:induction false} RoutesAreCollected<M>(t: Trail<M>, r: seq<M>)
    requires IsRoute(t, r)
    ensures multiset(r) <= multiset(Mountains(t))
  {
    match t.store
    case EmptyStore =>
    case Series(s) =>
      RoutesAreCollected(s.following, r[1..]);
      assert r == [s.mountain] + r[1..];
    case Split(sp) =>
      if IsRoute(sp.pathTop, r) {
        RoutesAreCollected(sp.pathTop, r);
      } else {
        RoutesAreCollected(sp.pathBottom, r);
      }
  }
}

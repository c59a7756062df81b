/** Walks, closed walks and reachability over a finite binary relation. */
module Walks {
  import opened Wrappers

  ghost predicate IsWalk<T>(r: set<(T, T)>, w: seq<T>) {
    && |w| >= 1
    && forall i, j :: 0 <= i && j == i + 1 && j < |w| ==> (w[i], w[j]) in r
  }

  ghost predicate Connects<T>(r: set<(T, T)>, a: T, b: T, w: seq<T>) {
    IsWalk(r, w) && w[0] == a && w[|w| - 1] == b
  }

  /** Some walk of 1 to `depth` hops leads from a to b; `None` means no bound. */
  ghost predicate Within<T(!new)>(r: set<(T, T)>, a: T, b: T, depth: Option<int>) {
    exists w: seq<T> :: Connects(r, a, b, w) && |w| >= 2 && (depth.Some? ==> |w| - 1 <= depth.value)
  }

  ghost predicate Distinct<T>(s: seq<T>) {
    forall i, j :: 0 <= i < j < |s| ==> s[i] != s[j]
  }

  /** The walk c followed by the hop from its last element back to its first. */
  ghost predicate IsClosedWalk<T>(r: set<(T, T)>, c: seq<T>) {
    IsWalk(r, c) && (c[|c| - 1], c[0]) in r
  }

  ghost predicate IsSimpleCycle<T>(r: set<(T, T)>, c: seq<T>) {
    IsClosedWalk(r, c) && Distinct(c)
  }

  ghost predicate Cyclic<T(!new)>(r: set<(T, T)>) {
    exists c: seq<T> :: IsClosedWalk(r, c)
  }

  ghost function Converse<T(!new)>(r: set<(T, T)>): set<(T, T)> {
    set p | p in r :: (p.1, p.0)
  }

  ghost function Reversed<T>(w: seq<T>): seq<T> {
    seq(|w|, i requires 0 <= i < |w| => w[|w| - 1 - i])
  }

  ghost function Image<T(!new)>(r: set<(T, T)>, s: set<T>): set<T> {
    set p | p in r && p.0 in s :: p.1
  }

  lemma InImage<T(!new)>(r: set<(T, T)>, s: set<T>, a: T, b: T)
    requires a in s && (a, b) in r
    ensures b in Image(r, s)
  {
    assert (a, b).0 in s;
  }

  lemma ImageOfUnion<T(!new)>(r: set<(T, T)>, s: set<T>, t: set<T>)
    ensures Image(r, s + t) == Image(r, s) + Image(r, t)
  {
  }

  lemma Snoc<T>(r: set<(T, T)>, w: seq<T>, b: T)
    requires IsWalk(r, w) && (w[|w| - 1], b) in r
    ensures Connects(r, w[0], b, w + [b])
  {
  }

  lemma Slice<T>(r: set<(T, T)>, w: seq<T>, lo: nat, hi: nat)
    requires IsWalk(r, w) && lo < hi <= |w|
    ensures IsWalk(r, w[lo..hi]) && Connects(r, w[lo], w[hi - 1], w[lo..hi])
  {
    var v := w[lo..hi];
    forall i, j | 0 <= i && j == i + 1 && j < |v| ensures (v[i], v[j]) in r {
      assert v[i] == w[lo + i] && v[j] == w[lo + j];
    }
  }

  lemma ReversedConnects<T(!new)>(r: set<(T, T)>, a: T, b: T, w: seq<T>)
    requires Connects(r, a, b, w)
    ensures Connects(Converse(r), b, a, Reversed(w))
  {
    var v := Reversed(w);
    forall i, j | 0 <= i && j == i + 1 && j < |v| ensures (v[i], v[j]) in Converse(r) {
      assert (w[|w| - 1 - j], w[|w| - 1 - i]) in r;
    }
  }

  /** Reaching b from a along r is the same as reaching a from b along the converse. */
  lemma WithinConverse<T(!new)>(r: set<(T, T)>, a: T, b: T, depth: Option<int>)
    ensures Within(r, a, b, depth) <==> Within(Converse(r), b, a, depth)
  {
    if Within(r, a, b, depth) {
      var w :| Connects(r, a, b, w) && |w| >= 2 && (depth.Some? ==> |w| - 1 <= depth.value);
      ReversedConnects(r, a, b, w);
      assert |Reversed(w)| >= 2;
    }
    if Within(Converse(r), b, a, depth) {
      var w :| Connects(Converse(r), b, a, w) && |w| >= 2 && (depth.Some? ==> |w| - 1 <= depth.value);
      ReversedConnects(Converse(r), b, a, w);
      assert Converse(Converse(r)) == r;
      assert |Reversed(w)| >= 2;
    }
  }

  /** A list in which every successor of an element occurs strictly earlier. */
  ghost predicate Sinking<T(!new)>(r: set<(T, T)>, order: seq<T>) {
    forall i, b :: 0 <= i < |order| && (order[i], b) in r ==> b in order[..i]
  }

  lemma SinkingSnoc<T(!new)>(r: set<(T, T)>, order: seq<T>, u: T)
    requires Sinking(r, order)
    requires forall b :: (u, b) in r ==> b in order
    ensures Sinking(r, order + [u])
  {
    var longer := order + [u];
    forall i, b | 0 <= i < |longer| && (longer[i], b) in r ensures b in longer[..i] {
      if i == |order| {
        assert longer[..i] == order;
      } else {
        assert longer[..i] == order[..i];
      }
    }
  }

  lemma SinkingInPart<T(!new)>(r: set<(T, T)>, part: set<(T, T)>, order: seq<T>)
    requires Sinking(r, order) && part <= r
    ensures Sinking(part, order)
  {
  }

  lemma {:induction false} SinkingDescends<T(!new)>(r: set<(T, T)>, order: seq<T>, w: seq<T>, start: nat, k: nat)
    returns (p: nat)
    requires Sinking(r, order) && IsWalk(r, w) && k < |w|
    requires start < |order| && order[start] == w[0]
    ensures p + k <= start && order[p] == w[k]
  {
    if k == 0 {
      p := start;
    } else {
      var q := SinkingDescends(r, order, w, start, k - 1);
      assert (order[q], w[k]) in r;
      p :| 0 <= p < q && order[p] == w[k];
    }
  }

  /** A sinking order that holds every source of the relation rules out closed walks. */
  lemma SinkingIsAcyclic<T(!new)>(r: set<(T, T)>, order: seq<T>)
    requires Sinking(r, order) && Distinct(order)
    requires forall a, b :: (a, b) in r ==> a in order
    ensures !Cyclic(r)
  {
    if Cyclic(r) {
      var c: seq<T> :| IsClosedWalk(r, c);
      var last := c[|c| - 1];
      assert c[0] in order by {
        if |c| > 1 {
          assert (c[0], c[1]) in r;
        }
      }
      var start :| 0 <= start < |order| && order[start] == c[0];
      var p := SinkingDescends(r, order, c, start, |c| - 1);
    }
  }

  /** Some hop of the closed walk, the one back to its start included, is among the given ones. */
  ghost predicate UsesHop<T>(c: seq<T>, hops: set<(T, T)>)
    requires |c| >= 1
  {
    (c[|c| - 1], c[0]) in hops || exists i, j :: 0 <= i && j == i + 1 && j < |c| && (c[i], c[j]) in hops
  }

  /** If taking hops away leaves no cycle, every cycle used one of them. */
  lemma CyclesUseHops<T(!new)>(r: set<(T, T)>, hops: set<(T, T)>, c: seq<T>)
    requires !Cyclic(r - hops) && IsClosedWalk(r, c)
    ensures UsesHop(c, hops)
  {
    if !UsesHop(c, hops) {
      assert IsClosedWalk(r - hops, c);
    }
  }

  /** The hops of a cycle, wherever one starts to list its nodes. */
  ghost function HopsOf<T(!new)>(c: seq<T>): set<(T, T)> {
    set i, j | 0 <= i < |c| && 0 <= j < |c| && (j == i + 1 || (j == 0 && i == |c| - 1)) :: (c[i], c[j])
  }

  lemma HopOf<T(!new)>(c: seq<T>, hops: set<(T, T)>) returns (h: (T, T))
    requires |c| >= 1 && UsesHop(c, hops)
    ensures h in hops && h in HopsOf(c)
  {
    if (c[|c| - 1], c[0]) in hops {
      h := (c[|c| - 1], c[0]);
    } else {
      var i, j :| 0 <= i && j == i + 1 && j < |c| && (c[i], c[j]) in hops;
      h := (c[i], c[j]);
    }
  }

  /** In a simple cycle only the last node leads back to the first one. */
  lemma HopIntoFirst<T(!new)>(c: seq<T>, q: T)
    requires Distinct(c) && c != [] && (q, c[0]) in HopsOf(c)
    ensures c[|c| - 1] == q
  {
    var i, j :| 0 <= i < |c| && 0 <= j < |c| && (j == i + 1 || (j == 0 && i == |c| - 1)) && (q, c[0]) == (c[i], c[j]);
    assert j == 0;
  }

  lemma HopEndsOnCycle<T(!new)>(c: seq<T>, q: T, y: T)
    requires (q, y) in HopsOf(c)
    ensures y in c
  {
  }

  /** The cycle is listed, from whichever of its nodes on. */
  ghost predicate Lists<T(!new)>(cycles: seq<seq<T>>, c: seq<T>) {
    exists i :: 0 <= i < |cycles| && HopsOf(cycles[i]) == HopsOf(c)
  }

  ghost predicate ListsAll<T(!new)>(r: set<(T, T)>, cycles: seq<seq<T>>) {
    forall c :: IsSimpleCycle(r, c) ==> Lists(cycles, c)
  }

  /** Two different simple cycles that share the hop h. */
  ghost predicate Share<T(!new)>(r: set<(T, T)>, c: seq<T>, d: seq<T>, h: (T, T)) {
    IsSimpleCycle(r, c) && IsSimpleCycle(r, d) && h in HopsOf(c) && h in HopsOf(d) && HopsOf(c) != HopsOf(d)
  }

  ghost predicate CyclesShareHop<T(!new)>(r: set<(T, T)>) {
    exists c, d, h :: Share(r, c, d, h)
  }

  /** Everything at most k hops away from start, start included. */
  ghost function Ball<T(!new)>(r: set<(T, T)>, start: T, k: nat): set<T> {
    if k == 0 then {start} else Ball(r, start, k - 1) + Image(r, Ball(r, start, k - 1))
  }

  /** What the k-th round of a breadth-first search sees for the first time. */
  ghost function Shell<T(!new)>(r: set<(T, T)>, start: T, k: nat): set<T> {
    if k == 0 then {start} else Ball(r, start, k) - Ball(r, start, k - 1)
  }

  lemma {:induction false} StartInBall<T(!new)>(r: set<(T, T)>, start: T, k: nat)
    ensures start in Ball(r, start, k)
  {
    if k > 0 {
      StartInBall(r, start, k - 1);
    }
  }

  /** It is enough to expand the shell: everything older was expanded in an earlier round. */
  lemma NextBall<T(!new)>(r: set<(T, T)>, start: T, k: nat)
    ensures Ball(r, start, k + 1) == Ball(r, start, k) + Image(r, Shell(r, start, k))
    ensures Shell(r, start, k + 1) == Image(r, Shell(r, start, k)) - Ball(r, start, k)
  {
    if k > 0 {
      ImageOfUnion(r, Shell(r, start, k), Ball(r, start, k - 1));
      assert Shell(r, start, k) + Ball(r, start, k - 1) == Ball(r, start, k);
    }
  }

  lemma {:induction false} BallHasWalk<T(!new)>(r: set<(T, T)>, start: T, k: nat, n: T) returns (w: seq<T>)
    requires n in Ball(r, start, k)
    ensures Connects(r, start, n, w) && |w| <= k + 1
  {
    if k == 0 {
      w := [start];
    } else if n in Ball(r, start, k - 1) {
      w := BallHasWalk(r, start, k - 1, n);
    } else {
      var p :| p in r && p.0 in Ball(r, start, k - 1) && p.1 == n;
      assert p == (p.0, n);
      var u := BallHasWalk(r, start, k - 1, p.0);
      Snoc(r, u, n);
      w := u + [n];
    }
  }

  lemma {:induction false} WalkStaysInBall<T(!new)>(r: set<(T, T)>, start: T, k: nat, n: T, w: seq<T>)
    requires Connects(r, start, n, w) && |w| <= k + 1
    ensures n in Ball(r, start, k)
  {
    if |w| == 1 {
      StartInBall(r, start, k);
    } else {
      var a := w[|w| - 2];
      Slice(r, w, 0, |w| - 1);
      WalkStaysInBall(r, start, k - 1, a, w[0..|w| - 1]);
      InImage(r, Ball(r, start, k - 1), a, n);
    }
  }

  lemma {:induction false} EmptyShellIsFixpoint<T(!new)>(r: set<(T, T)>, start: T, k: nat, m: nat)
    requires Shell(r, start, k) == {} && k <= m
    ensures Ball(r, start, m) <= Ball(r, start, k) && Shell(r, start, m) == {}
    decreases m
  {
    if k < m {
      EmptyShellIsFixpoint(r, start, k, m - 1);
      NextBall(r, start, m - 1);
      assert Image(r, Shell(r, start, m - 1)) == {};
    }
  }

  lemma {:induction false} BallGrows<T(!new)>(r: set<(T, T)>, start: T, k: nat, m: nat)
    requires k <= m
    ensures Ball(r, start, k) <= Ball(r, start, m)
    decreases m
  {
    if k < m {
      BallGrows(r, start, k, m - 1);
    }
  }

  /** The set a search of the given depth has to return. */
  ghost predicate IsReach<T(!new)>(r: set<(T, T)>, start: T, depth: Option<int>, seen: set<T>) {
    forall n :: n in seen <==> n != start && Within(r, start, n, depth)
  }

  lemma FirstRound<T(!new)>(r: set<(T, T)>, start: T)
    ensures Ball(r, start, 0) == Shell(r, start, 0) == {start}
  {
  }

  /** One round of the search turns the k-th state into the next one. */
  lemma NextRound<T(!new)>(r: set<(T, T)>, start: T, k: nat, before: set<T>, frontier: set<T>, seen: set<T>, next: set<T>)
    requires before == Ball(r, start, k) - {start} && frontier == Shell(r, start, k)
    requires next == Image(r, frontier) - before - {start} && seen == before + next
    ensures seen == Ball(r, start, k + 1) - {start} && next == Shell(r, start, k + 1)
  {
    StartInBall(r, start, k);
    NextBall(r, start, k);
    assert Ball(r, start, k) == before + {start};
  }

  lemma BallIsWithin<T(!new)>(r: set<(T, T)>, start: T, k: nat, depth: Option<int>, n: T)
    requires depth.Some? ==> k == 0 || k <= depth.value
    requires n in Ball(r, start, k) && n != start
    ensures Within(r, start, n, depth)
  {
    var w := BallHasWalk(r, start, k, n);
    assert |w| >= 2;
  }

  lemma WithinIsBall<T(!new)>(r: set<(T, T)>, start: T, k: nat, depth: Option<int>, n: T)
    requires Shell(r, start, k) == {} || (depth.Some? && k >= depth.value)
    requires Within(r, start, n, depth)
    ensures n in Ball(r, start, k)
  {
    hide *;
    var j := WithinSomeBall(r, start, depth, n);
    if j <= k {
      BallGrows(r, start, j, k);
    } else {
      EmptyShellIsFixpoint(r, start, k, j);
    }
  }

  lemma WithinSomeBall<T(!new)>(r: set<(T, T)>, start: T, depth: Option<int>, n: T) returns (j: nat)
    requires Within(r, start, n, depth)
    ensures n in Ball(r, start, j) && (depth.Some? ==> j <= depth.value)
  {
    var w :| Connects(r, start, n, w) && |w| >= 2 && (depth.Some? ==> |w| - 1 <= depth.value);
    hide *;
    j := |w| - 1;
    WalkStaysInBall(r, start, j, n, w);
  }

  /** Once a round adds nothing or the depth is used up, the ball is exactly what is in reach. */
  lemma BallIsReach<T(!new)>(r: set<(T, T)>, start: T, k: nat, depth: Option<int>)
    requires Shell(r, start, k) == {} || (depth.Some? && k >= depth.value)
    requires depth.Some? ==> k == 0 || k <= depth.value
    ensures IsReach(r, start, depth, Ball(r, start, k) - {start})
  {
    forall n ensures n in Ball(r, start, k) - {start} <==> n != start && Within(r, start, n, depth) {
      if n != start && Within(r, start, n, depth) {
        WithinIsBall(r, start, k, depth, n);
      }
      if n != start && n in Ball(r, start, k) {
        BallIsWithin(r, start, k, depth, n);
      }
    }
  }

  ghost predicate Injective<T, U>(m: map<T, U>) {
    forall a, b :: a in m && b in m && m[a] == m[b] ==> a == b
  }

  ghost function Along<T, U>(m: map<T, U>, w: seq<T>): seq<U>
    requires forall x :: x in w ==> x in m
  {
    seq(|w|, i requires 0 <= i < |w| => m[w[i]])
  }

  /** s is r with every element renamed by m. */
  ghost predicate IsRenaming<T(!new), U(!new)>(r: set<(T, T)>, m: map<T, U>, s: set<(U, U)>) {
    && (forall a, b :: (a, b) in r ==> a in m && b in m && (m[a], m[b]) in s)
    && (forall x, y :: (x, y) in s ==> exists a, b :: (a, b) in r && a in m && b in m && m[a] == x && m[b] == y)
  }

  lemma RenamedWalk<T(!new), U(!new)>(r: set<(T, T)>, m: map<T, U>, s: set<(U, U)>, w: seq<T>)
    requires IsRenaming(r, m, s) && IsWalk(r, w) && |w| >= 2
    ensures forall x :: x in w ==> x in m
    ensures Connects(s, m[w[0]], m[w[|w| - 1]], Along(m, w))
  {
    forall x | x in w ensures x in m {
      var i :| 0 <= i < |w| && w[i] == x;
      if i > 0 {
        assert (w[i - 1], w[i]) in r;
      } else {
        assert (w[0], w[1]) in r;
      }
    }
    var v := Along(m, w);
    forall i, j | 0 <= i && j == i + 1 && j < |v| ensures (v[i], v[j]) in s {
      assert (w[i], w[j]) in r;
    }
  }

  lemma {:induction false} LiftWalk<T(!new), U(!new)>(r: set<(T, T)>, m: map<T, U>, s: set<(U, U)>, a: T, v: seq<U>) returns (w: seq<T>)
    requires IsRenaming(r, m, s) && Injective(m) && a in m && IsWalk(s, v) && v[0] == m[a]
    ensures IsWalk(r, w) && w[0] == a && |w| == |v|
    ensures w[|w| - 1] in m && m[w[|w| - 1]] == v[|v| - 1]
    decreases |v|
  {
    if |v| == 1 {
      w := [a];
    } else {
      Slice(s, v, 0, |v| - 1);
      var u := LiftWalk(r, m, s, a, v[0..|v| - 1]);
      assert (v[|v| - 2], v[|v| - 1]) in s;
      var x, y :| (x, y) in r && x in m && y in m && m[x] == v[|v| - 2] && m[y] == v[|v| - 1];
      Snoc(r, u, y);
      w := u + [y];
    }
  }

  /** An injective renaming carries reachability over in both directions, and reaches nothing else. */
  lemma RenamingKeepsReach<T(!new), U(!new)>(r: set<(T, T)>, m: map<T, U>, s: set<(U, U)>, a: T, depth: Option<int>)
    requires IsRenaming(r, m, s) && Injective(m) && a in m
    ensures forall b :: b in m ==> (Within(r, a, b, depth) <==> Within(s, m[a], m[b], depth))
    ensures forall y :: Within(s, m[a], y, depth) ==> exists b :: b in m && m[b] == y
  {
    forall b | b in m && Within(r, a, b, depth) ensures Within(s, m[a], m[b], depth) {
      var w :| Connects(r, a, b, w) && |w| >= 2 && (depth.Some? ==> |w| - 1 <= depth.value);
      RenamedWalk(r, m, s, w);
      assert |Along(m, w)| == |w|;
    }
    forall y | Within(s, m[a], y, depth) ensures exists b :: b in m && m[b] == y && Within(r, a, b, depth) {
      var v :| Connects(s, m[a], y, v) && |v| >= 2 && (depth.Some? ==> |v| - 1 <= depth.value);
      var w := LiftWalk(r, m, s, a, v);
      assert Connects(r, a, w[|w| - 1], w);
    }
  }
}

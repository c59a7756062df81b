/** The claim graph: a typed directed multigraph kept as two mirrored adjacency maps. */
module ClaimGraphs {
  import opened Wrappers
  import opened Walks

  type Id = string

  datatype Kind = DependsOn | Supports | Contradicts | Extends

  datatype Edge = Edge(source: Id, target: Id, kind: Kind)

  /** The part of a claim record the graph reads; an absent edge list is the empty list. */
  datatype Claim = Claim(id: Id, dependsOn: seq<Id>, supports: seq<Id>, contradicts: seq<Id>, extensions: seq<Id>)

  datatype Direction = Out | In

  datatype CycleError = CycleError(kind: Kind, cycle: seq<Id>)

  type Adjacency = map<Id, seq<Edge>>

  function Targets(c: Claim, kind: Kind): seq<Id> {
    match kind
    case DependsOn => c.dependsOn
    case Supports => c.supports
    case Contradicts => c.contradicts
    case Extends => c.extensions
  }

  function Tagged(source: Id, targets: seq<Id>, kind: Kind): seq<Edge> {
    seq(|targets|, i requires 0 <= i < |targets| => Edge(source, targets[i], kind))
  }

  /** The edges a claim declares, kind by kind. */
  function EdgesOf(c: Claim): seq<Edge> {
    Tagged(c.id, c.dependsOn, DependsOn) + Tagged(c.id, c.supports, Supports)
    + Tagged(c.id, c.contradicts, Contradicts) + Tagged(c.id, c.extensions, Extends)
  }

  function At(m: Adjacency, id: Id): seq<Edge> {
    if id in m then m[id] else []
  }

  function Near(e: Edge, dir: Direction): Id {
    if dir.Out? then e.source else e.target
  }

  function Far(e: Edge, dir: Direction): Id {
    if dir.Out? then e.target else e.source
  }

  /** Edge e appended to the list of its near end, which is created on first use. */
  function File(m: Adjacency, e: Edge, dir: Direction): Adjacency {
    m[Near(e, dir) := At(m, Near(e, dir)) + [e]]
  }

  function FileAll(m: Adjacency, es: seq<Edge>, dir: Direction): Adjacency {
    if es == [] then m else File(FileAll(m, es[..|es| - 1], dir), es[|es| - 1], dir)
  }

  lemma {:induction false} FileAllAppends(m: Adjacency, es: seq<Edge>, fs: seq<Edge>, dir: Direction)
    ensures FileAll(m, es + fs, dir) == FileAll(FileAll(m, es, dir), fs, dir)
  {
    if fs == [] {
      assert es + fs == es;
    } else {
      var gs := es + fs;
      assert gs[..|gs| - 1] == es + fs[..|fs| - 1];
      FileAllAppends(m, es, fs[..|fs| - 1], dir);
    }
  }

  ghost predicate NearIsKey(m: Adjacency, dir: Direction) {
    forall x, e :: x in m && e in m[x] ==> Near(e, dir) == x
  }

  /** Every edge is stored as often under its source as under its target. */
  ghost predicate Mirrored(outs: Adjacency, ins: Adjacency) {
    forall e: Edge :: multiset(At(outs, e.source))[e] == multiset(At(ins, e.target))[e]
  }

  lemma {:induction false} FileAllKeys(m: Adjacency, es: seq<Edge>, dir: Direction)
    requires NearIsKey(m, dir)
    ensures NearIsKey(FileAll(m, es, dir), dir)
  {
    if es != [] {
      var last := es[|es| - 1];
      var f := FileAll(m, es[..|es| - 1], dir);
      FileAllKeys(m, es[..|es| - 1], dir);
      forall x, e | x in File(f, last, dir) && e in File(f, last, dir)[x] ensures Near(e, dir) == x {
        if x == Near(last, dir) {
          assert e in At(f, x) + [last];
        }
      }
    }
  }

  /** Filing a list of edges adds exactly those edges, with their multiplicity, under their near ends. */
  lemma {:induction false} FileAllCounts(m: Adjacency, es: seq<Edge>, dir: Direction, e: Edge)
    ensures multiset(At(FileAll(m, es, dir), Near(e, dir)))[e]
         == multiset(At(m, Near(e, dir)))[e] + multiset(es)[e]
  {
    hide *;
    if es != [] {
      var front, last := es[..|es| - 1], es[|es| - 1];
      FileAllCounts(m, front, dir, e);
      assert es == front + [last];
      FileAllSnoc(m, front, last, dir);
      CountOfSnoc(front, last, e);
      CountOfFile(FileAll(m, front, dir), last, dir, e);
    } else {
      FileNone(m, dir);
    }
  }

  lemma FileNone(m: Adjacency, dir: Direction)
    ensures FileAll(m, [], dir) == m
  {
  }

  lemma KeysOfFile(m: Adjacency, e: Edge)
    ensures File(m, e, Out).Keys == m.Keys + {e.source}
  {
  }

  lemma FileAllSnoc(m: Adjacency, es: seq<Edge>, last: Edge, dir: Direction)
    ensures FileAll(m, es + [last], dir) == File(FileAll(m, es, dir), last, dir)
  {
    hide File;
    assert (es + [last])[..|es|] == es;
  }

  lemma CountOfFile(m: Adjacency, last: Edge, dir: Direction, e: Edge)
    ensures multiset(At(File(m, last, dir), Near(e, dir)))[e]
         == multiset(At(m, Near(e, dir)))[e] + if last == e then 1 else 0
  {
    FileAt(m, last, dir, Near(e, dir));
    CountOfSnoc(At(m, Near(e, dir)), last, e);
    assert last == e ==> Near(last, dir) == Near(e, dir);
    hide At, File, Near;
    assert At(m, Near(e, dir)) + [] == At(m, Near(e, dir));
  }

  lemma CountOfSnoc(es: seq<Edge>, last: Edge, e: Edge)
    ensures multiset(es + [last])[e] == multiset(es)[e] + if last == e then 1 else 0
  {
  }

  lemma FileAt(m: Adjacency, e: Edge, dir: Direction, x: Id)
    ensures At(File(m, e, dir), x) == At(m, x) + if x == Near(e, dir) then [e] else []
  {
  }

  /** Filing the same edges on both sides keeps the two maps mirror images. */
  lemma FileAllKeepsMirror(outs: Adjacency, ins: Adjacency, es: seq<Edge>)
    requires NearIsKey(outs, Out) && NearIsKey(ins, In) && Mirrored(outs, ins)
    ensures NearIsKey(FileAll(outs, es, Out), Out) && NearIsKey(FileAll(ins, es, In), In)
    ensures Mirrored(FileAll(outs, es, Out), FileAll(ins, es, In))
  {
    FileAllKeys(outs, es, Out);
    FileAllKeys(ins, es, In);
    var o, i := FileAll(outs, es, Out), FileAll(ins, es, In);
    forall e: Edge ensures multiset(At(o, e.source))[e] == multiset(At(i, e.target))[e] {
      FileAllCounts(outs, es, Out, e);
      FileAllCounts(ins, es, In, e);
      assert Near(e, Out) == e.source && Near(e, In) == e.target;
    }
  }

  /** The hops of one kind in one direction. */
  ghost function Arcs(m: Adjacency, kind: Kind, dir: Direction): set<(Id, Id)> {
    set x, e | x in m.Keys && e in m[x] && e.kind == kind :: (x, Far(e, dir))
  }

  function EdgeBetween(x: Id, y: Id, kind: Kind, dir: Direction): Edge {
    if dir.Out? then Edge(x, y, kind) else Edge(y, x, kind)
  }

  lemma InArcs(m: Adjacency, kind: Kind, dir: Direction, x: Id, y: Id)
    requires NearIsKey(m, dir)
    ensures (x, y) in Arcs(m, kind, dir) <==> EdgeBetween(x, y, kind, dir) in At(m, x)
  {
    if (x, y) in Arcs(m, kind, dir) {
      var e :| x in m.Keys && e in m[x] && e.kind == kind && y == Far(e, dir);
      assert Near(e, dir) == x;
    }
    if EdgeBetween(x, y, kind, dir) in At(m, x) {
      assert x in m.Keys;
      assert Far(EdgeBetween(x, y, kind, dir), dir) == y;
    }
  }

  lemma ArcsMirror(outs: Adjacency, ins: Adjacency, kind: Kind)
    requires NearIsKey(outs, Out) && NearIsKey(ins, In) && Mirrored(outs, ins)
    ensures Arcs(ins, kind, In) == Converse(Arcs(outs, kind, Out))
  {
    forall a, b ensures (b, a) in Arcs(ins, kind, In) <==> (a, b) in Arcs(outs, kind, Out) {
      var e := Edge(a, b, kind);
      assert multiset(At(outs, e.source))[e] == multiset(At(ins, e.target))[e];
      InArcs(outs, kind, Out, a, b);
      InArcs(ins, kind, In, b, a);
    }
    forall p | p in Arcs(ins, kind, In) ensures p in Converse(Arcs(outs, kind, Out)) {
      assert p == (p.0, p.1);
      assert (p.1, p.0) in Arcs(outs, kind, Out);
    }
    forall p | p in Converse(Arcs(outs, kind, Out)) ensures p in Arcs(ins, kind, In) {
      assert p == (p.0, p.1);
      assert (p.1, p.0) in Arcs(outs, kind, Out);
    }
  }

  function OfKind(es: seq<Edge>, kind: Kind): seq<Edge> {
    if es == [] then []
    else (if es[0].kind == kind then [es[0]] else []) + OfKind(es[1..], kind)
  }

  lemma OfKindFilters(es: seq<Edge>, kind: Kind)
    ensures forall e :: e in OfKind(es, kind) <==> e in es && e.kind == kind
  {
  }

  ghost function Fars(es: seq<Edge>, dir: Direction): set<Id> {
    set e | e in es :: Far(e, dir)
  }

  /** Everything an adjacency map mentions at the far end of an edge. */
  ghost function FarEnds(m: Adjacency, dir: Direction): set<Id> {
    set x, e | x in m.Keys && e in m[x] :: Far(e, dir)
  }

  lemma FarEndsGrow(m: Adjacency, keys: set<Id>, x: Id, dir: Direction)
    requires x in m.Keys - keys && keys <= m.Keys
    ensures FarEnds(map k | k in keys + {x} :: m[k], dir) == FarEnds(map k | k in keys :: m[k], dir) + Fars(m[x], dir)
  {
    var small, big := (map k | k in keys :: m[k]), (map k | k in keys + {x} :: m[k]);
    forall y | y in FarEnds(small, dir) + Fars(m[x], dir) ensures y in FarEnds(big, dir) {
      if y in Fars(m[x], dir) {
        var e :| e in m[x] && Far(e, dir) == y;
        assert x in big.Keys && e in big[x];
      } else {
        var k, e :| k in small.Keys && e in small[k] && Far(e, dir) == y;
        assert k in big.Keys && e in big[k];
      }
    }
    forall y | y in FarEnds(big, dir) ensures y in FarEnds(small, dir) + Fars(m[x], dir) {
      var k, e :| k in big.Keys && e in big[k] && Far(e, dir) == y;
      assert k != x ==> k in small.Keys && e in small[k];
    }
  }

  lemma FarsSnoc(es: seq<Edge>, e: Edge, dir: Direction)
    ensures Fars(es + [e], dir) == Fars(es, dir) + {Far(e, dir)}
  {
    forall y | y in Fars(es, dir) + {Far(e, dir)} ensures y in Fars(es + [e], dir) {
      if y in Fars(es, dir) {
        var f :| f in es && Far(f, dir) == y;
        assert f in es + [e];
      } else {
        assert e in es + [e];
      }
    }
  }

  ghost predicate IsTarget(m: Adjacency, t: Id) {
    exists s, k :: (s, t) in Arcs(m, k, Out)
  }

  lemma FarEndsAreHops(m: Adjacency, t: Id)
    ensures t in FarEnds(m, Out) <==> IsTarget(m, t)
  {
    if t in FarEnds(m, Out) {
      var x, e :| x in m.Keys && e in m[x] && Far(e, Out) == t;
      assert (x, t) in Arcs(m, e.kind, Out);
    }
  }

  datatype Color = Unvisited | InProgress | Done

  function IndexOf(s: seq<Id>, v: Id): (i: nat)
    requires v in s
    ensures i < |s| && s[i] == v
  {
    if s[0] == v then 0 else 1 + IndexOf(s[1..], v)
  }

  /** How many edges of the kind start at the listed nodes. */
  function EdgeCount(outs: Adjacency, kind: Kind, order: seq<Id>): nat {
    if order == [] then 0
    else EdgeCount(outs, kind, order[..|order| - 1]) + |OfKind(At(outs, order[|order| - 1]), kind)|
  }

  lemma EdgeCountSnoc(outs: Adjacency, kind: Kind, order: seq<Id>, u: Id)
    ensures EdgeCount(outs, kind, order + [u]) == EdgeCount(outs, kind, order) + |OfKind(At(outs, u), kind)|
  {
    assert (order + [u])[..|order|] == order;
  }

  /** There are at least n edges of the kind. */
  ghost predicate HasEdges(outs: Adjacency, kind: Kind, n: nat) {
    exists order :: Distinct(order) && EdgeCount(outs, kind, order) >= n
  }

  /** The hops from the last to the first node of the cycles. */
  ghost function Closing(cycles: seq<seq<Id>>): set<(Id, Id)> {
    set c | c in cycles && c != [] :: (c[|c| - 1], c[0])
  }

  lemma ClosingGrows(cycles: seq<seq<Id>>, more: seq<seq<Id>>)
    requires cycles <= more
    ensures Closing(cycles) <= Closing(more)
  {
    forall c | c in cycles ensures c in more {}
  }

  lemma ClosingOfSnoc(cycles: seq<seq<Id>>, stack: seq<Id>, i: nat)
    requires i < |stack|
    ensures (stack[|stack| - 1], stack[i]) in Closing(cycles + [stack[i..]])
  {
    assert stack[i..] in cycles + [stack[i..]];
  }

  ghost predicate SliceAt(c: seq<Id>, stack: seq<Id>, k: nat) {
    c != [] && k + |c| <= |stack| && c == stack[k..k + |c|]
  }

  ghost predicate IsSlice(c: seq<Id>, stack: seq<Id>) {
    exists k: nat :: SliceAt(c, stack, k)
  }

  ghost predicate SameEnds(c: seq<Id>, d: seq<Id>) {
    c != [] && d != [] && c[0] == d[0] && c[|c| - 1] == d[|d| - 1]
  }

  ghost predicate StartsAt(c: seq<Id>, root: Id) {
    root in c ==> c[0] == root
  }

  /** What a search that visits root before all other nodes records: cycles through root from root on, and never two
      cycles with the same first and last node. */
  ghost predicate Rooted(cycles: seq<seq<Id>>, stack: seq<Id>, finished: seq<Id>, root: Id) {
    && (forall c :: c in cycles ==> c != [] && (c[|c| - 1] in finished || IsSlice(c, stack)))
    && (forall c, d :: c in cycles && d in cycles && SameEnds(c, d) ==> c == d)
    && (forall c :: c in cycles ==> StartsAt(c, root))
    && (stack == [] || stack[0] == root || root in finished)
  }

  ghost predicate Apart(stack: seq<Id>, finished: seq<Id>) {
    Distinct(stack) && forall v :: v in stack ==> v !in finished
  }

  lemma RootedEnter(cycles: seq<seq<Id>>, stack: seq<Id>, finished: seq<Id>, root: Id, u: Id)
    requires Rooted(cycles, stack, finished, root)
    requires stack == [] ==> u == root || root in finished
    ensures Rooted(cycles, stack + [u], finished, root)
  {
    forall c | c in cycles && IsSlice(c, stack) ensures IsSlice(c, stack + [u]) {
      var k: nat :| SliceAt(c, stack, k);
      assert SliceAt(c, stack + [u], k);
    }
  }

  lemma RootedRecord(cycles: seq<seq<Id>>, stack: seq<Id>, finished: seq<Id>, root: Id, i: nat)
    requires Rooted(cycles, stack, finished, root) && Apart(stack, finished) && i < |stack|
    ensures Rooted(cycles + [stack[i..]], stack, finished, root)
  {
    var c := stack[i..];
    TailIsSlice(stack, i);
    assert StartsAt(c, root) by {
      if root in c {
        assert root in stack;
      }
    }
    hide Distinct, IsSlice, SameEnds, StartsAt;
    forall d | d in cycles && (SameEnds(c, d) || SameEnds(d, c)) ensures c == d {
      var top := c[|c| - 1];
      SameEndsMeans(c, d);
      assert top == stack[|stack| - 1] && top !in finished;
      SlicesWithSameEnds(stack, c, d);
    }
    forall a, b | a in cycles + [c] && b in cycles + [c] && SameEnds(a, b) ensures a == b {
      assert a in cycles || a == c;
      assert b in cycles || b == c;
    }
  }

  lemma TailIsSlice(stack: seq<Id>, i: nat)
    requires i < |stack|
    ensures IsSlice(stack[i..], stack)
  {
    assert SliceAt(stack[i..], stack, i);
  }

  lemma SameEndsMeans(c: seq<Id>, d: seq<Id>)
    requires SameEnds(c, d) || SameEnds(d, c)
    ensures SameEnds(c, d) && c != [] && d != [] && c[|c| - 1] == d[|d| - 1]
  {
  }

  lemma SlicesWithSameEnds(stack: seq<Id>, c: seq<Id>, d: seq<Id>)
    requires Distinct(stack) && IsSlice(c, stack) && IsSlice(d, stack) && SameEnds(c, d)
    ensures c == d
  {
    var k: nat :| SliceAt(c, stack, k);
    var i: nat :| SliceAt(d, stack, i);
    hide Distinct, IsSlice;
    SamePlace(stack, k, i);
    SamePlace(stack, k + |c| - 1, i + |d| - 1);
  }

  lemma SamePlace(stack: seq<Id>, i: nat, j: nat)
    requires Distinct(stack) && i < |stack| && j < |stack| && stack[i] == stack[j]
    ensures i == j
  {
  }

  lemma RootedLeave(cycles: seq<seq<Id>>, stack: seq<Id>, finished: seq<Id>, root: Id, u: Id)
    requires Rooted(cycles, stack + [u], finished, root)
    ensures Rooted(cycles, stack, finished + [u], root)
  {
    forall c | c in cycles && IsSlice(c, stack + [u]) ensures c[|c| - 1] == u || IsSlice(c, stack) {
      var k: nat :| SliceAt(c, stack + [u], k);
      if k + |c| <= |stack| {
        assert SliceAt(c, stack, k);
      }
    }
  }

  /** What is known of the cycles a search returns that visits the nodes in the given order. */
  ghost predicate FoundBy(r: set<(Id, Id)>, order: seq<Id>, cycles: seq<seq<Id>>) {
    && (forall c :: c in cycles ==> IsSimpleCycle(r, c))
    && !Cyclic(r - Closing(cycles))
    && (order != [] ==> forall c, d :: c in cycles && d in cycles && SameEnds(c, d) ==> c == d)
    && (order != [] ==> forall c :: c in cycles ==> StartsAt(c, order[0]))
  }

  /** Where no two simple cycles share a hop, every search lists all of them. */
  lemma UnsharedAreListed(r: set<(Id, Id)>, order: seq<Id>, cycles: seq<seq<Id>>)
    requires FoundBy(r, order, cycles) && !CyclesShareHop(r)
    ensures ListsAll(r, cycles)
  {
    forall c | IsSimpleCycle(r, c) ensures Lists(cycles, c) {
      CyclesUseHops(r, Closing(cycles), c);
      var h := HopOf(c, Closing(cycles));
      var d :| d in cycles && d != [] && h == (d[|d| - 1], d[0]);
      assert h in HopsOf(d);
      assert !Share(r, c, d, h);
    }
  }

  /** Of two simple cycles that share a hop into the node visited first, one is not listed. */
  lemma SharedAreNotListed(r: set<(Id, Id)>, order: seq<Id>, cycles: seq<seq<Id>>, c: seq<Id>, d: seq<Id>, q: Id)
    requires FoundBy(r, order, cycles) && order != [] && Share(r, c, d, (q, order[0]))
    ensures !ListsAll(r, cycles)
  {
    if ListsAll(r, cycles) {
      var i :| 0 <= i < |cycles| && HopsOf(cycles[i]) == HopsOf(c);
      var j :| 0 <= j < |cycles| && HopsOf(cycles[j]) == HopsOf(d);
      ListedFromFirst(r, order, cycles, cycles[i], q);
      ListedFromFirst(r, order, cycles, cycles[j], q);
    }
  }

  lemma ListedFromFirst(r: set<(Id, Id)>, order: seq<Id>, cycles: seq<seq<Id>>, c: seq<Id>, q: Id)
    requires FoundBy(r, order, cycles) && order != [] && c in cycles && (q, order[0]) in HopsOf(c)
    ensures c != [] && c[0] == order[0] && c[|c| - 1] == q
  {
    HopEndsOnCycle(c, q, order[0]);
    HopIntoFirst(c, q);
  }

  /** All searches list all simple cycles if and only if no two of these share a hop: then every order of visits gives
      all, and otherwise there is a node with which no order may begin. */
  lemma AllAreListedIff(m: Adjacency, kind: Kind)
    ensures var r := Arcs(m, kind, Out);
            if !CyclesShareHop(r) then forall order, cycles :: FoundBy(r, order, cycles) ==> ListsAll(r, cycles)
            else exists first ::
              && first in m.Keys
              && forall order, cycles :: order != [] && order[0] == first && FoundBy(r, order, cycles) ==> !ListsAll(r, cycles)
  {
    var r := Arcs(m, kind, Out);
    if CyclesShareHop(r) {
      var c, d, h :| Share(r, c, d, h);
      assert h.1 in m.Keys by {
        NodeOfCycle(m, kind, c, h.0, h.1);
      }
      forall order, cycles | order != [] && order[0] == h.1 && FoundBy(r, order, cycles) ensures !ListsAll(r, cycles) {
        assert h == (h.0, order[0]);
        SharedAreNotListed(r, order, cycles, c, d, h.0);
      }
    } else {
      forall order, cycles | FoundBy(r, order, cycles) ensures ListsAll(r, cycles) {
        UnsharedAreListed(r, order, cycles);
      }
    }
  }

  lemma NodeOfCycle(m: Adjacency, kind: Kind, c: seq<Id>, q: Id, y: Id)
    requires IsSimpleCycle(Arcs(m, kind, Out), c) && (q, y) in HopsOf(c)
    ensures y in m.Keys
  {
    HopEndsOnCycle(c, q, y);
    var i :| 0 <= i < |c| && c[i] == y;
    if i + 1 < |c| {
      assert (c[i], c[i + 1]) in Arcs(m, kind, Out);
    }
  }

  /** The mutable state of one cycle search: colours, the current path and the cycles found so far. */
  class CycleSearch {
    const outs: Adjacency
    const kind: Kind
    var color: map<Id, Color>
    var stack: seq<Id>
    var cycles: seq<seq<Id>>
    ghost const arcs: set<(Id, Id)>
    ghost const all: set<Id>
    ghost const root: Id  // the node visited first
    ghost var finished: seq<Id>  // the Done nodes in the order in which their visits ended

    constructor (nodes: set<Id>, outs: Adjacency, kind: Kind, ghost root: Id)
      requires outs.Keys <= nodes
      ensures Valid() && stack == [] && nodes <= color.Keys
      ensures arcs == Arcs(outs, kind, Out) && this.outs == outs && this.kind == kind && this.root == root
      ensures cycles == [] && finished == []
    {
      this.outs, this.kind := outs, kind;
      color := map n | n in nodes :: Unvisited;
      stack, cycles, finished := [], [], [];
      arcs := Arcs(outs, kind, Out);
      all := nodes + FarEnds(outs, Out);
      this.root := root;
    }

    ghost predicate Valid()
      reads this
    {
      && arcs == Arcs(outs, kind, Out)
      && FarEnds(outs, Out) <= all
      && color.Keys <= all
      && Distinct(stack)
      && (stack == [] || IsWalk(arcs, stack))
      && (forall v :: v in stack <==> v in color && color[v] == InProgress)
      && Distinct(finished)
      && (forall v :: v in finished <==> v in color && color[v] == Done)
      && (forall c :: c in cycles ==> IsSimpleCycle(arcs, c))
      && Sinking(arcs - Closing(cycles), finished)
      && Rooted(cycles, stack, finished, root)
    }

    static ghost function Unseen(all: set<Id>, stack: seq<Id>, finished: seq<Id>): set<Id> {
      set v | v in all && v !in stack && v !in finished
    }

    static lemma UnseenShrinks(all: set<Id>, stack: seq<Id>, before: seq<Id>, after: seq<Id>, u: Id)
      requires u in all && u !in stack && u !in before && before <= after
      ensures Unseen(all, stack + [u], after) < Unseen(all, stack, before)
    {
      assert u in Unseen(all, stack, before) && u !in Unseen(all, stack + [u], after);
    }

    static lemma StackTailIsCycle(arcs: set<(Id, Id)>, stack: seq<Id>, k: nat)
      requires IsWalk(arcs, stack) && Distinct(stack) && k < |stack|
      requires (stack[|stack| - 1], stack[k]) in arcs
      ensures IsSimpleCycle(arcs, stack[k..])
    {
      Slice(arcs, stack, k, |stack|);
      assert stack[k..|stack|] == stack[k..];
    }

    method Visit(u: Id)
      requires Valid() && u in color && color[u] == Unvisited
      requires if stack == [] then u == root || root in finished else (stack[|stack| - 1], u) in arcs
      modifies this
      ensures Valid() && stack == old(stack)
      ensures old(color).Keys <= color.Keys
      ensures old(finished) <= finished && u in finished
      ensures old(cycles) <= cycles
      ensures |cycles| + EdgeCount(outs, kind, old(finished)) <= |old(cycles)| + EdgeCount(outs, kind, finished)
      decreases Unseen(all, stack, finished)
    {
      hide *;
      Enter(u);
      var es := OfKind(At(outs, u), kind);
      for i := 0 to |es|
        invariant Valid() && stack == old(stack) + [u]
        invariant old(color).Keys <= color.Keys
        invariant old(finished) <= finished && old(cycles) <= cycles
        invariant |cycles| + EdgeCount(outs, kind, old(finished)) <= |old(cycles)| + EdgeCount(outs, kind, finished) + i
        invariant forall j :: 0 <= j < i ==> es[j].target in finished || (u, es[j].target) in Closing(cycles)
      {
        ghost var before := cycles;
        var v := es[i].target;
        TargetIsArc(u, es, i);
        if v !in color {
          Discover(v);
        }
        ColorsAgree(v);
        if color[v] == InProgress {
          if v in stack {
            RecordCycle(v);
          }
        } else if color[v] == Unvisited {
          UnseenShrinks(all, old(stack), old(finished), finished, u);
          Visit(v);
        }
        ClosingGrows(before, cycles);
      }
      ArcsAreTargets(u, es);
      EdgeCountSnoc(outs, kind, finished, u);
      Leave(u);
    }

    lemma ColorsAgree(v: Id)
      requires Valid() && v in color
      ensures v in all
      ensures color[v] == InProgress <==> v in stack
      ensures color[v] == Done <==> v in finished
    {
    }

    method Discover(v: Id)
      requires Valid() && v in all && v !in color
      modifies this`color
      ensures Valid() && color == old(color)[v := Unvisited]
    {
      color := color[v := Unvisited];
    }

    method Enter(u: Id)
      requires Valid() && u in color && color[u] == Unvisited
      requires if stack == [] then u == root || root in finished else (stack[|stack| - 1], u) in arcs
      modifies this`color, this`stack
      ensures Valid() && stack == old(stack) + [u] && color.Keys == old(color).Keys
      ensures u in all && u !in old(stack) && u !in finished
    {
      hide IsSimpleCycle, Sinking, Arcs, FarEnds, Closing, Rooted;
      RootedEnter(cycles, stack, finished, root, u);
      assert stack == [] || IsWalk(arcs, stack + [u]) by {
        if stack != [] {
          Snoc(arcs, stack, u);
        }
      }
      color := color[u := InProgress];
      stack := stack + [u];
    }

    method RecordCycle(v: Id)
      requires Valid() && v in stack && (stack[|stack| - 1], v) in arcs
      modifies this`cycles
      ensures Valid() && cycles == old(cycles) + [stack[IndexOf(stack, v)..]]
      ensures (stack[|stack| - 1], v) in Closing(cycles)
    {
      hide IsWalk, IsSimpleCycle, Sinking, Arcs, FarEnds, Closing, Rooted;
      var i := IndexOf(stack, v);
      RootedRecord(cycles, stack, finished, root, i);
      StackTailIsCycle(arcs, stack, i);
      ClosingOfSnoc(cycles, stack, i);
      ClosingGrows(cycles, cycles + [stack[i..]]);
      SinkingInPart(arcs - Closing(cycles), arcs - Closing(cycles + [stack[i..]]), finished);
      cycles := cycles + [stack[i..]];
    }

    method Leave(u: Id)
      requires Valid() && stack != [] && stack[|stack| - 1] == u
      requires forall b :: (u, b) in arcs ==> b in finished || (u, b) in Closing(cycles)
      modifies this`color, this`stack, this`finished
      ensures Valid() && stack == old(stack)[..|old(stack)| - 1] && color.Keys == old(color).Keys
      ensures finished == old(finished) + [u]
    {
      hide IsWalk, IsSimpleCycle, Sinking, Arcs, FarEnds, Closing, Rooted;
      ghost var top := |stack| - 1;
      assert stack == stack[..top] + [u] && u in stack;
      RootedLeave(cycles, stack[..top], finished, root, u);
      assert top == 0 || IsWalk(arcs, stack[..top]) by {
        if top > 0 {
          Slice(arcs, stack, 0, top);
        }
      }
      SinkingSnoc(arcs - Closing(cycles), finished, u);
      stack := stack[..|stack| - 1];
      color := color[u := Done];
      finished := finished + [u];
    }

    lemma TargetIsArc(u: Id, es: seq<Edge>, i: nat)
      requires Valid() && es == OfKind(At(outs, u), kind) && i < |es|
      ensures (u, es[i].target) in arcs && es[i].target in all
    {
      OfKindFilters(At(outs, u), kind);
      assert es[i] in es;
      assert Far(es[i], Out) in FarEnds(outs, Out);
    }

    lemma ArcsAreTargets(u: Id, es: seq<Edge>)
      requires Valid() && es == OfKind(At(outs, u), kind)
      ensures forall b :: (u, b) in arcs ==> exists j :: 0 <= j < |es| && es[j].target == b
    {
      OfKindFilters(At(outs, u), kind);
      forall b | (u, b) in arcs ensures exists j :: 0 <= j < |es| && es[j].target == b {
        var e :| u in outs.Keys && e in outs[u] && e.kind == kind && b == Far(e, Out);
        assert e in es;
      }
    }

    /** With every node finished, the graph has no cycle left once the closing hops of the recorded ones are taken
        away. */
    lemma Conclude(nodes: set<Id>)
      requires Valid() && outs.Keys <= nodes
      requires forall n :: n in nodes ==> n in finished
      ensures forall c :: c in cycles ==> IsSimpleCycle(arcs, c)
      ensures Distinct(finished)
      ensures !Cyclic(arcs - Closing(cycles))
      ensures cycles == [] <==> !Cyclic(arcs)
      ensures forall order :: (order != [] ==> order[0] == root) ==> FoundBy(arcs, order, cycles)
    {
      forall a, b | (a, b) in arcs ensures a in finished {
        assert a in outs.Keys;
      }
      SinkingIsAcyclic(arcs - Closing(cycles), finished);
      if cycles == [] {
        assert arcs - Closing(cycles) == arcs;
      } else {
        assert IsSimpleCycle(arcs, cycles[0]);
      }
    }
  }

  lemma EnoughEdges(outs: Adjacency, kind: Kind, order: seq<Id>, n: nat)
    requires Distinct(order) && n <= EdgeCount(outs, kind, order)
    ensures HasEdges(outs, kind, n)
  {
  }

  class ClaimGraph {
    var nodes: set<Id>
    var claims: map<Id, Claim>
    var outs: Adjacency
    var ins: Adjacency

    ghost predicate Valid()
      reads this
    {
      && NearIsKey(outs, Out)
      && NearIsKey(ins, In)
      && Mirrored(outs, ins)
      && outs.Keys <= nodes == claims.Keys
    }

    ghost function Hops(kind: Kind, dir: Direction): set<(Id, Id)>
      reads this
    {
      Arcs(if dir.Out? then outs else ins, kind, dir)
    }

    constructor ()
      ensures Valid() && nodes == {} && outs == map[] && ins == map[] && claims == map[]
    {
      nodes, claims, outs, ins := {}, map[], map[], map[];
    }

    method AddClaim(claim: Claim)
      requires Valid()
      modifies this
      ensures Valid()
      ensures nodes == old(nodes) + {claim.id}
      ensures claims == old(claims)[claim.id := claim]
      ensures outs == FileAll(old(outs), EdgesOf(claim), Out)
      ensures ins == FileAll(old(ins), EdgesOf(claim), In)
    {
      var cid := claim.id;
      nodes := nodes + {cid};
      claims := claims[cid := claim];
      AddEdges(cid, DependsOn, claim.dependsOn);
      AddEdges(cid, Supports, claim.supports);
      AddEdges(cid, Contradicts, claim.contradicts);
      AddEdges(cid, Extends, claim.extensions);
      ghost var d, s, c, x := Tagged(cid, claim.dependsOn, DependsOn), Tagged(cid, claim.supports, Supports),
        Tagged(cid, claim.contradicts, Contradicts), Tagged(cid, claim.extensions, Extends);
      forall m: Adjacency, dir
        ensures FileAll(FileAll(FileAll(FileAll(m, d, dir), s, dir), c, dir), x, dir) == FileAll(m, EdgesOf(claim), dir)
      {
        FileAllAppends(m, d, s, dir);
        FileAllAppends(m, d + s, c, dir);
        FileAllAppends(m, d + s + c, x, dir);
      }
      FileAllKeepsMirror(old(outs), old(ins), EdgesOf(claim));
    }

    method AddEdges(cid: Id, kind: Kind, targets: seq<Id>)
      modifies this`outs, this`ins
      ensures outs.Keys <= old(outs.Keys) + {cid}
      ensures outs == FileAll(old(outs), Tagged(cid, targets, kind), Out)
      ensures ins == FileAll(old(ins), Tagged(cid, targets, kind), In)
    {
      ghost var es := Tagged(cid, targets, kind);
      hide FileAll, At, File;
      FileNone(outs, Out);
      FileNone(ins, In);
      for i := 0 to |targets|
        invariant outs == FileAll(old(outs), es[..i], Out)
        invariant ins == FileAll(old(ins), es[..i], In)
        invariant outs.Keys <= old(outs.Keys) + {cid}
      {
        var e := Edge(cid, targets[i], kind);
        assert es[..i + 1] == es[..i] + [e];
        FileAllSnoc(old(outs), es[..i], e, Out);
        FileAllSnoc(old(ins), es[..i], e, In);
        KeysOfFile(outs, e);
        outs := File(outs, Edge(cid, targets[i], kind), Out);
        ins := File(ins, Edge(cid, targets[i], kind), In);
      }
      assert es[..|targets|] == es;
    }

    function Neighbours(id: Id, kind: Kind, dir: Direction): seq<Edge>
      reads this
    {
      OfKind(At(if dir.Out? then outs else ins, id), kind)
    }

    method DanglingTargets() returns (r: set<Id>)
      requires Valid()
      ensures forall t :: t in r <==> IsTarget(outs, t) && t !in nodes
    {
      r := {};
      var keys := outs.Keys;
      while keys != {}
        invariant keys <= outs.Keys
        invariant r == FarEnds(map k | k in outs.Keys - keys :: outs[k], Out)
        decreases keys
      {
        var x :| x in keys;
        FarEndsGrow(outs, outs.Keys - keys, x, Out);
        assert outs.Keys - (keys - {x}) == outs.Keys - keys + {x};
        var found := AllTargets(outs[x]);
        r := r + found;
        keys := keys - {x};
      }
      assert (map k | k in outs.Keys - keys :: outs[k]) == outs;
      forall t ensures t in r <==> IsTarget(outs, t) {
        FarEndsAreHops(outs, t);
      }
      r := r - nodes;
    }

    static method AllTargets(es: seq<Edge>) returns (r: set<Id>)
      ensures r == Fars(es, Out)
    {
      r := {};
      for i := 0 to |es|
        invariant r == Fars(es[..i], Out)
      {
        FarsSnoc(es[..i], es[i], Out);
        assert es[..i + 1] == es[..i] + [es[i]];
        r := r + {es[i].target};
      }
      assert es[..|es|] == es;
    }

    method Dependencies(id: Id, depth: Option<int>) returns (r: set<Id>)
      requires Valid()
      ensures IsReach(Hops(DependsOn, Out), id, depth, r)
    {
      r := Reach(id, DependsOn, Out, depth);
    }

    method Dependents(id: Id, depth: Option<int>) returns (r: set<Id>)
      requires Valid()
      ensures IsReach(Hops(DependsOn, In), id, depth, r)
    {
      r := Reach(id, DependsOn, In, depth);
    }

    /** Breadth-first search. The order in which a frontier is visited is left open. */
    method Reach(start: Id, kind: Kind, dir: Direction, depth: Option<int>) returns (seen: set<Id>)
      requires Valid()
      ensures IsReach(Hops(kind, dir), start, depth, seen)
    {
      hide *;
      ghost var r := Hops(kind, dir);
      ghost var all := FarEnds(if dir.Out? then outs else ins, dir);
      seen := {};
      var frontier := {start};
      var steps := 0;
      FirstRound(r, start);
      while frontier != {}
        invariant 0 <= steps && (depth.Some? ==> steps == 0 || steps <= depth.value)
        invariant seen == Ball(r, start, steps) - {start}
        invariant frontier == Shell(r, start, steps)
        invariant seen <= all
        decreases |all - seen|, |frontier|
      {
        if depth.Some? && steps >= depth.value {
          break;
        }
        seen, frontier := FollowShell(start, kind, dir, steps, seen, frontier);
        steps := steps + 1;
      }
      BallIsReach(r, start, steps, depth);
    }

    /** One round, in terms of distances from the start. */
    method FollowShell(start: Id, kind: Kind, dir: Direction, ghost k: nat, before: set<Id>, frontier: set<Id>)
      returns (seen: set<Id>, next: set<Id>)
      requires before == Ball(Hops(kind, dir), start, k) - {start} && frontier == Shell(Hops(kind, dir), start, k)
      requires before <= FarEnds(if dir.Out? then outs else ins, dir)
      ensures seen == Ball(Hops(kind, dir), start, k + 1) - {start} && next == Shell(Hops(kind, dir), start, k + 1)
      ensures var all := FarEnds(if dir.Out? then outs else ins, dir);
              seen <= all && (next == {} || |all - seen| < |all - before|) && (next == {} ==> seen == before)
    {
      hide *;
      seen, next := Round(start, kind, dir, before, frontier);
      ImageIsFarEnds(kind, dir, frontier);
      NextRound(Hops(kind, dir), start, k, before, frontier, seen, next);
      RoundShrinks(FarEnds(if dir.Out? then outs else ins, dir), before, next);
    }

    lemma ImageIsFarEnds(kind: Kind, dir: Direction, s: set<Id>)
      ensures Image(Hops(kind, dir), s) <= FarEnds(if dir.Out? then outs else ins, dir)
    {
      var m := if dir.Out? then outs else ins;
      forall y | y in Image(Hops(kind, dir), s) ensures y in FarEnds(m, dir) {
        var p :| p in Hops(kind, dir) && p.0 in s && p.1 == y;
        var x, e :| x in m.Keys && e in m[x] && e.kind == kind && p == (x, Far(e, dir));
      }
    }

    /** One round of the search: all neighbours of the frontier that are new. */
    method Round(start: Id, kind: Kind, dir: Direction, before: set<Id>, frontier: set<Id>)
      returns (seen: set<Id>, nextFrontier: set<Id>)
      ensures seen == before + nextFrontier
      ensures nextFrontier == Image(Hops(kind, dir), frontier) - before - {start}
    {
      ghost var r := Hops(kind, dir);
      seen, nextFrontier := before, {};
      var pending := frontier;
      while pending != {}
        invariant pending <= frontier
        invariant seen == before + nextFrontier
        invariant nextFrontier == Image(r, frontier - pending) - before - {start}
        decreases pending
      {
        var node :| node in pending;
        var edges := Neighbours(node, kind, dir);
        seen, nextFrontier := AddNew(edges, dir, start, before, seen, nextFrontier);
        NeighboursAreImage(node, kind, dir);
        ImageOfUnion(r, frontier - pending, {node});
        pending := pending - {node};
        assert frontier - pending == frontier - (pending + {node}) + {node};
      }
      assert frontier - pending == frontier;
    }

    static method AddNew(edges: seq<Edge>, dir: Direction, start: Id, ghost before: set<Id>, seen0: set<Id>, next0: set<Id>)
      returns (seen: set<Id>, next: set<Id>)
      requires seen0 == before + next0
      ensures seen == before + next
      ensures next == next0 + (Fars(edges, dir) - before - {start})
    {
      seen, next := seen0, next0;
      for i := 0 to |edges|
        invariant seen == before + next
        invariant next == next0 + (Fars(edges[..i], dir) - before - {start})
      {
        FarsSnoc(edges[..i], edges[i], dir);
        assert edges[..i + 1] == edges[..i] + [edges[i]];
        var neighbour := Far(edges[i], dir);
        if neighbour !in seen && neighbour != start {
          seen := seen + {neighbour};
          next := next + {neighbour};
        }
      }
      assert edges[..|edges|] == edges;
    }

    lemma NeighboursAreImage(id: Id, kind: Kind, dir: Direction)
      ensures Fars(Neighbours(id, kind, dir), dir) == Image(Hops(kind, dir), {id})
    {
      var m := if dir.Out? then outs else ins;
      OfKindFilters(At(m, id), kind);
      var es, r := Neighbours(id, kind, dir), Hops(kind, dir);
      forall y | y in Fars(es, dir) ensures y in Image(r, {id}) {
        var e :| e in es && Far(e, dir) == y;
        assert id in m.Keys && e in m[id];
        assert (id, y) in r;
      }
      forall y | y in Image(r, {id}) ensures y in Fars(es, dir) {
        var p :| p in r && p.0 in {id} && p.1 == y;
        var x, e :| x in m.Keys && e in m[x] && e.kind == kind && p == (x, Far(e, dir));
        assert e in es;
      }
    }

    /** b is among the dependencies of a exactly when a is among the dependents of b, at every depth. */
    lemma DependentsMirrorDependencies(a: Id, b: Id, depth: Option<int>)
      requires Valid()
      ensures Within(Hops(DependsOn, Out), a, b, depth) <==> Within(Hops(DependsOn, In), b, a, depth)
    {
      ArcsMirror(outs, ins, DependsOn);
      WithinConverse(Hops(DependsOn, Out), a, b, depth);
    }

    /** Depth-first search for cycles, started from the nodes in any order: that of the set of nodes is not fixed. */
    method FindCycles(kind: Kind, order: seq<Id>) returns (cycles: seq<seq<Id>>)
      requires Valid() && forall n :: n in order <==> n in nodes
      ensures forall c :: c in cycles ==> IsSimpleCycle(Hops(kind, Out), c)
      ensures cycles == [] <==> !Cyclic(Hops(kind, Out))
      ensures !Cyclic(Hops(kind, Out) - Closing(cycles))
      ensures forall c :: IsClosedWalk(Hops(kind, Out), c) ==> UsesHop(c, Closing(cycles))
      ensures HasEdges(outs, kind, |cycles|)
      ensures FoundBy(Hops(kind, Out), order, cycles)
      ensures !CyclesShareHop(Hops(kind, Out)) ==> ListsAll(Hops(kind, Out), cycles)
      ensures forall c, d, q :: order != [] && Share(Hops(kind, Out), c, d, (q, order[0])) ==> !ListsAll(Hops(kind, Out), cycles)
    {
      assert Hops(kind, Out) == Arcs(outs, kind, Out);
      assert outs.Keys <= nodes;
      hide *;
      var search := Explore(kind, order);
      cycles := search.cycles;
      search.Conclude(nodes);
      EnoughEdges(outs, kind, search.finished, |cycles|);
      forall c | IsClosedWalk(Hops(kind, Out), c) ensures UsesHop(c, Closing(cycles)) {
        CyclesUseHops(Hops(kind, Out), Closing(cycles), c);
      }
      if !CyclesShareHop(Hops(kind, Out)) {
        UnsharedAreListed(Hops(kind, Out), order, cycles);
      }
      forall c, d, q | order != [] && Share(Hops(kind, Out), c, d, (q, order[0])) ensures !ListsAll(Hops(kind, Out), cycles) {
        SharedAreNotListed(Hops(kind, Out), order, cycles, c, d, q);
      }
    }

    /** The outer loop: a search from every node not visited yet. */
    method Explore(kind: Kind, order: seq<Id>) returns (search: CycleSearch)
      requires outs.Keys <= nodes && forall n :: n in order <==> n in nodes
      ensures search.Valid() && search.outs == outs && search.arcs == Arcs(outs, kind, Out)
      ensures forall n :: n in nodes ==> n in search.finished
      ensures |search.cycles| <= EdgeCount(outs, kind, search.finished)
      ensures order != [] ==> search.root == order[0]
    {
      hide *;
      search := new CycleSearch(nodes, outs, kind, if order == [] then "" else order[0]);
      for i := 0 to |order|
        invariant search.Valid() && search.stack == [] && nodes <= search.color.Keys
        invariant |search.cycles| <= EdgeCount(outs, kind, search.finished)
        invariant forall j :: 0 <= j < i ==> order[j] in search.finished
      {
        var n := order[i];
        search.ColorsAgree(n);
        if search.color[n] == Unvisited {
          ghost var before := search.finished;
          search.Visit(n);
          assert forall x :: x in before ==> x in search.finished;
        } else {
          assert search.color[n] == Done;
        }
      }
    }

    method AssertNoCycles(kind: Kind, order: seq<Id>) returns (error: Option<CycleError>)
      requires Valid() && forall n :: n in order <==> n in nodes
      ensures error.Some? <==> Cyclic(Hops(kind, Out))
      ensures error.Some? ==> error.value.kind == kind && IsSimpleCycle(Hops(kind, Out), error.value.cycle)
    {
      var cycles := FindCycles(kind, order);
      if cycles != [] {
        error := Some(CycleError(kind, cycles[0]));
      } else {
        error := None;
      }
    }
  }

  function AllEdges(claims: seq<Claim>): seq<Edge> {
    if claims == [] then [] else AllEdges(claims[..|claims| - 1]) + EdgesOf(claims[|claims| - 1])
  }

  /** The hops of one kind that a list of claims declares. */
  ghost function ClaimArcs(claims: seq<Claim>, kind: Kind): set<(Id, Id)> {
    set c, t | c in claims && t in Targets(c, kind) :: (c.id, t)
  }

  ghost function ClaimIds(claims: seq<Claim>): set<Id> {
    set c | c in claims :: c.id
  }

  lemma {:induction false} AllEdgesAreArcs(claims: seq<Claim>, e: Edge)
    ensures e in AllEdges(claims) <==> (e.source, e.target) in ClaimArcs(claims, e.kind)
  {
    if claims != [] {
      var front, last := claims[..|claims| - 1], claims[|claims| - 1];
      AllEdgesAreArcs(front, e);
      assert claims == front + [last];
      EdgesOfAreTargets(last, e);
      if (e.source, e.target) in ClaimArcs(claims, e.kind) {
        var c, t :| c in claims && t in Targets(c, e.kind) && (e.source, e.target) == (c.id, t);
        assert c != last ==> c in front;
      }
      if (e.source, e.target) in ClaimArcs(front, e.kind) {
        var c, t :| c in front && t in Targets(c, e.kind) && (e.source, e.target) == (c.id, t);
        assert c in claims;
      }
      assert last in claims;
    }
  }

  lemma EdgesOfAreTargets(c: Claim, e: Edge)
    ensures e in EdgesOf(c) <==> e.source == c.id && e.target in Targets(c, e.kind)
  {
    if e.source == c.id && e.target in Targets(c, e.kind) {
      var ts := Targets(c, e.kind);
      var i :| 0 <= i < |ts| && ts[i] == e.target;
      assert Tagged(c.id, ts, e.kind)[i] == e;
      assert e in Tagged(c.id, ts, e.kind);
    }
  }

  lemma FiledEdgesAreArcs(claims: seq<Claim>, kind: Kind)
    ensures Arcs(FileAll(map[], AllEdges(claims), Out), kind, Out) == ClaimArcs(claims, kind)
  {
    var es := AllEdges(claims);
    var m := FileAll(map[], es, Out);
    FileAllKeys(map[], es, Out);
    forall x, y ensures (x, y) in Arcs(m, kind, Out) <==> (x, y) in ClaimArcs(claims, kind) {
      var e := Edge(x, y, kind);
      InArcs(m, kind, Out, x, y);
      AllEdgesAreArcs(claims, e);
      FileAllCounts(map[], es, Out, e);
      assert multiset(At(m, Near(e, Out)))[e] == multiset(es)[e];
      assert e in At(m, x) <==> e in multiset(At(m, x));
    }
    forall p | p in Arcs(m, kind, Out) ensures p in ClaimArcs(claims, kind) {
      assert p == (p.0, p.1);
    }
    forall p | p in ClaimArcs(claims, kind) ensures p in Arcs(m, kind, Out) {
      assert p == (p.0, p.1);
    }
  }

  method FromClaims(claims: seq<Claim>) returns (g: ClaimGraph)
    ensures fresh(g) && g.Valid()
    ensures g.nodes == ClaimIds(claims) && g.outs == FileAll(map[], AllEdges(claims), Out)
    ensures forall kind :: g.Hops(kind, Out) == ClaimArcs(claims, kind)
  {
    hide *;
    g := new ClaimGraph();
    NothingFiled();
    for i := 0 to |claims|
      invariant fresh(g) && g.Valid()
      invariant g.nodes == ClaimIds(claims[..i])
      invariant g.outs == FileAll(map[], AllEdges(claims[..i]), Out)
    {
      FileOneMore(claims[..i], claims[i]);
      assert claims[..i + 1] == claims[..i] + [claims[i]];
      g.AddClaim(claims[i]);
    }
    assert claims[..|claims|] == claims;
    FiledGraph(g, claims);
  }

  lemma NothingFiled()
    ensures ClaimIds([]) == {} && FileAll(map[], AllEdges([]), Out) == map[]
  {
  }

  lemma FileOneMore(claims: seq<Claim>, c: Claim)
    ensures ClaimIds(claims + [c]) == ClaimIds(claims) + {c.id}
    ensures FileAll(map[], AllEdges(claims + [c]), Out) == FileAll(FileAll(map[], AllEdges(claims), Out), EdgesOf(c), Out)
  {
    FileAllAppends(map[], AllEdges(claims), EdgesOf(c), Out);
    assert c in claims + [c];
    forall x | x in ClaimIds(claims) ensures x in ClaimIds(claims + [c]) {
      var d :| d in claims && d.id == x;
      assert d in claims + [c];
    }
  }

  lemma FiledGraph(g: ClaimGraph, claims: seq<Claim>)
    requires g.outs == FileAll(map[], AllEdges(claims), Out)
    ensures forall kind :: g.Hops(kind, Out) == ClaimArcs(claims, kind)
  {
    forall kind ensures g.Hops(kind, Out) == ClaimArcs(claims, kind) {
      FiledEdgesAreArcs(claims, kind);
    }
  }

  lemma RoundShrinks<T>(all: set<T>, before: set<T>, next: set<T>)
    requires next <= all && next !! before
    ensures next == {} || |all - (before + next)| < |all - before|
    ensures next == {} ==> before + next == before
  {
    if x :| x in next {
      assert x in all - before && x !in all - (before + next);
    }
    Shrinks(all - (before + next), all - before);
  }

  lemma Shrinks<T>(a: set<T>, b: set<T>)
    ensures a <= b ==> |a| <= |b|
    ensures a < b ==> |a| < |b|
  {
    if a <= b {
      assert b == a + (b - a);
    }
  }
}

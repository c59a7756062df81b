/** A graph with more simple cycles than edges, so that no search that lists one cycle per edge can list them all. */
module ManyCycles {
  import opened Walks
  import opened ClaimGraphs

  const A := "a"
  const B := "b"
  const C := "c"
  const D := "d"

  function From(x: Id, ys: seq<Id>): seq<Edge> {
    seq(|ys|, i requires 0 <= i < |ys| => Edge(x, ys[i], DependsOn))
  }

  /** Four claims each of which depends on the three others. */
  function Tangle(): Adjacency {
    map[A := From(A, [B, C, D]), B := From(B, [A, C, D]), C := From(C, [A, B, D]), D := From(D, [A, B, C])]
  }

  function Leaning(x: Id, ys: seq<Id>): Claim {
    Claim(x, ys, [], [], [])
  }

  function TangledClaims(): seq<Claim> {
    [Leaning(A, [B, C, D]), Leaning(B, [A, C, D]), Leaning(C, [A, B, D]), Leaning(D, [A, B, C])]
  }

  lemma FileThree(m: Adjacency, x: Id, ys: seq<Id>)
    requires x !in m && |ys| == 3
    ensures FileAll(m, EdgesOf(Leaning(x, ys)), Out) == m[x := From(x, ys)]
  {
    var e, f, g := Edge(x, ys[0], DependsOn), Edge(x, ys[1], DependsOn), Edge(x, ys[2], DependsOn);
    assert EdgesOf(Leaning(x, ys)) == [] + [e] + [f] + [g];
    FileNone(m, Out);
    FileAllSnoc(m, [], e, Out);
    FileAllSnoc(m, [] + [e], f, Out);
    FileAllSnoc(m, [] + [e] + [f], g, Out);
    assert From(x, ys) == [] + [e] + [f] + [g];
  }

  lemma FileLeaning(claims: seq<Claim>, x: Id, ys: seq<Id>)
    requires |ys| == 3 && x !in FileAll(map[], AllEdges(claims), Out)
    ensures FileAll(map[], AllEdges(claims + [Leaning(x, ys)]), Out)
         == FileAll(map[], AllEdges(claims), Out)[x := From(x, ys)]
  {
    hide *;
    FileOneMore(claims, Leaning(x, ys));
    LeaningId(x, ys);
    FileThree(FileAll(map[], AllEdges(claims), Out), x, ys);
  }

  lemma LeaningId(x: Id, ys: seq<Id>)
    ensures Leaning(x, ys).id == x
  {
  }

  /** The graph built from the four claims. */
  lemma TangleIsBuilt()
    ensures FileAll(map[], AllEdges(TangledClaims()), Out) == Tangle()
  {
    NothingFiled();
    hide FileAll, AllEdges, Leaning, From;
    FileLeaning([], A, [B, C, D]);
    FileLeaning([] + [Leaning(A, [B, C, D])], B, [A, C, D]);
    FileLeaning([] + [Leaning(A, [B, C, D])] + [Leaning(B, [A, C, D])], C, [A, B, D]);
    FileLeaning([] + [Leaning(A, [B, C, D])] + [Leaning(B, [A, C, D])] + [Leaning(C, [A, B, D])], D, [A, B, C]);
    assert TangledClaims() == [] + [Leaning(A, [B, C, D])] + [Leaning(B, [A, C, D])] + [Leaning(C, [A, B, D])]
      + [Leaning(D, [A, B, C])];
  }

  function Members(order: seq<Id>): set<Id> {
    set x | x in order && x in {A, B, C, D}
  }

  lemma {:induction false} EdgesOfTangle(order: seq<Id>)
    requires Distinct(order)
    ensures EdgeCount(Tangle(), DependsOn, order) <= 3 * |Members(order)|
  {
    if order != [] {
      var front, last := order[..|order| - 1], order[|order| - 1];
      assert order == front + [last];
      EdgesOfTangle(front);
      ThreeEach(last);
      hide Tangle;
      if last in {A, B, C, D} {
        assert Members(order) == Members(front) + {last};
        assert last !in Members(front);
      } else {
        assert Members(order) == Members(front);
      }
    }
  }

  lemma ThreeEach(x: Id)
    ensures |OfKind(At(Tangle(), x), DependsOn)| <= if x in {A, B, C, D} then 3 else 0
  {
    AllOfKind(At(Tangle(), x));
  }

  lemma {:induction false} AllOfKind(es: seq<Edge>)
    ensures |OfKind(es, DependsOn)| <= |es|
  {
    if es != [] {
      AllOfKind(es[1..]);
    }
  }

  lemma TwelveEdges(n: nat)
    requires HasEdges(Tangle(), DependsOn, n)
    ensures n <= 12
  {
    var order :| Distinct(order) && EdgeCount(Tangle(), DependsOn, order) >= n;
    EdgesOfTangle(order);
    hide Tangle;
    assert Members(order) <= {A, B, C, D};
    Shrinks(Members(order), {A, B, C, D});
  }

  /** A list holds at least as many cycles as it holds different ones. */
  lemma {:induction false} DifferentCyclesCount(cycles: seq<seq<Id>>, samples: seq<seq<Id>>)
    requires forall i, j :: 0 <= i < j < |samples| ==> HopsOf(samples[i]) != HopsOf(samples[j])
    requires forall i :: 0 <= i < |samples| ==> Lists(cycles, samples[i])
    ensures |samples| <= |cycles|
    decreases |samples|
  {
    hide HopsOf;
    if samples != [] {
      var front, last := samples[..|samples| - 1], samples[|samples| - 1];
      assert Lists(cycles, last);
      var k :| 0 <= k < |cycles| && HopsOf(cycles[k]) == HopsOf(last);
      var rest := cycles[..k] + cycles[k + 1..];
      forall i | 0 <= i < |front| ensures Lists(rest, front[i]) {
        assert Lists(cycles, samples[i]);
        var m :| 0 <= m < |cycles| && HopsOf(cycles[m]) == HopsOf(samples[i]);
        assert m != k;
        assert rest[if m < k then m else m - 1] == cycles[m];
      }
      DifferentCyclesCount(rest, front);
    }
  }

  /** Thirteen of the twenty simple cycles: every pair, and both ways around the triples but one. */
  function Samples(a: Id, b: Id, c: Id, d: Id): seq<seq<Id>> {
    [[a, b], [a, c], [a, d], [b, c], [b, d], [c, d],
     [a, b, c], [a, c, b], [a, b, d], [a, d, b], [a, c, d], [a, d, c], [b, c, d]]
  }

  lemma PairHops(x: Id, y: Id)
    ensures HopsOf([x, y]) == {(x, y), (y, x)}
  {
    var c := [x, y];
    assert c[0] == x && c[1] == y;
    forall h | h in {(x, y), (y, x)} ensures h in HopsOf(c) {
      assert h == (c[0], c[1]) || h == (c[1], c[0]);
    }
  }

  lemma TripleHops(x: Id, y: Id, z: Id)
    ensures HopsOf([x, y, z]) == {(x, y), (y, z), (z, x)}
  {
    var c := [x, y, z];
    assert c[0] == x && c[1] == y && c[2] == z;
    forall h | h in {(x, y), (y, z), (z, x)} ensures h in HopsOf(c) {
      assert h == (c[0], c[1]) || h == (c[1], c[2]) || h == (c[2], c[0]);
    }
  }

  lemma SamplesDiffer(a: Id, b: Id, c: Id, d: Id)
    requires a != b && a != c && a != d && b != c && b != d && c != d
    ensures forall i, j :: 0 <= i < j < 13 ==> HopsOf(Samples(a, b, c, d)[i]) != HopsOf(Samples(a, b, c, d)[j])
  {
    PairHops(a, b);
    PairHops(a, c);
    PairHops(a, d);
    PairHops(b, c);
    PairHops(b, d);
    PairHops(c, d);
    TripleHops(a, b, c);
    TripleHops(a, c, b);
    TripleHops(a, b, d);
    TripleHops(a, d, b);
    TripleHops(a, c, d);
    TripleHops(a, d, c);
    TripleHops(b, c, d);
    hide HopsOf;
  }

  predicate IsNode(x: Id) {
    x == A || x == B || x == C || x == D
  }

  lemma TangleArcs(x: Id, y: Id)
    requires IsNode(x) && IsNode(y) && x != y
    ensures (x, y) in Arcs(Tangle(), DependsOn, Out)
  {
    var es := Tangle()[x];
    assert |es| == 3 && es[0].source == es[1].source == es[2].source == x;
    assert y == es[0].target || y == es[1].target || y == es[2].target;
    var i := if y == es[0].target then 0 else if y == es[1].target then 1 else 2;
    assert es[i] == Edge(x, y, DependsOn) && es[i] in es;
  }

  lemma PairIsCycle(x: Id, y: Id)
    requires IsNode(x) && IsNode(y) && x != y
    ensures IsSimpleCycle(Arcs(Tangle(), DependsOn, Out), [x, y])
  {
    TangleArcs(x, y);
    TangleArcs(y, x);
    hide Tangle, Arcs;
  }

  lemma TripleIsCycle(x: Id, y: Id, z: Id)
    requires IsNode(x) && IsNode(y) && IsNode(z) && x != y && x != z && y != z
    ensures IsSimpleCycle(Arcs(Tangle(), DependsOn, Out), [x, y, z])
  {
    TangleArcs(x, y);
    TangleArcs(y, z);
    TangleArcs(z, x);
    hide Tangle, Arcs;
  }

  lemma SamplesAreCycles(i: nat)
    requires i < 13
    ensures IsSimpleCycle(Arcs(Tangle(), DependsOn, Out), Samples(A, B, C, D)[i])
  {
    hide Tangle, Arcs, IsSimpleCycle;
    var s := Samples(A, B, C, D)[i];
    if i < 6 {
      PairIsCycle(s[0], s[1]);
      assert s == [s[0], s[1]];
    } else {
      TripleIsCycle(s[0], s[1], s[2]);
      assert s == [s[0], s[1], s[2]];
    }
  }

  /** In the graph of these claims every result a search may return leaves out some simple cycle, whatever the order
      of its nodes. */
  lemma SomeCycleIsNotListed(outs: Adjacency, cycles: seq<seq<Id>>)
    requires outs == FileAll(map[], AllEdges(TangledClaims()), Out) && HasEdges(outs, DependsOn, |cycles|)
    ensures exists c :: IsSimpleCycle(Arcs(outs, DependsOn, Out), c) && !Lists(cycles, c)
  {
    assert outs == Tangle() by {
      TangleIsBuilt();
    }
    hide TangledClaims, FileAll, AllEdges;
    TwelveEdges(|cycles|);
    SamplesDiffer(A, B, C, D);
    hide Tangle, Arcs, IsSimpleCycle, HopsOf, Lists;
    var samples := Samples(A, B, C, D);
    if forall i :: 0 <= i < 13 ==> Lists(cycles, samples[i]) {
      DifferentCyclesCount(cycles, samples);
    }
    var i :| 0 <= i < 13 && !Lists(cycles, samples[i]);
    SamplesAreCycles(i);
  }
}

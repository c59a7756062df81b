/** Deciding whether two papers belong to one revision lineage by walking their version chains. */
module Lineage {
  import opened Wrappers

  /** The stored papers, each with the id of its previous version if it has one. */
  type Papers = map<string, Option<string>>

  const MAX_DEPTH: nat := 64

  /** The paper n revisions before id, where the chain is that long and every paper on it is stored. */
  function Ancestor(papers: Papers, id: string, n: nat): Option<string>
    decreases n
  {
    if id !in papers then None
    else if n == 0 then Some(id)
    else match papers[id]
      case None => None
      case Some(prev) => Ancestor(papers, prev, n - 1)
  }

  /** The papers met in the first `depth` steps of the walk. */
  ghost function Chain(papers: Papers, id: string, depth: nat): set<string> {
    set n | 0 <= n < depth && Ancestor(papers, id, n).Some? :: Ancestor(papers, id, n).value
  }

  method WalkChain(papers: Papers, start: string, depth: nat) returns (out: set<string>)
    ensures out == Chain(papers, start, depth)
  {
    hide Chain;
    out := {};
    var cur := start;
    for i := 0 to depth
      invariant Chain(papers, start, depth) == out + Chain(papers, cur, depth - i)
    {
      ChainUnfolds(papers, cur, depth - i);
      if cur !in papers {
        return;
      }
      out := out + {cur};
      if papers[cur].None? {
        return;
      }
      cur := papers[cur].value;
    }
    ChainUnfolds(papers, cur, 0);
  }

  lemma ChainUnfolds(papers: Papers, id: string, depth: nat)
    ensures Chain(papers, id, depth)
         == if depth == 0 || id !in papers then {}
            else {id} + if papers[id].None? then {} else Chain(papers, papers[id].value, depth - 1)
  {
    if depth > 0 && id in papers {
      assert Ancestor(papers, id, 0) == Some(id);
      if papers[id].Some? {
        var prev := papers[id].value;
        forall x | x in Chain(papers, prev, depth - 1) ensures x in Chain(papers, id, depth) {
          var n :| 0 <= n < depth - 1 && Ancestor(papers, prev, n) == Some(x);
          assert Ancestor(papers, id, n + 1) == Some(x);
        }
        forall x | x in Chain(papers, id, depth) && x != id ensures x in Chain(papers, prev, depth - 1) {
          var n :| 0 <= n < depth && Ancestor(papers, id, n) == Some(x);
          assert Ancestor(papers, prev, n - 1) == Some(x);
        }
      }
    }
  }

  /** The answer the bounded walk gives. */
  ghost predicate CountsAsLineage(papers: Papers, a: string, b: string) {
    a == b || Chain(papers, a, 64) * Chain(papers, b, 64) != {}
  }

  method InSameLineage(papers: Papers, a: string, b: string) returns (r: bool)
    ensures r <==> CountsAsLineage(papers, a, b)
  {
    if a == b {
      return true;
    }
    var chainA := WalkChain(papers, a, MAX_DEPTH);
    var chainB := WalkChain(papers, b, MAX_DEPTH);
    StartIsInOwnChain(papers, a, chainB);
    StartIsInOwnChain(papers, b, chainA);
    r := a in chainB || b in chainA || chainA * chainB != {};
    if a in chainB {
      assert a in chainA * chainB;
    }
    if b in chainA {
      assert b in chainA * chainB;
    }
  }

  lemma StartIsInOwnChain(papers: Papers, a: string, other: set<string>)
    requires exists b :: other == Chain(papers, b, MAX_DEPTH)
    ensures a in other ==> a in Chain(papers, a, MAX_DEPTH)
  {
    if a in other {
      var b :| other == Chain(papers, b, MAX_DEPTH);
      var n :| 0 <= n < MAX_DEPTH && Ancestor(papers, b, n) == Some(a);
      AncestorIsStored(papers, b, n);
      assert Ancestor(papers, a, 0) == Some(a);
    }
  }

  lemma {:induction false} AncestorIsStored(papers: Papers, id: string, n: nat)
    requires Ancestor(papers, id, n).Some?
    ensures Ancestor(papers, id, n).value in papers
    decreases n
  {
    if n > 0 {
      AncestorIsStored(papers, papers[id].value, n - 1);
    }
  }

  /** Two papers with the same previous version, which is stored. */
  ghost predicate IsFork(papers: Papers, a: string, b: string) {
    a != b && a in papers && b in papers && papers[a].Some? && papers[a] == papers[b] && papers[a].value in papers
  }

  ghost predicate NoForks(papers: Papers) {
    forall a, b :: !IsFork(papers, a, b)
  }

  ghost predicate Acyclic(papers: Papers) {
    forall a, n: nat :: n > 0 ==> Ancestor(papers, a, n) != Some(a)
  }

  /** One paper is reached from the other in fewer than 64 steps. */
  ghost predicate IsAncestry(papers: Papers, a: string, b: string) {
    a == b || exists n :: 0 <= n < 64 && (Ancestor(papers, b, n) == Some(a) || Ancestor(papers, a, n) == Some(b))
  }

  lemma {:induction false} AncestorAdds(papers: Papers, id: string, j: nat, k: nat)
    requires Ancestor(papers, id, j).Some?
    ensures Ancestor(papers, id, j + k) == Ancestor(papers, Ancestor(papers, id, j).value, k)
    decreases j
  {
    if j > 0 {
      AncestorAdds(papers, papers[id].value, j - 1, k);
    }
  }

  lemma {:induction false} AncestorSnoc(papers: Papers, id: string, n: nat)
    requires Ancestor(papers, id, n + 1).Some?
    ensures Ancestor(papers, id, n).Some?
    ensures var x := Ancestor(papers, id, n).value;
            x in papers && papers[x].Some? && papers[x].value == Ancestor(papers, id, n + 1).value
    decreases n
  {
    if n > 0 {
      AncestorSnoc(papers, papers[id].value, n - 1);
    } else {
      assert Ancestor(papers, papers[id].value, 0).Some?;
      assert Ancestor(papers, id, 0) == Some(id);
    }
  }

  /** Without forks, two chains that meet run into each other's start. */
  lemma {:induction false} ChainsMeetAtStart(papers: Papers, a: string, i: nat, b: string, j: nat)
    requires NoForks(papers) && i <= j
    requires Ancestor(papers, a, i).Some? && Ancestor(papers, a, i) == Ancestor(papers, b, j)
    ensures Ancestor(papers, b, j - i) == Some(a)
    decreases i
  {
    if i > 0 {
      AncestorSnoc(papers, a, i - 1);
      AncestorSnoc(papers, b, j - 1);
      AncestorIsStored(papers, a, i);
      assert !IsFork(papers, Ancestor(papers, a, i - 1).value, Ancestor(papers, b, j - 1).value);
      assert Ancestor(papers, a, i - 1) == Ancestor(papers, b, j - 1);
      ChainsMeetAtStart(papers, a, i - 1, b, j - 1);
    }
  }

  lemma LineageMeansAncestry(papers: Papers, a: string, b: string)
    requires NoForks(papers)
    ensures CountsAsLineage(papers, a, b) <==> IsAncestry(papers, a, b)
  {
    hide NoForks;
    if x :| x in Chain(papers, a, MAX_DEPTH) * Chain(papers, b, MAX_DEPTH) {
      var i :| 0 <= i < MAX_DEPTH && Ancestor(papers, a, i) == Some(x);
      var j :| 0 <= j < MAX_DEPTH && Ancestor(papers, b, j) == Some(x);
      if i <= j {
        ChainsMeetAtStart(papers, a, i, b, j);
      } else {
        ChainsMeetAtStart(papers, b, j, a, i);
      }
    }
    if n :| 0 <= n < MAX_DEPTH && (Ancestor(papers, b, n) == Some(a) || Ancestor(papers, a, n) == Some(b)) {
      var x := if Ancestor(papers, b, n) == Some(a) then a else b;
      AncestorIsStored(papers, if x == a && Ancestor(papers, b, n) == Some(a) then b else a, n);
      assert Ancestor(papers, x, 0) == Some(x);
      assert x in Chain(papers, a, MAX_DEPTH) * Chain(papers, b, MAX_DEPTH);
    }
  }

  /** Two revisions of one stored paper: in an acyclic store neither is an ancestor of the other, however far one
      looks, and the walk still says yes. */
  lemma SiblingsCountAsLineage(papers: Papers, a: string, b: string)
    requires Acyclic(papers) && IsFork(papers, a, b)
    ensures CountsAsLineage(papers, a, b) && !IsAncestry(papers, a, b)
    ensures forall n: nat :: Ancestor(papers, b, n) != Some(a) && Ancestor(papers, a, n) != Some(b)
  {
    var root := papers[a].value;
    assert Ancestor(papers, root, 0) == Some(root);
    assert Ancestor(papers, a, 1) == Some(root) && Ancestor(papers, b, 1) == Some(root);
    assert root in Chain(papers, a, MAX_DEPTH) * Chain(papers, b, MAX_DEPTH);
    forall n: nat ensures Ancestor(papers, b, n) != Some(a) && Ancestor(papers, a, n) != Some(b) {
      NotBelowSibling(papers, a, b, n);
      NotBelowSibling(papers, b, a, n);
    }
  }

  lemma NotBelowSibling(papers: Papers, a: string, b: string, n: nat)
    requires Acyclic(papers) && IsFork(papers, a, b)
    ensures Ancestor(papers, b, n) != Some(a)
  {
    if Ancestor(papers, b, n) == Some(a) {
      var root := papers[a].value;
      assert Ancestor(papers, b, 0) == Some(b);
      assert Ancestor(papers, root, 0) == Some(root);
      assert n > 0 && Ancestor(papers, root, n - 1) == Some(a) && Ancestor(papers, a, 1) == Some(root);
      AncestorAdds(papers, root, n - 1, 1);
    }
  }

  /** In an acyclic store the walk answers for ancestry, for all pairs of papers, exactly when nothing forks. */
  lemma LineageIsAncestryIff(papers: Papers)
    requires Acyclic(papers)
    ensures (forall a, b :: CountsAsLineage(papers, a, b) <==> IsAncestry(papers, a, b)) <==> NoForks(papers)
  {
    hide CountsAsLineage, IsAncestry, Acyclic, IsFork;
    if NoForks(papers) {
      forall a, b ensures CountsAsLineage(papers, a, b) <==> IsAncestry(papers, a, b) {
        LineageMeansAncestry(papers, a, b);
      }
    } else {
      var a, b :| IsFork(papers, a, b);
      SiblingsCountAsLineage(papers, a, b);
    }
  }
}

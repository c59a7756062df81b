/** The semantic diff between two versions of a paper: claim matching and its conservation law. */
module RevisionDiff {
  import opened Wrappers
  import opened KeyOrder
  import opened Text

  /** A figure of a proof; an absent caption is None. */
  datatype Figure = Figure(path: string, caption: Option<string>)

  /** A claim record; types and source location take part only through equality. */
  datatype Claim = Claim(
    id: string, statement: string, proof: Option<string>, claimType: string, evidenceType: string,
    figures: Option<seq<Figure>>,    dependsOn: Option<seq<string>>, supports: Option<seq<string>>, contradicts: Option<seq<string>>,
    extensions: Option<seq<string>>, sourceLocation: string)

  /** What follows the first colon of a claim id. */
  function LocalId(id: string): Option<string> {
    match Find(id, ':')
    case None => None
    case Some(i) => Some(id[i + 1..])
  }

  /** The claims with local id l, in order. */
  function Bucket(claims: seq<Claim>, l: string): seq<Claim> {
    if claims == [] then []
    else
      var front, last := Bucket(claims[..|claims| - 1], l), claims[|claims| - 1];
      if LocalId(last.id) == Some(l) then front + [last] else front
  }

  /** The local ids in the order in which they first occur. */
  function Locals(claims: seq<Claim>): seq<string> {
    if claims == [] then []
    else
      var front, last := Locals(claims[..|claims| - 1]), LocalId(claims[|claims| - 1].id);
      if last.Some? && last.value !in front then front + [last.value] else front
  }

  type Pair = (Claim, Claim)

  /** Pass 1: the partners of every local id that is unique on both sides. */
  function ByLocal(locals: seq<string>, prev: seq<Claim>, curr: seq<Claim>): seq<Pair> {
    if locals == [] then []
    else
      var front, l := ByLocal(locals[..|locals| - 1], prev, curr), locals[|locals| - 1];
      if |Bucket(prev, l)| == 1 && |Bucket(curr, l)| == 1 then front + [(Bucket(prev, l)[0], Bucket(curr, l)[0])]
      else front
  }

  function PrevIds(pairs: seq<Pair>): set<string> {
    set p | p in pairs :: p.0.id
  }

  function CurrIds(pairs: seq<Pair>): set<string> {
    set p | p in pairs :: p.1.id
  }

  function Without(claims: seq<Claim>, ids: set<string>): seq<Claim> {
    if claims == [] then []
    else
      var front, last := Without(claims[..|claims| - 1], ids), claims[|claims| - 1];
      if last.id in ids then front else front + [last]
  }

  function ByStatement(claims: seq<Claim>): map<string, seq<Claim>> {
    if claims == [] then map[]
    else
      var m, last := ByStatement(claims[..|claims| - 1]), claims[|claims| - 1];
      m[last.statement := (if last.statement in m then m[last.statement] else []) + [last]]
  }

  /** Pass 2: a current claim takes the only previous claim left with its statement. */
  function ByStatementPairs(buckets: map<string, seq<Claim>>, curr: seq<Claim>): seq<Pair> {
    if curr == [] then []
    else
      var s := curr[0].statement;
      if s in buckets && |buckets[s]| == 1 then
        [(buckets[s][0], curr[0])] + ByStatementPairs(buckets[s := []], curr[1..])
      else ByStatementPairs(buckets, curr[1..])
  }

  function FirstPass(prev: seq<Claim>, curr: seq<Claim>): seq<Pair> {
    ByLocal(Locals(prev), prev, curr)
  }

  function SecondPass(prev: seq<Claim>, curr: seq<Claim>): seq<Pair> {
    var first := FirstPass(prev, curr);
    ByStatementPairs(ByStatement(Without(prev, PrevIds(first))), Without(curr, CurrIds(first)))
  }

  function Matching(prev: seq<Claim>, curr: seq<Claim>): seq<Pair> {
    FirstPass(prev, curr) + SecondPass(prev, curr)
  }

  /** An insertion-ordered dictionary of buckets. */
  method IndexByLocal(claims: seq<Claim>) returns (keys: seq<string>, buckets: map<string, seq<Claim>>)
    ensures keys == Locals(claims)
    ensures forall l :: Bucket(claims, l) == if l in buckets then buckets[l] else []
    ensures forall l :: l in keys <==> l in buckets
  {
    keys, buckets := [], map[];
    for i := 0 to |claims|
      invariant keys == Locals(claims[..i])
      invariant forall l :: Bucket(claims[..i], l) == if l in buckets then buckets[l] else []
      invariant forall l :: l in keys <==> l in buckets
    {
      assert claims[..i + 1][..i] == claims[..i];
      var local := LocalId(claims[i].id);
      if local.Some? {
        var l := local.value;
        if l !in buckets {
          keys := keys + [l];
        }
        buckets := buckets[l := (if l in buckets then buckets[l] else []) + [claims[i]]];
      }
    }
    assert claims[..|claims|] == claims;
  }

  method MatchClaims(prev: seq<Claim>, curr: seq<Claim>)
    returns (matched: seq<Pair>, unmatchedPrev: seq<Claim>, unmatchedCurr: seq<Claim>)
    ensures matched == Matching(prev, curr)
    ensures unmatchedPrev == Without(prev, PrevIds(matched))
    ensures unmatchedCurr == Without(curr, CurrIds(matched))
  {
    hide Matching, PrevIds, CurrIds, Without, ByLocal;
    var prevIds, currIds;
    matched, prevIds, currIds := MatchByLocal(prev, curr);
    var left := Without(prev, prevIds);
    var currLeft := Without(curr, currIds);
    var byStatement := GroupByStatement(left);
    ghost var first := matched;
    matched, prevIds, currIds := MatchByStatement(byStatement, currLeft, matched, prevIds, currIds);
    MatchingIs(prev, curr, first, matched);
    unmatchedPrev := Without(prev, prevIds);
    unmatchedCurr := Without(curr, currIds);
  }

  lemma MatchingIs(prev: seq<Claim>, curr: seq<Claim>, first: seq<Pair>, matched: seq<Pair>)
    requires first == FirstPass(prev, curr)
    requires matched == first + ByStatementPairs(ByStatement(Without(prev, PrevIds(first))), Without(curr, CurrIds(first)))
    ensures matched == Matching(prev, curr)
  {
  }

  method MatchByLocal(prev: seq<Claim>, curr: seq<Claim>)
    returns (matched: seq<Pair>, prevIds: set<string>, currIds: set<string>)
    ensures matched == FirstPass(prev, curr) && prevIds == PrevIds(matched) && currIds == CurrIds(matched)
  {
    hide Bucket, Locals, PrevIds, CurrIds;
    var prevKeys, prevByLocal := IndexByLocal(prev);
    var currKeys, currByLocal := IndexByLocal(curr);
    matched, prevIds, currIds := [], {}, {};
    NoIds();
    for k := 0 to |prevKeys|
      invariant matched == ByLocal(prevKeys[..k], prev, curr)
      invariant prevIds == PrevIds(matched) && currIds == CurrIds(matched)
    {
      assert prevKeys[..k + 1][..k] == prevKeys[..k];
      assert prevKeys[k] in prevKeys;
      var prevBucket := prevByLocal[prevKeys[k]];
      var currBucket := if prevKeys[k] in currByLocal then currByLocal[prevKeys[k]] else [];
      if |prevBucket| == 1 && |currBucket| == 1 {
        IdsOfSnoc(matched, prevBucket[0], currBucket[0]);
        matched := matched + [(prevBucket[0], currBucket[0])];
        prevIds := prevIds + {prevBucket[0].id};
        currIds := currIds + {currBucket[0].id};
      }
    }
    assert prevKeys[..|prevKeys|] == prevKeys;
  }

  method MatchByStatement(buckets: map<string, seq<Claim>>, currLeft: seq<Claim>, matched0: seq<Pair>,
                          prevIds0: set<string>, currIds0: set<string>)
    returns (matched: seq<Pair>, prevIds: set<string>, currIds: set<string>)
    requires prevIds0 == PrevIds(matched0) && currIds0 == CurrIds(matched0)
    ensures matched == matched0 + ByStatementPairs(buckets, currLeft)
    ensures prevIds == PrevIds(matched) && currIds == CurrIds(matched)
  {
    hide PrevIds, CurrIds;
    var byStatement := buckets;
    matched, prevIds, currIds := matched0, prevIds0, currIds0;
    assert currLeft[0..] == currLeft;
    for i := 0 to |currLeft|
      invariant matched0 + ByStatementPairs(buckets, currLeft) == matched + ByStatementPairs(byStatement, currLeft[i..])
      invariant prevIds == PrevIds(matched) && currIds == CurrIds(matched)
    {
      assert currLeft[i..][1..] == currLeft[i + 1..];
      var cur := currLeft[i];
      var bucket := if cur.statement in byStatement then byStatement[cur.statement] else [];
      if |bucket| == 1 {
        IdsOfSnoc(matched, bucket[0], cur);
        byStatement := byStatement[cur.statement := []];
        ghost var later := ByStatementPairs(byStatement, currLeft[i + 1..]);
        assert matched + ([(bucket[0], cur)] + later) == matched + [(bucket[0], cur)] + later;
        matched := matched + [(bucket[0], cur)];
        prevIds := prevIds + {bucket[0].id};
        currIds := currIds + {cur.id};
      }
    }
    assert matched + [] == matched;
  }

  lemma NoIds()
    ensures PrevIds([]) == {} && CurrIds([]) == {}
  {
  }

  method GroupByStatement(claims: seq<Claim>) returns (m: map<string, seq<Claim>>)
    ensures m == ByStatement(claims)
  {
    m := map[];
    for i := 0 to |claims|
      invariant m == ByStatement(claims[..i])
    {
      assert claims[..i + 1][..i] == claims[..i];
      var s := claims[i].statement;
      m := m[s := (if s in m then m[s] else []) + [claims[i]]];
    }
    assert claims[..|claims|] == claims;
  }

  lemma IdsOfSnoc(pairs: seq<Pair>, p: Claim, c: Claim)
    ensures PrevIds(pairs + [(p, c)]) == PrevIds(pairs) + {p.id}
    ensures CurrIds(pairs + [(p, c)]) == CurrIds(pairs) + {c.id}
  {
    assert (p, c) in pairs + [(p, c)];
    forall x | x in PrevIds(pairs) ensures x in PrevIds(pairs + [(p, c)]) {
      var q :| q in pairs && q.0.id == x;
      assert q in pairs + [(p, c)];
    }
    forall x | x in CurrIds(pairs) ensures x in CurrIds(pairs + [(p, c)]) {
      var q :| q in pairs && q.1.id == x;
      assert q in pairs + [(p, c)];
    }
  }

  ghost predicate DistinctIds(claims: seq<Claim>) {
    forall i, j :: 0 <= i < j < |claims| ==> claims[i].id != claims[j].id
  }

  /** No id occurs in two pairs, on either side. */
  ghost predicate Injective(pairs: seq<Pair>) {
    forall i, j :: 0 <= i < j < |pairs| ==> pairs[i].0.id != pairs[j].0.id && pairs[i].1.id != pairs[j].1.id
  }

  lemma {:induction false} BucketMembers(claims: seq<Claim>, l: string)
    ensures forall c :: c in Bucket(claims, l) <==> c in claims && LocalId(c.id) == Some(l)
  {
    if claims != [] {
      BucketMembers(claims[..|claims| - 1], l);
      assert claims == claims[..|claims| - 1] + [claims[|claims| - 1]];
    }
  }

  lemma {:induction false} LocalsMembers(claims: seq<Claim>)
    ensures forall c :: c in claims && LocalId(c.id).Some? ==> LocalId(c.id).value in Locals(claims)
    ensures forall i, j :: 0 <= i < j < |Locals(claims)| ==> Locals(claims)[i] != Locals(claims)[j]
  {
    if claims != [] {
      LocalsMembers(claims[..|claims| - 1]);
      assert claims == claims[..|claims| - 1] + [claims[|claims| - 1]];
    }
  }

  /** Two claims that are the only ones with their common local id. */
  predicate UniquePartners(prev: seq<Claim>, curr: seq<Claim>, p: Claim, c: Claim) {
    && LocalId(p.id).Some? && LocalId(p.id) == LocalId(c.id)
    && Bucket(prev, LocalId(p.id).value) == [p] && Bucket(curr, LocalId(p.id).value) == [c]
  }

  /** Pass 1 yields exactly the pairs of unique partners, and it is injective whatever the ids are. */
  lemma {:induction false} ByLocalCorrect(locals: seq<string>, prev: seq<Claim>, curr: seq<Claim>)
    requires forall i, j :: 0 <= i < j < |locals| ==> locals[i] != locals[j]
    ensures forall p, c :: (p, c) in ByLocal(locals, prev, curr) <==>
              UniquePartners(prev, curr, p, c) && LocalId(p.id).value in locals
    ensures Injective(ByLocal(locals, prev, curr))
  {
    if locals != [] {
      var front, l := locals[..|locals| - 1], locals[|locals| - 1];
      assert locals == front + [l];
      ByLocalCorrect(front, prev, curr);
      var pairs := ByLocal(front, prev, curr);
      if |Bucket(prev, l)| == 1 && |Bucket(curr, l)| == 1 {
        var p, c := Bucket(prev, l)[0], Bucket(curr, l)[0];
        BucketMembers(prev, l);
        BucketMembers(curr, l);
        assert p in Bucket(prev, l) && c in Bucket(curr, l);
        assert Bucket(prev, l) == [p] && Bucket(curr, l) == [c];
        forall i | 0 <= i < |pairs| ensures pairs[i].0.id != p.id && pairs[i].1.id != c.id {
          assert pairs[i] == (pairs[i].0, pairs[i].1) && pairs[i] in pairs;
        }
      }
    }
  }

  lemma {:induction false} WithoutMembers(claims: seq<Claim>, ids: set<string>)
    ensures forall c :: c in Without(claims, ids) <==> c in claims && c.id !in ids
    ensures DistinctIds(claims) ==> DistinctIds(Without(claims, ids))
  {
    if claims != [] {
      var front, last := claims[..|claims| - 1], claims[|claims| - 1];
      assert claims == front + [last];
      WithoutMembers(front, ids);
      if DistinctIds(claims) {
        forall i | 0 <= i < |Without(front, ids)| ensures Without(front, ids)[i].id != last.id {
          assert Without(front, ids)[i] in front;
        }
      }
    }
  }

  lemma {:induction false} ByStatementMembers(claims: seq<Claim>)
    ensures forall s :: s in ByStatement(claims) ==> forall c :: c in ByStatement(claims)[s] ==> c in claims && c.statement == s
    ensures forall c :: c in claims ==> c.statement in ByStatement(claims) && c in ByStatement(claims)[c.statement]
  {
    if claims != [] {
      var front, last := claims[..|claims| - 1], claims[|claims| - 1];
      assert claims == front + [last];
      ByStatementMembers(front);
      assert last in ByStatement(claims)[last.statement];
    }
  }

  ghost predicate Filed(buckets: map<string, seq<Claim>>, prev: seq<Claim>) {
    forall s, c :: s in buckets && c in buckets[s] ==> c in prev && c.statement == s
  }

  /** Pass 2 yields pairs with equal statements, uses every statement at most once, and is injective when the
      ids are distinct on both sides. */
  lemma {:induction false} ByStatementCorrect(buckets: map<string, seq<Claim>>, prev: seq<Claim>, curr: seq<Claim>)
    requires Filed(buckets, prev) && DistinctIds(prev) && DistinctIds(curr)
    ensures forall i :: 0 <= i < |ByStatementPairs(buckets, curr)| ==>
              var (p, c) := ByStatementPairs(buckets, curr)[i];
              p in prev && c in curr && p.statement == c.statement && p.statement in buckets && buckets[p.statement] == [p]
    ensures Injective(ByStatementPairs(buckets, curr))
    decreases |curr|
  {
    if curr != [] {
      var s, rest := curr[0].statement, curr[1..];
      if s in buckets && |buckets[s]| == 1 {
        var p, after := buckets[s][0], buckets[s := []];
        assert p in buckets[s] && buckets[s] == [p];
        ByStatementCorrect(after, prev, rest);
        var later := ByStatementPairs(after, rest);
        forall i | 0 <= i < |later| ensures later[i].0.id != p.id && later[i].1.id != curr[0].id {
          var (q, d) := later[i];
          assert q.statement != s;
          if q.id == p.id {
            DistinctMeansSame(prev, p, q);
          }
          var k :| 0 <= k < |rest| && rest[k] == d;
          assert curr[k + 1] == d;
        }
        forall i | 0 <= i < |later|
          ensures later[i].0.statement in buckets && buckets[later[i].0.statement] == [later[i].0]
        {
          assert later[i].0.statement in after && after[later[i].0.statement] == [later[i].0];
        }
      } else {
        ByStatementCorrect(buckets, prev, rest);
      }
    }
  }

  lemma DistinctMeansSame(claims: seq<Claim>, p: Claim, q: Claim)
    requires DistinctIds(claims) && p in claims && q in claims && p.id == q.id
    ensures p == q
  {
    var i, j :| 0 <= i < |claims| && 0 <= j < |claims| && claims[i] == p && claims[j] == q;
  }

  /** A current claim is refused in pass 2 only when two or more claims left over from pass 1 say the same. */
  lemma {:induction false} RefusedForAmbiguity(buckets: map<string, seq<Claim>>, curr: seq<Claim>, p: Claim, c: Claim)
    requires c in curr && c.id !in CurrIds(ByStatementPairs(buckets, curr))
    requires c.statement in buckets && p in buckets[c.statement] && p.id !in PrevIds(ByStatementPairs(buckets, curr))
    ensures |buckets[c.statement]| >= 2
    decreases |curr|
  {
    var s, rest := curr[0].statement, curr[1..];
    var pairs := ByStatementPairs(buckets, curr);
    if s in buckets && |buckets[s]| == 1 {
      var later := ByStatementPairs(buckets[s := []], rest);
      assert pairs[0] in pairs;
      assert pairs[0].0.id in PrevIds(pairs) && pairs[0].1.id in CurrIds(pairs);
      assert pairs[1..] == later;
      forall q | q in later ensures q.0.id in PrevIds(pairs) && q.1.id in CurrIds(pairs) {
        assert q in pairs;
      }
      if c.statement != s {
        RefusedForAmbiguity(buckets[s := []], rest, p, c);
      }
    } else if c != curr[0] {
      RefusedForAmbiguity(buckets, rest, p, c);
    }
  }

  /** The claims with one statement, in order. */
  function Saying(claims: seq<Claim>, s: string): seq<Claim> {
    if claims == [] then []
    else if claims[0].statement == s then [claims[0]] + Saying(claims[1..], s)
    else Saying(claims[1..], s)
  }

  /** No earlier claim of the list says the same. */
  predicate SaysFirst(claims: seq<Claim>, c: Claim) {
    Saying(claims, c.statement) != [] && Saying(claims, c.statement)[0] == c
  }

  lemma {:induction false} SayingMembers(claims: seq<Claim>, s: string)
    ensures forall c :: c in Saying(claims, s) <==> c in claims && c.statement == s
  {
    if claims != [] {
      SayingMembers(claims[1..], s);
      assert claims == [claims[0]] + claims[1..];
    }
  }

  lemma {:induction false} SayingSnoc(claims: seq<Claim>, c: Claim, s: string)
    ensures Saying(claims + [c], s) == if c.statement == s then Saying(claims, s) + [c] else Saying(claims, s)
  {
    if claims == [] {
      assert claims + [c] == [c] && [c][1..] == [];
    } else {
      assert (claims + [c])[1..] == claims[1..] + [c];
      SayingSnoc(claims[1..], c, s);
    }
  }

  lemma {:induction false} ByStatementIsSaying(claims: seq<Claim>, s: string)
    ensures s in ByStatement(claims) <==> Saying(claims, s) != []
    ensures s in ByStatement(claims) ==> ByStatement(claims)[s] == Saying(claims, s)
  {
    if claims != [] {
      var front, last := claims[..|claims| - 1], claims[|claims| - 1];
      ByStatementIsSaying(front, s);
      SayingSnoc(front, last, s);
      assert claims == front + [last];
      hide Saying;
    }
  }

  /** Whom pass 2 pairs: the claim alone in its bucket, with the first current claim that says the same. */
  lemma {:induction false} FirstSpeakerTakes(buckets: map<string, seq<Claim>>, curr: seq<Claim>, p: Claim, c: Claim)
    ensures (p, c) in ByStatementPairs(buckets, curr)
       <==> c.statement in buckets && buckets[c.statement] == [p] && SaysFirst(curr, c)
    decreases |curr|
  {
    if curr != [] {
      var s, rest := curr[0].statement, curr[1..];
      if s in buckets && |buckets[s]| == 1 {
        var q := buckets[s][0];
        FirstSpeakerTakes(buckets[s := []], rest, p, c);
        assert buckets[s] == [q];
        assert (p, c) in ByStatementPairs(buckets, curr)
          <==> (p, c) == (q, curr[0]) || (p, c) in ByStatementPairs(buckets[s := []], rest);
      } else {
        FirstSpeakerTakes(buckets, rest, p, c);
      }
    }
  }

  function LeftPrev(prev: seq<Claim>, curr: seq<Claim>): seq<Claim> {
    Without(prev, PrevIds(FirstPass(prev, curr)))
  }

  function LeftCurr(prev: seq<Claim>, curr: seq<Claim>): seq<Claim> {
    Without(curr, CurrIds(FirstPass(prev, curr)))
  }

  /** The pairs of pass 2, for all versions: the previous claim is the only one left with the statement, the current
      claim the first one left with it. */
  lemma SecondPassIs(prev: seq<Claim>, curr: seq<Claim>, p: Claim, c: Claim)
    ensures (p, c) in SecondPass(prev, curr)
       <==> Saying(LeftPrev(prev, curr), c.statement) == [p] && SaysFirst(LeftCurr(prev, curr), c)
  {
    FirstSpeakerTakes(ByStatement(LeftPrev(prev, curr)), LeftCurr(prev, curr), p, c);
    ByStatementIsSaying(LeftPrev(prev, curr), c.statement);
    hide Saying, ByStatement, Without, FirstPass, ByStatementPairs, SaysFirst;
  }

  /** A claim left over on the current side stays unmatched exactly when its statement is not left exactly once on the
      previous side, or an earlier claim took it. */
  lemma CurrentRefusedIff(prev: seq<Claim>, curr: seq<Claim>, c: Claim)
    requires c in LeftCurr(prev, curr)
    ensures (forall p :: (p, c) !in SecondPass(prev, curr))
       <==> |Saying(LeftPrev(prev, curr), c.statement)| != 1 || !SaysFirst(LeftCurr(prev, curr), c)
  {
    hide SecondPass, Saying, SaysFirst, LeftPrev, LeftCurr;
    forall p ensures (p, c) in SecondPass(prev, curr)
                <==> Saying(LeftPrev(prev, curr), c.statement) == [p] && SaysFirst(LeftCurr(prev, curr), c) {
      SecondPassIs(prev, curr, p, c);
    }
    var same := Saying(LeftPrev(prev, curr), c.statement);
    if |same| == 1 {
      assert same == [same[0]];
    }
  }

  /** What the documentation asks of a pair of pass 2. */
  ghost predicate UniqueOnBothSides(prev: seq<Claim>, curr: seq<Claim>, p: Claim, c: Claim) {
    Saying(LeftPrev(prev, curr), c.statement) == [p] && Saying(LeftCurr(prev, curr), c.statement) == [c]
  }

  /** No statement left exactly once on the previous side is left more than once on the current side. */
  ghost predicate Uncontested(prev: seq<Claim>, curr: seq<Claim>) {
    forall s :: |Saying(LeftPrev(prev, curr), s)| == 1 ==> |Saying(LeftCurr(prev, curr), s)| <= 1
  }

  /** Pass 2 keeps the documented rule exactly when no such statement is contested. */
  lemma UniqueOnBothSidesIff(prev: seq<Claim>, curr: seq<Claim>)
    ensures (forall p, c :: (p, c) in SecondPass(prev, curr) ==> UniqueOnBothSides(prev, curr, p, c))
       <==> Uncontested(prev, curr)
  {
    hide SecondPass, Saying, LeftPrev, LeftCurr;
    var left, currLeft := LeftPrev(prev, curr), LeftCurr(prev, curr);
    if Uncontested(prev, curr) {
      forall p, c | (p, c) in SecondPass(prev, curr) ensures UniqueOnBothSides(prev, curr, p, c) {
        SecondPassIs(prev, curr, p, c);
      }
    } else {
      var s :| |Saying(left, s)| == 1 && |Saying(currLeft, s)| > 1;
      var p, c := Saying(left, s)[0], Saying(currLeft, s)[0];
      SayingMembers(currLeft, s);
      assert c in Saying(currLeft, s) && Saying(left, s) == [p];
      SecondPassIs(prev, curr, p, c);
      assert !UniqueOnBothSides(prev, curr, p, c);
    }
  }

  function Plain(id: string, statement: string): Claim {
    Claim(id, statement, None, "", "", None, None, None, None, None, "")
  }

  /** A contested statement: one previous and two current claims say the same under three labels. The first current
      claim is matched although the statement is not unique on its side. */
  lemma ContestedStatementIsMatched(statement: string)
    ensures var p, c, d := Plain("x:a", statement), Plain("x:b", statement), Plain("x:c", statement);
            && (p, c) in Matching([p], [c, d])
            && !UniqueOnBothSides([p], [c, d], p, c) && !Uncontested([p], [c, d])
  {
    var p, c, d := Plain("x:a", statement), Plain("x:b", statement), Plain("x:c", statement);
    ThreeLabels();
    NothingByLocal(p, c, d);
    NothingTaken([p]);
    NothingTaken([c, d]);
    assert LeftPrev([p], [c, d]) == [p] && LeftCurr([p], [c, d]) == [c, d];
    SayingTwo(p, c, d);
    SecondPassIs([p], [c, d], p, c);
    UniqueOnBothSidesIff([p], [c, d]);
    hide Saying, LeftPrev, LeftCurr, SecondPass, LocalId;
  }

  lemma ThreeLabels()
    ensures LocalId("x:a") == Some("a") && LocalId("x:b") == Some("b") && LocalId("x:c") == Some("c")
  {
    assert "x:a" == "x" + [':'] + "a" && "x:b" == "x" + [':'] + "b" && "x:c" == "x" + [':'] + "c";
    FindIn("x", ':', "a");
    FindIn("x", ':', "b");
    FindIn("x", ':', "c");
  }

  lemma SayingTwo(p: Claim, c: Claim, d: Claim)
    requires p.statement == c.statement == d.statement
    ensures Saying([p], p.statement) == [p] && Saying([c, d], p.statement) == [c, d]
  {
    assert [c, d][1..] == [d] && [d][1..] == [] && [p][1..] == [];
  }

  lemma NothingByLocal(p: Claim, c: Claim, d: Claim)
    requires LocalId(c.id) != LocalId(p.id) && LocalId(d.id) != LocalId(p.id)
    ensures FirstPass([p], [c, d]) == []
  {
    LocalsMembers([p]);
    ByLocalCorrect(Locals([p]), [p], [c, d]);
    var first := FirstPass([p], [c, d]);
    if first != [] {
      var (q, e) := first[0];
      assert (q, e) in first;
      MembersOfUniquePartners([p], [c, d], q, e);
    }
  }

  lemma {:induction false} NothingTaken(claims: seq<Claim>)
    ensures Without(claims, {}) == claims
    ensures PrevIds([]) == {} && CurrIds([]) == {}
  {
    if claims != [] {
      NothingTaken(claims[..|claims| - 1]);
      assert claims == claims[..|claims| - 1] + [claims[|claims| - 1]];
    }
  }

  function IdsOf(claims: seq<Claim>): set<string> {
    set c | c in claims :: c.id
  }

  lemma {:induction false} WithoutLength(claims: seq<Claim>, ids: set<string>)
    requires DistinctIds(claims) && ids <= IdsOf(claims)
    ensures |Without(claims, ids)| + |ids| == |claims|
  {
    if claims == [] {
      assert ids == {};
    } else {
      var front, last := claims[..|claims| - 1], claims[|claims| - 1];
      assert claims == front + [last];
      forall x | x in ids && x != last.id ensures x in IdsOf(front) {
        var c :| c in claims && c.id == x;
        assert c in front;
      }
      WithoutLength(front, ids - {last.id});
      WithoutIrrelevant(front, ids, last.id);
      RemoveOne(ids, last.id);
      hide IdsOf, DistinctIds;
    }
  }

  lemma RemoveOne(ids: set<string>, x: string)
    ensures |ids - {x}| == |ids| - if x in ids then 1 else 0
  {
    if x in ids {
      assert ids == (ids - {x}) + {x};
    } else {
      assert ids == ids - {x};
    }
  }

  lemma {:induction false} WithoutIrrelevant(claims: seq<Claim>, ids: set<string>, x: string)
    requires forall i :: 0 <= i < |claims| ==> claims[i].id != x
    ensures Without(claims, ids) == Without(claims, ids - {x})
  {
    if claims != [] {
      WithoutIrrelevant(claims[..|claims| - 1], ids, x);
    }
  }

  lemma {:induction false} InjectiveCounts(pairs: seq<Pair>)
    requires Injective(pairs)
    ensures |PrevIds(pairs)| == |pairs| && |CurrIds(pairs)| == |pairs|
  {
    if pairs == [] {
      NoIds();
    } else {
      var front, last := pairs[..|pairs| - 1], pairs[|pairs| - 1];
      InjectiveCounts(front);
      assert pairs == front + [(last.0, last.1)];
      IdsOfSnoc(front, last.0, last.1);
      LastIsNew(pairs);
    }
  }

  lemma LastIsNew(pairs: seq<Pair>)
    requires Injective(pairs) && pairs != []
    ensures pairs[|pairs| - 1].0.id !in PrevIds(pairs[..|pairs| - 1])
    ensures pairs[|pairs| - 1].1.id !in CurrIds(pairs[..|pairs| - 1])
  {
    var front := pairs[..|pairs| - 1];
    forall q | q in front ensures q.0.id != pairs[|pairs| - 1].0.id && q.1.id != pairs[|pairs| - 1].1.id {
      var i :| 0 <= i < |front| && front[i] == q;
      assert pairs[i] == q;
    }
  }

  lemma MatchingParts(prev: seq<Claim>, curr: seq<Claim>)
    requires DistinctIds(prev) && DistinctIds(curr)
    ensures Injective(FirstPass(prev, curr)) && Injective(SecondPass(prev, curr))
    ensures forall p, c :: (p, c) in FirstPass(prev, curr) <==> UniquePartners(prev, curr, p, c)
    ensures forall q :: q in SecondPass(prev, curr) ==>
              q.0.statement == q.1.statement && q.0 in prev && q.1 in curr
              && q.0.id !in PrevIds(FirstPass(prev, curr)) && q.1.id !in CurrIds(FirstPass(prev, curr))
  {
    var first := FirstPass(prev, curr);
    var left, currLeft := Without(prev, PrevIds(first)), Without(curr, CurrIds(first));
    LocalsMembers(prev);
    ByLocalCorrect(Locals(prev), prev, curr);
    forall p, c | UniquePartners(prev, curr, p, c) ensures LocalId(p.id).value in Locals(prev) {
      BucketMembers(prev, LocalId(p.id).value);
      assert p in Bucket(prev, LocalId(p.id).value);
    }
    WithoutMembers(prev, PrevIds(first));
    WithoutMembers(curr, CurrIds(first));
    ByStatementMembers(left);
    ByStatementCorrect(ByStatement(left), left, currLeft);
    forall q | q in SecondPass(prev, curr)
      ensures q.0.statement == q.1.statement && q.0 in left && q.1 in currLeft
    {
      var i :| 0 <= i < |SecondPass(prev, curr)| && SecondPass(prev, curr)[i] == q;
    }
  }

  lemma MembersOfUniquePartners(prev: seq<Claim>, curr: seq<Claim>, p: Claim, c: Claim)
    requires UniquePartners(prev, curr, p, c)
    ensures p in prev && c in curr
  {
    BucketMembers(prev, LocalId(p.id).value);
    BucketMembers(curr, LocalId(p.id).value);
    assert p in Bucket(prev, LocalId(p.id).value) && c in Bucket(curr, LocalId(c.id).value);
  }

  /** With distinct ids per version, matching is a partial injection between the versions whose pairs are unique
      partners by local id or say the same, and every unique partnership is matched. */
  lemma MatchingIsInjection(prev: seq<Claim>, curr: seq<Claim>)
    requires DistinctIds(prev) && DistinctIds(curr)
    ensures Injective(Matching(prev, curr))
    ensures forall q :: q in Matching(prev, curr) ==>
              q.0 in prev && q.1 in curr && (UniquePartners(prev, curr, q.0, q.1) || q.0.statement == q.1.statement)
    ensures forall p, c :: UniquePartners(prev, curr, p, c) ==> (p, c) in Matching(prev, curr)
  {
    MatchingParts(prev, curr);
    var first, second := FirstPass(prev, curr), SecondPass(prev, curr);
    forall q | q in first ensures q.0 in prev && q.1 in curr && UniquePartners(prev, curr, q.0, q.1) {
      assert (q.0, q.1) == q;
      MembersOfUniquePartners(prev, curr, q.0, q.1);
    }
    forall i, j | 0 <= i < |first| && 0 <= j < |second|
      ensures first[i].0.id != second[j].0.id && first[i].1.id != second[j].1.id
    {
      assert first[i] in first && second[j] in second;
      assert first[i].0.id in PrevIds(first) && first[i].1.id in CurrIds(first);
    }
    assert Matching(prev, curr) == first + second;
  }

  /** No claim is lost or counted twice: with distinct ids, what is matched and what is left over add up to
      each version, and nothing is both. */
  lemma NothingIsLost(prev: seq<Claim>, curr: seq<Claim>)
    requires DistinctIds(prev) && DistinctIds(curr)
    ensures var m := Matching(prev, curr);
            && |m| + |Without(prev, PrevIds(m))| == |prev|
            && |m| + |Without(curr, CurrIds(m))| == |curr|
    ensures forall p :: p in prev ==>
              (p in Without(prev, PrevIds(Matching(prev, curr))) <==> !exists q :: q in Matching(prev, curr) && q.0 == p)
    ensures forall c :: c in curr ==>
              (c in Without(curr, CurrIds(Matching(prev, curr))) <==> !exists q :: q in Matching(prev, curr) && q.1 == c)
  {
    var m := Matching(prev, curr);
    MatchingIsInjection(prev, curr);
    InjectiveCounts(m);
    WithoutLength(prev, PrevIds(m));
    WithoutLength(curr, CurrIds(m));
    WithoutMembers(prev, PrevIds(m));
    WithoutMembers(curr, CurrIds(m));
    forall p | p in prev ensures p.id in PrevIds(m) <==> exists q :: q in m && q.0 == p {
      if p.id in PrevIds(m) {
        var q :| q in m && q.0.id == p.id;
        DistinctMeansSame(prev, p, q.0);
      }
    }
    forall c | c in curr ensures c.id in CurrIds(m) <==> exists q :: q in m && q.1 == c {
      if c.id in CurrIds(m) {
        var q :| q in m && q.1.id == c.id;
        DistinctMeansSame(curr, c, q.1);
      }
    }
  }

  datatype Field = Statement | Proof | ClaimType | EvidenceType | Figures | DependsOn | Supports | Contradicts | Extends
                 | SourceLocation

  /** Edge lists compare as sorted tuples, that is, as multisets; an absent list differs from an empty one. */
  predicate SameEdges(a: Option<seq<string>>, b: Option<seq<string>>) {
    match (a, b)
    case (None, None) => true
    case (Some(s), Some(t)) => multiset(s) == multiset(t)
    case _ => false
  }

  /** x placed behind everything whose path is not greater. */
  function InsertFigure(s: seq<Figure>, x: Figure): seq<Figure> {
    if s == [] then [x]
    else if StringLess(x.path, s[0].path) then [x] + s
    else [s[0]] + InsertFigure(s[1..], x)
  }

  /** The stable sort by path. */
  function SortFigures(s: seq<Figure>): seq<Figure> {
    if s == [] then [] else InsertFigure(SortFigures(s[..|s| - 1]), s[|s| - 1])
  }

  /** Figures compare sorted by path. */
  predicate SameFigures(a: Option<seq<Figure>>, b: Option<seq<Figure>>) {
    if a.Some? && b.Some? then SortFigures(a.value) == SortFigures(b.value) else a == b
  }

  /** The captions given to one path, in order. */
  function Captions(s: seq<Figure>, path: string): seq<Option<string>> {
    if s == [] then [] else (if s[0].path == path then [s[0].caption] else []) + Captions(s[1..], path)
  }

  ghost predicate OrderedByPath(s: seq<Figure>) {
    forall i, j :: 0 <= i < j < |s| ==> !StringLess(s[j].path, s[i].path)
  }

  lemma {:induction false} CaptionsSnoc(s: seq<Figure>, x: Figure, path: string)
    ensures Captions(s + [x], path) == Captions(s, path) + if x.path == path then [x.caption] else []
  {
    if s == [] {
      assert (s + [x])[1..] == [];
    } else {
      CaptionsSnoc(s[1..], x, path);
      assert s + [x] == [s[0]] + (s[1..] + [x]);
      CaptionsCons(s[0], s[1..] + [x], path);
    }
  }

  lemma CaptionsCons(x: Figure, s: seq<Figure>, path: string)
    ensures Captions([x] + s, path) == (if x.path == path then [x.caption] else []) + Captions(s, path)
  {
    assert ([x] + s)[1..] == s;
  }

  lemma LessThanNotGreater(a: string, b: string, c: string)
    requires StringLess(a, b) && !StringLess(c, b)
    ensures StringLess(a, c) && a != c
  {
    StringLessTotal(b, c);
    if b != c {
      StringLessTransitive(a, b, c);
    }
    StringLessTotal(a, c);
  }

  lemma {:induction false} NoCaptions(s: seq<Figure>, path: string)
    requires OrderedByPath(s) && s != [] && StringLess(path, s[0].path)
    ensures Captions(s, path) == []
  {
    StringLessTotal(path, s[0].path);
    hide StringLess;
    if |s| > 1 {
      LessThanNotGreater(path, s[0].path, s[1].path);
      NoCaptions(s[1..], path);
    }
  }

  lemma {:induction false} InsertFigureMembers(s: seq<Figure>, x: Figure)
    ensures multiset(InsertFigure(s, x)) == multiset(s) + multiset{x}
  {
    if s != [] {
      assert s == [s[0]] + s[1..];
      InsertFigureMembers(s[1..], x);
    }
  }

  lemma {:induction false} InsertFigureOrdered(s: seq<Figure>, x: Figure)
    requires OrderedByPath(s)
    ensures OrderedByPath(InsertFigure(s, x))
  {
    hide StringLess;
    if s == [] {
    } else if StringLess(x.path, s[0].path) {
      forall j | 0 <= j < |s| ensures !StringLess(s[j].path, x.path) {
        StringLessTotal(s[0].path, s[0].path);
        LessThanNotGreater(x.path, s[0].path, s[j].path);
        StringLessTotal(x.path, s[j].path);
      }
    } else {
      InsertFigureOrdered(s[1..], x);
      var t := InsertFigure(s[1..], x);
      InsertFigureMembers(s[1..], x);
      forall j | 0 <= j < |t| ensures !StringLess(t[j].path, s[0].path) {
        assert t[j] in multiset(t);
        if t[j] != x {
          assert t[j] in s[1..];
        }
      }
    }
  }

  lemma {:induction false} InsertFigureCaptions(s: seq<Figure>, x: Figure, path: string)
    requires OrderedByPath(s)
    ensures Captions(InsertFigure(s, x), path) == Captions(s, path) + if x.path == path then [x.caption] else []
  {
    hide StringLess;
    if s == [] {
    } else if StringLess(x.path, s[0].path) {
      if x.path == path {
        NoCaptions(s, path);
      }
      hide OrderedByPath;
      CaptionsCons(x, s, path);
    } else {
      InsertFigureCaptions(s[1..], x, path);
      hide OrderedByPath;
      CaptionsCons(s[0], InsertFigure(s[1..], x), path);
    }
  }

  lemma {:induction false} SortFiguresKeeps(s: seq<Figure>)
    ensures OrderedByPath(SortFigures(s))
    ensures forall path :: Captions(SortFigures(s), path) == Captions(s, path)
  {
    if s != [] {
      var front, x := s[..|s| - 1], s[|s| - 1];
      assert s == front + [x];
      SortFiguresKeeps(front);
      InsertFigureOrdered(SortFigures(front), x);
      hide OrderedByPath;
      forall path ensures Captions(SortFigures(s), path) == Captions(s, path) {
        CaptionsSnoc(front, x, path);
        InsertFigureCaptions(SortFigures(front), x, path);
      }
    }
  }

  lemma {:induction false} OrderedFiguresAgree(s: seq<Figure>, t: seq<Figure>)
    requires OrderedByPath(s) && OrderedByPath(t)
    requires forall path :: Captions(s, path) == Captions(t, path)
    ensures s == t
  {
    if s == [] {
      if t != [] {
        FirstCaption(t);
      }
    } else {
      var path := s[0].path;
      FirstCaption(s);
      assert t != [];
      SameFirstPath(s, t);
      assert Captions(t, path)[0] == t[0].caption;
      forall p ensures Captions(s[1..], p) == Captions(t[1..], p) {
        var c := Captions(s, p);
        assert c == Captions(t, p);
        assert Captions(s[1..], p) == if p == path then c[1..] else c;
        assert Captions(t[1..], p) == if p == path then c[1..] else c;
      }
      OrderedFiguresAgree(s[1..], t[1..]);
      assert s == [s[0]] + s[1..] && t == [t[0]] + t[1..];
    }
  }

  lemma FirstCaption(s: seq<Figure>)
    requires s != []
    ensures Captions(s, s[0].path) != [] && Captions(s, s[0].path)[0] == s[0].caption
  {
  }

  lemma SameFirstPath(s: seq<Figure>, t: seq<Figure>)
    requires OrderedByPath(s) && OrderedByPath(t) && s != [] && t != []
    requires forall path :: Captions(s, path) == Captions(t, path)
    ensures s[0].path == t[0].path
  {
    assert Captions(s, s[0].path) != [] && Captions(t, t[0].path) != [];
    StringLessTotal(s[0].path, t[0].path);
    if StringLess(s[0].path, t[0].path) {
      NoCaptions(t, s[0].path);
    } else if StringLess(t[0].path, s[0].path) {
      NoCaptions(s, t[0].path);
    }
  }

  /** Every path has the same captions in the same order. */
  ghost predicate CaptionsAgree(s: seq<Figure>, t: seq<Figure>) {
    forall path :: Captions(s, path) == Captions(t, path)
  }

  /** Sorting by path forgets nothing but how figures with different paths are interleaved. */
  lemma SameFiguresMeans(s: seq<Figure>, t: seq<Figure>)
    ensures SameFigures(Some(s), Some(t)) <==> CaptionsAgree(s, t)
  {
    SortFiguresKeeps(s);
    SortFiguresKeeps(t);
    hide OrderedByPath;
    if CaptionsAgree(s, t) {
      OrderedFiguresAgree(SortFigures(s), SortFigures(t));
    }
    if SortFigures(s) == SortFigures(t) {
      forall path ensures Captions(s, path) == Captions(t, path) {
        assert Captions(SortFigures(s), path) == Captions(SortFigures(t), path);
      }
    }
  }

  predicate Same(f: Field, p: Claim, c: Claim) {
    match f
    case Statement => p.statement == c.statement
    case Proof => p.proof == c.proof
    case ClaimType => p.claimType == c.claimType
    case EvidenceType => p.evidenceType == c.evidenceType
    case Figures => SameFigures(p.figures, c.figures)
    case DependsOn => SameEdges(p.dependsOn, c.dependsOn)
    case Supports => SameEdges(p.supports, c.supports)
    case Contradicts => SameEdges(p.contradicts, c.contradicts)
    case Extends => SameEdges(p.extensions, c.extensions)
    case SourceLocation => p.sourceLocation == c.sourceLocation
  }

  const TRACKED: seq<Field> := [Statement, Proof, ClaimType, EvidenceType, Figures, DependsOn, Supports, Contradicts,
                                Extends, SourceLocation]

  datatype Modified = Modified(fromId: string, toId: string, localId: string, changed: seq<Field>)

  function Changed(fields: seq<Field>, p: Claim, c: Claim): seq<Field> {
    if fields == [] then []
    else (if Same(fields[0], p, c) then [] else [fields[0]]) + Changed(fields[1..], p, c)
  }

  lemma {:induction false} NothingChanged(fields: seq<Field>, p: Claim, c: Claim)
    ensures Changed(fields, p, c) == [] <==> forall f :: f in fields ==> Same(f, p, c)
  {
    if fields != [] {
      assert fields == [fields[0]] + fields[1..];
      NothingChanged(fields[1..], p, c);
    }
  }

  /** The figures agree but for how those with different paths are interleaved. */
  ghost predicate FiguresAgree(a: Option<seq<Figure>>, b: Option<seq<Figure>>) {
    (a.None? && b.None?) || (a.Some? && b.Some? && CaptionsAgree(a.value, b.value))
  }

  /** The lists hold the same ids equally often. */
  ghost predicate EdgesAgree(a: Option<seq<string>>, b: Option<seq<string>>) {
    (a.None? && b.None?) || (a.Some? && b.Some? && multiset(a.value) == multiset(b.value))
  }

  /** What a revision may not touch without being listed as a modification. */
  ghost predicate Agree(p: Claim, c: Claim) {
    && p.statement == c.statement && p.proof == c.proof
    && p.claimType == c.claimType && p.evidenceType == c.evidenceType
    && FiguresAgree(p.figures, c.figures)
    && EdgesAgree(p.dependsOn, c.dependsOn) && EdgesAgree(p.supports, c.supports)
    && EdgesAgree(p.contradicts, c.contradicts) && EdgesAgree(p.extensions, c.extensions)
    && p.sourceLocation == c.sourceLocation
  }

  lemma {:induction false} ChangedMeans(fields: seq<Field>, p: Claim, c: Claim, f: Field)
    ensures f in Changed(fields, p, c) <==> f in fields && !Same(f, p, c)
  {
    hide Same;
    if fields != [] {
      assert fields == [fields[0]] + fields[1..];
      ChangedMeans(fields[1..], p, c, f);
    }
  }

  lemma SameMeans(p: Claim, c: Claim)
    ensures Same(Figures, p, c) <==> FiguresAgree(p.figures, c.figures)
    ensures Same(DependsOn, p, c) <==> EdgesAgree(p.dependsOn, c.dependsOn)
    ensures Same(Supports, p, c) <==> EdgesAgree(p.supports, c.supports)
    ensures Same(Contradicts, p, c) <==> EdgesAgree(p.contradicts, c.contradicts)
    ensures Same(Extends, p, c) <==> EdgesAgree(p.extensions, c.extensions)
  {
    assert SameFigures(p.figures, c.figures) <==> FiguresAgree(p.figures, c.figures) by {
      if p.figures.Some? && c.figures.Some? {
        SameFiguresMeans(p.figures.value, c.figures.value);
      }
    }
    hide SameFigures;
  }

  /** A pair is listed as modified exactly when it disagrees somewhere, and then with exactly the fields in which it
      does. */
  lemma PayloadMeans(p: Claim, c: Claim)
    ensures Payload(p, c) == [] <==> Agree(p, c)
    ensures !Agree(p, c) ==> |Payload(p, c)| == 1 && Payload(p, c)[0].fromId == p.id && Payload(p, c)[0].toId == c.id
    ensures !Agree(p, c) ==>
              var changed := Payload(p, c)[0].changed;
              && (Statement in changed <==> p.statement != c.statement)
              && (Proof in changed <==> p.proof != c.proof)
              && (ClaimType in changed <==> p.claimType != c.claimType)
              && (EvidenceType in changed <==> p.evidenceType != c.evidenceType)
              && (Figures in changed <==> !FiguresAgree(p.figures, c.figures))
              && (DependsOn in changed <==> !EdgesAgree(p.dependsOn, c.dependsOn))
              && (Supports in changed <==> !EdgesAgree(p.supports, c.supports))
              && (Contradicts in changed <==> !EdgesAgree(p.contradicts, c.contradicts))
              && (Extends in changed <==> !EdgesAgree(p.extensions, c.extensions))
              && (SourceLocation in changed <==> p.sourceLocation != c.sourceLocation)
  {
    var changed := Changed(TRACKED, p, c);
    NothingChanged(TRACKED, p, c);
    hide *;
    forall f ensures f in TRACKED && (f in changed <==> !Same(f, p, c)) {
      ChangedMeans(TRACKED, p, c, f);
      AllTracked(f);
    }
    SameInAll(p, c);
    FieldsChanged(changed, p, c);
    PayloadUnfolds(p, c);
  }

  lemma PayloadUnfolds(p: Claim, c: Claim)
    ensures var changed := Changed(TRACKED, p, c);
            if changed == [] then Payload(p, c) == []
            else |Payload(p, c)| == 1 && Payload(p, c)[0].fromId == p.id && Payload(p, c)[0].toId == c.id
                 && Payload(p, c)[0].changed == changed
  {
    hide Changed, TRACKED, LocalId;
  }

  lemma SameInAll(p: Claim, c: Claim)
    ensures (forall f :: Same(f, p, c)) <==> Agree(p, c)
  {
    SameMeans(p, c);
    hide FiguresAgree, EdgesAgree, SameFigures, SameEdges;
    if forall f :: Same(f, p, c) {
      assert Same(Statement, p, c) && Same(Proof, p, c) && Same(ClaimType, p, c) && Same(EvidenceType, p, c);
      assert Same(Figures, p, c) && Same(DependsOn, p, c) && Same(Supports, p, c) && Same(Contradicts, p, c);
      assert Same(Extends, p, c) && Same(SourceLocation, p, c);
    }
  }

  lemma FieldsChanged(changed: seq<Field>, p: Claim, c: Claim)
    requires forall f :: f in changed <==> !Same(f, p, c)
    ensures Statement in changed <==> p.statement != c.statement
    ensures Proof in changed <==> p.proof != c.proof
    ensures ClaimType in changed <==> p.claimType != c.claimType
    ensures EvidenceType in changed <==> p.evidenceType != c.evidenceType
    ensures Figures in changed <==> !FiguresAgree(p.figures, c.figures)
    ensures DependsOn in changed <==> !EdgesAgree(p.dependsOn, c.dependsOn)
    ensures Supports in changed <==> !EdgesAgree(p.supports, c.supports)
    ensures Contradicts in changed <==> !EdgesAgree(p.contradicts, c.contradicts)
    ensures Extends in changed <==> !EdgesAgree(p.extensions, c.extensions)
    ensures SourceLocation in changed <==> p.sourceLocation != c.sourceLocation
  {
    SameMeans(p, c);
    hide FiguresAgree, EdgesAgree, SameFigures, SameEdges;
  }

  lemma AllTracked(f: Field)
    ensures f in TRACKED
  {
    assert TRACKED[0] == Statement && TRACKED[1] == Proof && TRACKED[2] == ClaimType && TRACKED[3] == EvidenceType;
    assert TRACKED[4] == Figures && TRACKED[5] == DependsOn && TRACKED[6] == Supports && TRACKED[7] == Contradicts;
    assert TRACKED[8] == Extends && TRACKED[9] == SourceLocation;
  }

  /** The local id is what follows the first colon; a modification carries that of the new id. */
  lemma LocalIdMeans(paperId: string, l: string, p: Claim, c: Claim)
    requires ':' !in paperId
    ensures LocalId(paperId + ":" + l) == Some(l) && LocalId(paperId) == None
    ensures Payload(p, c) != [] && c.id == paperId + ":" + l ==> Payload(p, c)[0].localId == l
    ensures Payload(p, c) != [] && c.id == paperId ==> Payload(p, c)[0].localId == ""
  {
    FindIn(paperId, ':', l);
    assert (paperId + ":" + l)[|paperId| + 1..] == l;
    hide Changed, TRACKED;
  }

  /** What a pair contributes to the list of modified claims. */
  function Payload(p: Claim, c: Claim): seq<Modified> {
    var changed := Changed(TRACKED, p, c);
    if changed == [] then []
    else [Modified(p.id, c.id, if LocalId(c.id).Some? then LocalId(c.id).value else "", changed)]
  }

  function Payloads(pairs: seq<Pair>): seq<Modified> {
    if pairs == [] then []
    else Payloads(pairs[..|pairs| - 1]) + Payload(pairs[|pairs| - 1].0, pairs[|pairs| - 1].1)
  }

  method ChangedFields(fields: seq<Field>, p: Claim, c: Claim) returns (changed: seq<Field>)
    ensures changed == Changed(fields, p, c)
  {
    hide Same;
    changed := [];
    assert fields[0..] == fields;
    for i := 0 to |fields|
      invariant changed + Changed(fields[i..], p, c) == Changed(fields, p, c)
    {
      assert fields[i..][1..] == fields[i + 1..];
      if !Same(fields[i], p, c) {
        changed := changed + [fields[i]];
      }
    }
  }

  /** The matched pairs that agree in every respect. */
  ghost function Untouched(pairs: seq<Pair>): nat {
    if pairs == [] then 0
    else Untouched(pairs[..|pairs| - 1])
         + if Agree(pairs[|pairs| - 1].0, pairs[|pairs| - 1].1) then 1 else 0
  }

  /** The claim part of a revision diff. Whatever the field contents are, the four groups add up to the two
      versions when their ids are distinct. */
  method ClaimsDiff(prev: seq<Claim>, curr: seq<Claim>)
    returns (added: seq<Claim>, removed: seq<Claim>, modified: seq<Modified>, same: nat)
    ensures same == Untouched(Matching(prev, curr))
    ensures modified == Payloads(Matching(prev, curr)) && |modified| + same == |Matching(prev, curr)|
    ensures added == Without(curr, CurrIds(Matching(prev, curr)))
    ensures removed == Without(prev, PrevIds(Matching(prev, curr)))
    ensures DistinctIds(prev) && DistinctIds(curr) ==>
              |removed| + |modified| + same == |prev| && |added| + |modified| + same == |curr|
  {
    hide *;
    var matched;
    matched, removed, added := MatchClaims(prev, curr);
    modified, same := SplitMatched(matched);
    if DistinctIds(prev) && DistinctIds(curr) {
      DiffAddsUp(prev, curr);
    }
  }

  lemma DiffAddsUp(prev: seq<Claim>, curr: seq<Claim>)
    requires DistinctIds(prev) && DistinctIds(curr)
    ensures |Without(prev, PrevIds(Matching(prev, curr)))| + |Matching(prev, curr)| == |prev|
    ensures |Without(curr, CurrIds(Matching(prev, curr)))| + |Matching(prev, curr)| == |curr|
  {
    hide *;
    NothingIsLost(prev, curr);
  }

  /** The matched pairs whose fields differ, and the number of those whose fields do not. */
  method SplitMatched(matched: seq<Pair>) returns (modified: seq<Modified>, same: nat)
    ensures same == Untouched(matched) && modified == Payloads(matched) && |modified| + same == |matched|
  {
    hide Same, Changed, TRACKED, Agree;
    modified, same := [], 0;
    for i := 0 to |matched|
      invariant |modified| + same == i
      invariant same == Untouched(matched[..i]) && modified == Payloads(matched[..i])
    {
      assert matched[..i + 1][..i] == matched[..i];
      var (p, c) := matched[i];
      var changed := ChangedFields(TRACKED, p, c);
      PayloadMeans(p, c);
      if changed == [] {
        same := same + 1;
      } else {
        var local := LocalId(c.id);
        modified := modified + [Modified(p.id, c.id, if local.Some? then local.value else "", changed)];
      }
    }
    assert matched[..|matched|] == matched;
  }
}

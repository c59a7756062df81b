/** Rewriting a paper's claim ids from the parser's build-time prefix to the citable slug. */
module ClaimIdRewriting {
  import opened Wrappers
  import opened Walks
  import opened ClaimGraphs
  import Text

  /** A claim of the record file; an absent id is the empty string, an absent edge list is empty. */
  datatype Record = Record(claim: Claim, paperId: Option<string>)

  /** The prefix to replace, colon included, or None when the call must leave the file alone. */
  function OldPrefix(claims: seq<Record>, slug: string): Option<string> {
    if claims == [] then None
    else
      var sample := claims[0].claim.id;
      if slug + ":" <= sample then None
      else match Text.Find(sample, ':')
        case None => None
        case Some(i) => if sample[..i] == slug then None else Some(sample[..i + 1])
  }

  /** The prefix is what stands before the first colon of the first claim's id, with the colon, unless that is the slug
      or the id is under the slug already. */
  lemma OldPrefixMeans(claims: seq<Record>, slug: string, head: string, rest: string)
    ensures claims == [] ==> OldPrefix(claims, slug) == None
    ensures claims != [] && ':' !in claims[0].claim.id ==> OldPrefix(claims, slug) == None
    ensures claims != [] && ':' !in head && claims[0].claim.id == head + ":" + rest ==>
              OldPrefix(claims, slug) == if head == slug || slug + ":" <= claims[0].claim.id then None else Some(head + ":")
  {
    if claims != [] && ':' !in head && claims[0].claim.id == head + ":" + rest {
      Text.FindIn(head, ':', rest);
      assert claims[0].claim.id[..|head|] == head && claims[0].claim.id[..|head| + 1] == head + ":";
    }
    if claims != [] && ':' !in claims[0].claim.id {
      assert slug + ":" <= claims[0].claim.id ==> (slug + ":")[|slug|] == claims[0].claim.id[|slug|];
    }
  }

  function Rewrite(s: string, old_: string, new_: string): string {
    if old_ <= s then new_ + s[|old_|..] else s
  }

  function RewriteAll(ts: seq<string>, old_: string, new_: string): (r: seq<string>)
    ensures |r| == |ts|
  {
    seq(|ts|, i requires 0 <= i < |ts| => Rewrite(ts[i], old_, new_))
  }

  function RewriteClaim(c: Claim, old_: string, new_: string): Claim {
    Claim(Rewrite(c.id, old_, new_), RewriteAll(c.dependsOn, old_, new_), RewriteAll(c.supports, old_, new_),
          RewriteAll(c.contradicts, old_, new_), RewriteAll(c.extensions, old_, new_))
  }

  function RewriteRecord(r: Record, old_: string, slug: string): Record {
    Record(RewriteClaim(r.claim, old_, slug + ":"), Some(slug))
  }

  function RewriteRecords(rs: seq<Record>, old_: string, slug: string): (r: seq<Record>)
    ensures |r| == |rs|
  {
    seq(|rs|, i requires 0 <= i < |rs| => RewriteRecord(rs[i], old_, slug))
  }

  /** Differences are counted once each: places in lists, the id, and the owner. */
  lemma {:induction false} DifferencesMean<T>(a: seq<T>, b: seq<T>)
    requires |a| == |b|
    ensures Differences(a, b) == |DifferentPlaces(a, b)|
  {
    if a != [] {
      var n := |a| - 1;
      DifferencesMean(a[..n], b[..n]);
      assert DifferentPlaces(a, b) == DifferentPlaces(a[..n], b[..n]) + if a[n] != b[n] then {n} else {};
    }
  }

  ghost function DifferentPlaces<T>(a: seq<T>, b: seq<T>): set<int>
    requires |a| == |b|
  {
    set i | 0 <= i < |a| && a[i] != b[i]
  }

  lemma RecordDifferencesMean(a: Record, id: Id, owner: Option<string>)
    ensures RecordDifferences(a, a) == 0
    ensures id != a.claim.id ==> RecordDifferences(a, Record(a.claim.(id := id), a.paperId)) == 1
    ensures owner != a.paperId ==> RecordDifferences(a, Record(a.claim, owner)) == 1
  {
    SameListsDoNotDiffer(a.claim.dependsOn);
    SameListsDoNotDiffer(a.claim.supports);
    SameListsDoNotDiffer(a.claim.contradicts);
    SameListsDoNotDiffer(a.claim.extensions);
  }

  /** A string under the old prefix goes to the same place under the new one; others stay. */
  lemma RewriteMeans(old_: string, new_: string, x: string, s: string)
    ensures Rewrite(old_ + x, old_, new_) == new_ + x
    ensures (forall y :: s != old_ + y) ==> Rewrite(s, old_, new_) == s
  {
    if old_ <= s {
      assert s == old_ + s[|old_|..];
    }
  }

  ghost predicate AllRewritten(before: seq<string>, after: seq<string>, old_: string, new_: string) {
    |after| == |before| && forall i :: 0 <= i < |after| ==> after[i] == Rewrite(before[i], old_, new_)
  }

  /** The whole effect on a file: every claim belongs to the slug, and every id, every end of an edge and every target of
      an annotation has its prefix exchanged. */
  lemma CanonicalMeans(claims: seq<Record>, targets: seq<string>, slug: string, p: string, i: nat)
    requires OldPrefix(claims, slug) == Some(p) && i < |claims|
    ensures |Canonical(claims, targets, slug).0| == |claims|
    ensures var before, after, to := claims[i].claim, Canonical(claims, targets, slug).0[i], slug + ":";
            && after.paperId == Some(slug)
            && after.claim.id == Rewrite(before.id, p, to)
            && AllRewritten(before.dependsOn, after.claim.dependsOn, p, to)
            && AllRewritten(before.supports, after.claim.supports, p, to)
            && AllRewritten(before.contradicts, after.claim.contradicts, p, to)
            && AllRewritten(before.extensions, after.claim.extensions, p, to)
    ensures AllRewritten(targets, Canonical(claims, targets, slug).1, p, slug + ":")
  {
    hide Rewrite, OldPrefix;
  }

  /** Without a prefix to exchange the file stays as it is. */
  lemma NothingToRewrite(claims: seq<Record>, targets: seq<string>, slug: string)
    requires OldPrefix(claims, slug) == None
    ensures Canonical(claims, targets, slug) == (claims, targets)
  {
  }

  /** The number of places at which two lists of the same length differ. */
  function Differences<T(==)>(a: seq<T>, b: seq<T>): nat
    requires |a| == |b|
  {
    if a == [] then 0
    else Differences(a[..|a| - 1], b[..|b| - 1]) + if a[|a| - 1] != b[|b| - 1] then 1 else 0
  }

  predicate SameShape(a: Claim, b: Claim) {
    |a.dependsOn| == |b.dependsOn| && |a.supports| == |b.supports|
    && |a.contradicts| == |b.contradicts| && |a.extensions| == |b.extensions|
  }

  /** The number of string fields and list positions in which two records differ. */
  function RecordDifferences(a: Record, b: Record): nat
    requires SameShape(a.claim, b.claim)
  {
    (if a.claim.id != b.claim.id then 1 else 0) + (if a.paperId != b.paperId then 1 else 0)
    + Differences(a.claim.dependsOn, b.claim.dependsOn) + Differences(a.claim.supports, b.claim.supports)
    + Differences(a.claim.contradicts, b.claim.contradicts) + Differences(a.claim.extensions, b.claim.extensions)
  }

  ghost predicate SameShapes(a: seq<Record>, b: seq<Record>) {
    |a| == |b| && forall i :: 0 <= i < |a| ==> SameShape(a[i].claim, b[i].claim)
  }

  ghost function TotalDifferences(a: seq<Record>, b: seq<Record>): nat
    requires SameShapes(a, b)
  {
    if a == [] then 0
    else TotalDifferences(a[..|a| - 1], b[..|b| - 1]) + RecordDifferences(a[|a| - 1], b[|b| - 1])
  }

  /** What one call leaves behind: the claims and the annotation targets. */
  ghost function Canonical(claims: seq<Record>, targets: seq<string>, slug: string): (seq<Record>, seq<string>) {
    match OldPrefix(claims, slug)
    case None => (claims, targets)
    case Some(p) => (RewriteRecords(claims, p, slug), RewriteAll(targets, p, slug + ":"))
  }

  /** The two parts of a record file the rewriting touches: claims and annotation targets. */
  class Cir {
    var claims: seq<Record>
    var targets: seq<string>

    constructor (claims: seq<Record>, targets: seq<string>)
      ensures this.claims == claims && this.targets == targets
    {
      this.claims, this.targets := claims, targets;
    }

    method Canonicalise(slug: string) returns (n: nat)
      modifies this
      ensures (claims, targets) == Canonical(old(claims), old(targets), slug)
      ensures SameShapes(old(claims), claims) && |targets| == |old(targets)|
      ensures n == TotalDifferences(old(claims), claims) + Differences(old(targets), targets)
    {
      NoDifference(claims);
      SameListsDoNotDiffer(targets);
      if claims == [] {
        return 0;
      }
      var sample := claims[0].claim.id;
      if slug + ":" <= sample {
        return 0;
      }
      var colon := Text.Find(sample, ':');
      if colon == None {
        return 0;
      }
      var prefix := sample[..colon.value];
      if prefix == slug {
        return 0;
      }
      var old_, new_ := prefix + ":", slug + ":";
      assert old_ == sample[..colon.value + 1];
      var m := RewriteClaims(old_, slug);
      var k := RewriteTargets(old_, new_);
      n := m + k;
    }

    method RewriteClaims(old_: string, slug: string) returns (n: nat)
      requires old_ != slug + ":"
      modifies this`claims
      ensures claims == RewriteRecords(old(claims), old_, slug) && SameShapes(old(claims), claims)
      ensures n == TotalDifferences(old(claims), claims)
    {
      hide TotalDifferences, RecordDifferences, SameShape, RewriteRecord;
      ghost var before := claims;
      n := 0;
      NoDifference([]);
      for i := 0 to |claims|
        invariant |claims| == |before|
        invariant claims == RewriteRecords(before[..i], old_, slug) + before[i..]
        invariant SameShapes(before[..i], RewriteRecords(before[..i], old_, slug))
        invariant n == TotalDifferences(before[..i], RewriteRecords(before[..i], old_, slug))
      {
        assert before[..i + 1] == before[..i] + [before[i]];
        assert claims[i] == before[i];
        var r, k := RewriteOne(claims[i], old_, slug);
        RewriteRecordsSnoc(before[..i], before[i], old_, slug);
        InPlace(RewriteRecords(before[..i], old_, slug), before, i, r);
        claims := claims[i := r];
        n := n + k;
      }
      assert before[..|before|] == before;
    }

    static lemma InPlace<T>(done: seq<T>, before: seq<T>, i: nat, x: T)
      requires |done| == i < |before|
      ensures (done + before[i..])[i := x] == (done + [x]) + before[i + 1..]
    {
    }

    method RewriteTargets(old_: string, new_: string) returns (n: nat)
      requires old_ != new_
      modifies this`targets
      ensures targets == RewriteAll(old(targets), old_, new_)
      ensures n == Differences(old(targets), targets)
    {
      hide Rewrite, Differences;
      ghost var before := targets;
      n := 0;
      SameListsDoNotDiffer<string>([]);
      for i := 0 to |targets|
        invariant |targets| == |before|
        invariant targets == RewriteAll(before[..i], old_, new_) + before[i..]
        invariant n == Differences(before[..i], RewriteAll(before[..i], old_, new_))
      {
        assert before[..i + 1] == before[..i] + [before[i]];
        assert targets[i] == before[i];
        RewriteAllSnoc(before[..i], before[i], old_, new_);
        RewriteChanges(before[i], old_, new_);
        InPlace(RewriteAll(before[..i], old_, new_), before, i, Rewrite(before[i], old_, new_));
        if old_ <= targets[i] {
          targets := targets[i := Rewrite(targets[i], old_, new_)];
          n := n + 1;
        } else {
          assert targets[i := before[i]] == targets;
        }
      }
      assert before[..|before|] == before;
    }

    /** The body of the claim loop, for one claim. */
    static method RewriteOne(r: Record, old_: string, slug: string) returns (out: Record, n: nat)
      requires old_ != slug + ":"
      ensures out == RewriteRecord(r, old_, slug)
      ensures SameShape(r.claim, out.claim)
      ensures n == RecordDifferences(r, out)
    {
      var new_ := slug + ":";
      out, n := r, 0;
      RewriteChanges(r.claim.id, old_, new_);
      if old_ <= r.claim.id {
        out := out.(claim := out.claim.(id := Rewrite(r.claim.id, old_, new_)));
        n := n + 1;
      }
      if r.paperId != Some(slug) {
        out := out.(paperId := Some(slug));
        n := n + 1;
      }
      var d, dn := RewriteEdges(r.claim.dependsOn, old_, new_);
      var s, sn := RewriteEdges(r.claim.supports, old_, new_);
      var c, cn := RewriteEdges(r.claim.contradicts, old_, new_);
      var e, en := RewriteEdges(r.claim.extensions, old_, new_);
      out := out.(claim := Claim(out.claim.id, d, s, c, e));
      n := n + dn + sn + cn + en;
    }

    static method RewriteEdges(edges: seq<string>, old_: string, new_: string) returns (out: seq<string>, n: nat)
      ensures out == RewriteAll(edges, old_, new_)
      ensures n == Differences(edges, out)
    {
      SameListsDoNotDiffer(edges);
      out, n := edges, 0;
      if edges != [] {
        var newEdges := RewriteAll(edges, old_, new_);
        if newEdges != edges {
          out := newEdges;
          n := Differences(edges, newEdges);
        }
      }
    }
  }

  lemma RewriteAllSnoc(ts: seq<string>, t: string, old_: string, new_: string)
    ensures RewriteAll(ts + [t], old_, new_) == RewriteAll(ts, old_, new_) + [Rewrite(t, old_, new_)]
    ensures Differences(ts + [t], RewriteAll(ts + [t], old_, new_))
         == Differences(ts, RewriteAll(ts, old_, new_)) + if t != Rewrite(t, old_, new_) then 1 else 0
  {
    assert (ts + [t])[..|ts|] == ts;
    assert RewriteAll(ts + [t], old_, new_)[..|ts|] == RewriteAll(ts, old_, new_);
  }

  lemma RewriteRecordsSnoc(rs: seq<Record>, r: Record, old_: string, slug: string)
    requires SameShapes(rs, RewriteRecords(rs, old_, slug))
    ensures RewriteRecords(rs + [r], old_, slug) == RewriteRecords(rs, old_, slug) + [RewriteRecord(r, old_, slug)]
    ensures SameShape(r.claim, RewriteRecord(r, old_, slug).claim)
    ensures SameShapes(rs + [r], RewriteRecords(rs + [r], old_, slug))
    ensures TotalDifferences(rs + [r], RewriteRecords(rs + [r], old_, slug))
         == TotalDifferences(rs, RewriteRecords(rs, old_, slug)) + RecordDifferences(r, RewriteRecord(r, old_, slug))
  {
    var more := RewriteRecords(rs + [r], old_, slug);
    assert (rs + [r])[..|rs|] == rs;
    assert more == RewriteRecords(rs, old_, slug) + [RewriteRecord(r, old_, slug)];
    assert more[..|rs|] == RewriteRecords(rs, old_, slug);
  }

  /** Rewriting changes exactly the strings that carry the old prefix. */
  lemma RewriteChanges(s: string, old_: string, new_: string)
    requires old_ != new_
    ensures Rewrite(s, old_, new_) != s <==> old_ <= s
  {
    if old_ <= s {
      assert Rewrite(s, old_, new_)[..|new_|] == new_;
      assert s[..|old_|] == old_;
    }
  }

  lemma {:induction false} SameListsDoNotDiffer<T>(a: seq<T>)
    ensures Differences(a, a) == 0
  {
    if a != [] {
      SameListsDoNotDiffer(a[..|a| - 1]);
    }
  }

  lemma {:induction false} NoDifference(a: seq<Record>)
    ensures SameShapes(a, a) && TotalDifferences(a, a) == 0
  {
    if a != [] {
      NoDifference(a[..|a| - 1]);
      var c := a[|a| - 1].claim;
      SameListsDoNotDiffer(c.dependsOn);
      SameListsDoNotDiffer(c.supports);
      SameListsDoNotDiffer(c.contradicts);
      SameListsDoNotDiffer(c.extensions);
    }
  }

  /** A second call never finds anything left to do, whatever the file held before the first one. */
  lemma SecondCallDoesNothing(claims: seq<Record>, targets: seq<string>, slug: string)
    ensures var (claims', targets') := Canonical(claims, targets, slug);
            Canonical(claims', targets', slug) == (claims', targets')
    ensures OldPrefix(Canonical(claims, targets, slug).0, slug) == None
  {
    match OldPrefix(claims, slug)
    case None =>
    case Some(p) =>
      var sample := claims[0].claim.id;
      assert p <= sample;
      assert Rewrite(sample, p, slug + ":")[..|slug| + 1] == slug + ":";
  }

  /** Every id the claims declare or point to along one kind of edge. */
  ghost function Mentioned(claims: seq<Claim>, kind: Kind): set<Id> {
    ClaimIds(claims) + set p | p in ClaimArcs(claims, kind) :: p.1
  }

  function RewriteClaims(claims: seq<Claim>, old_: string, new_: string): (r: seq<Claim>)
    ensures |r| == |claims|
  {
    seq(|claims|, i requires 0 <= i < |claims| => RewriteClaim(claims[i], old_, new_))
  }

  ghost function Renaming(ids: set<Id>, old_: string, new_: string): map<Id, Id> {
    map s | s in ids :: Rewrite(s, old_, new_)
  }

  /** No rewritten id lands on an id that is left alone. */
  ghost predicate NoClash(ids: set<Id>, old_: string, new_: string) {
    forall s, t :: s in ids && t in ids && old_ <= s && !(old_ <= t) ==> t != new_ + s[|old_|..]
  }

  /** The rewriting keeps ids apart exactly when no rewritten id lands on one that is left alone. */
  lemma RenamingInjectiveIffNoClash(ids: set<Id>, old_: string, new_: string)
    ensures Injective(Renaming(ids, old_, new_)) <==> NoClash(ids, old_, new_)
  {
    var m := Renaming(ids, old_, new_);
    if NoClash(ids, old_, new_) {
      forall a, b | a in m && b in m && m[a] == m[b] ensures a == b {
        if old_ <= a && old_ <= b {
          assert (new_ + a[|old_|..])[|new_|..] == a[|old_|..];
          assert (new_ + b[|old_|..])[|new_|..] == b[|old_|..];
          assert a == old_ + a[|old_|..] && b == old_ + b[|old_|..];
        }
      }
    }
    if Injective(m) {
      forall s, t | s in ids && t in ids && old_ <= s && !(old_ <= t) ensures t != new_ + s[|old_|..] {
        assert s in m && t in m && m[t] == t;
      }
    }
  }

  /** Own ids that carry the old prefix and foreign ids that carry neither prefix never clash. */
  lemma SeparatedIdsDoNotClash(own: set<Id>, foreign: set<Id>, old_: string, new_: string)
    requires forall s :: s in own ==> old_ <= s
    requires forall t :: t in foreign ==> !(old_ <= t) && !(new_ <= t)
    ensures NoClash(own + foreign, old_, new_)
  {
    forall s, t | s in own + foreign && t in own + foreign && old_ <= s && !(old_ <= t)
      ensures t != new_ + s[|old_|..]
    {
      assert new_ <= new_ + s[|old_|..];
    }
  }

  lemma ArcIsRewritten(claims: seq<Claim>, kind: Kind, old_: string, new_: string, a: Id, b: Id)
    requires (a, b) in ClaimArcs(claims, kind)
    ensures a in Mentioned(claims, kind) && b in Mentioned(claims, kind)
    ensures (Rewrite(a, old_, new_), Rewrite(b, old_, new_)) in ClaimArcs(RewriteClaims(claims, old_, new_), kind)
  {
    var c, t :| c in claims && t in Targets(c, kind) && (a, b) == (c.id, t);
    assert (a, b).1 == b;
    var i :| 0 <= i < |claims| && claims[i] == c;
    var d := RewriteClaims(claims, old_, new_)[i];
    var j :| 0 <= j < |Targets(c, kind)| && Targets(c, kind)[j] == t;
    assert Targets(d, kind)[j] == Rewrite(t, old_, new_);
  }

  lemma RewrittenArcHasOrigin(claims: seq<Claim>, kind: Kind, old_: string, new_: string, x: Id, y: Id)
    returns (a: Id, b: Id)
    requires (x, y) in ClaimArcs(RewriteClaims(claims, old_, new_), kind)
    ensures (a, b) in ClaimArcs(claims, kind) && Rewrite(a, old_, new_) == x && Rewrite(b, old_, new_) == y
  {
    var after := RewriteClaims(claims, old_, new_);
    var d, u :| d in after && u in Targets(d, kind) && (x, y) == (d.id, u);
    var i :| 0 <= i < |claims| && after[i] == d;
    var j :| 0 <= j < |Targets(d, kind)| && Targets(d, kind)[j] == u;
    a, b := claims[i].id, Targets(claims[i], kind)[j];
  }

  lemma RewrittenArcs(claims: seq<Claim>, kind: Kind, old_: string, new_: string)
    ensures IsRenaming(ClaimArcs(claims, kind), Renaming(Mentioned(claims, kind), old_, new_),
                       ClaimArcs(RewriteClaims(claims, old_, new_), kind))
  {
    hide ClaimArcs, RewriteClaims, Rewrite, Mentioned;
    var r, s := ClaimArcs(claims, kind), ClaimArcs(RewriteClaims(claims, old_, new_), kind);
    var m := Renaming(Mentioned(claims, kind), old_, new_);
    forall a, b | (a, b) in r ensures a in m && b in m && (m[a], m[b]) in s {
      ArcIsRewritten(claims, kind, old_, new_, a, b);
    }
    forall x, y | (x, y) in s ensures exists a, b :: (a, b) in r && a in m && b in m && m[a] == x && m[b] == y {
      var a, b := RewrittenArcHasOrigin(claims, kind, old_, new_, x, y);
      ArcIsRewritten(claims, kind, old_, new_, a, b);
    }
  }

  /** Where no ids clash the rewriting is an isomorphism of the claim graph: what is reachable from a
      rewritten id is exactly the rewritten form of what was reachable, at every depth. */
  lemma RewritingKeepsReach(claims: seq<Claim>, kind: Kind, old_: string, new_: string, a: Id, depth: Option<int>)
    requires NoClash(Mentioned(claims, kind), old_, new_) && a in Mentioned(claims, kind)
    ensures forall b :: b in Mentioned(claims, kind) ==>
              (Within(ClaimArcs(claims, kind), a, b, depth)
          <==> Within(ClaimArcs(RewriteClaims(claims, old_, new_), kind), Rewrite(a, old_, new_), Rewrite(b, old_, new_), depth))
    ensures forall y :: Within(ClaimArcs(RewriteClaims(claims, old_, new_), kind), Rewrite(a, old_, new_), y, depth)
              ==> exists b :: b in Mentioned(claims, kind) && Rewrite(b, old_, new_) == y
  {
    var m := Renaming(Mentioned(claims, kind), old_, new_);
    RenamingInjectiveIffNoClash(Mentioned(claims, kind), old_, new_);
    RewrittenArcs(claims, kind, old_, new_);
    RenamingKeepsReach(ClaimArcs(claims, kind), m, ClaimArcs(RewriteClaims(claims, old_, new_), kind), a, depth);
  }

  /** Internal edges stay internal and foreign targets stay as they are. */
  lemma InternalStaysInternal(claims: seq<Claim>, kind: Kind, old_: string, new_: string, t: Id)
    requires t in Mentioned(claims, kind)
    requires forall s :: s in ClaimIds(claims) ==> old_ <= s
    requires forall s :: s in Mentioned(claims, kind) - ClaimIds(claims) ==> !(old_ <= s) && !(new_ <= s)
    ensures NoClash(Mentioned(claims, kind), old_, new_)
    ensures t in ClaimIds(claims) <==> Rewrite(t, old_, new_) in ClaimIds(RewriteClaims(claims, old_, new_))
    ensures t !in ClaimIds(claims) ==> Rewrite(t, old_, new_) == t
  {
    var own := ClaimIds(claims);
    var foreign := Mentioned(claims, kind) - own;
    SeparatedIdsDoNotClash(own, foreign, old_, new_);
    assert own + foreign == Mentioned(claims, kind);
    var after := RewriteClaims(claims, old_, new_);
    if t in own {
      var c :| c in claims && c.id == t;
      var i :| 0 <= i < |claims| && claims[i] == c;
      assert after[i].id == Rewrite(t, old_, new_);
    }
  }

  function ClaimsOf(rs: seq<Record>): (r: seq<Claim>)
    ensures |r| == |rs|
  {
    seq(|rs|, i requires 0 <= i < |rs| => rs[i].claim)
  }

  /** The same for the whole call: after it, the dependencies of a renamed id are the renamed dependencies. */
  lemma CanonicalGraphIsIsomorphic(records: seq<Record>, targets: seq<string>, slug: string, p: string,
                                   kind: Kind, a: Id, depth: Option<int>)
    requires OldPrefix(records, slug) == Some(p)
    requires NoClash(Mentioned(ClaimsOf(records), kind), p, slug + ":") && a in Mentioned(ClaimsOf(records), kind)
    ensures var before := ClaimArcs(ClaimsOf(records), kind);
            var after := ClaimArcs(ClaimsOf(Canonical(records, targets, slug).0), kind);
            && (forall b :: b in Mentioned(ClaimsOf(records), kind) ==>
                  (Within(before, a, b, depth) <==> Within(after, Rewrite(a, p, slug + ":"), Rewrite(b, p, slug + ":"), depth)))
            && (forall y :: Within(after, Rewrite(a, p, slug + ":"), y, depth)
                  ==> exists b :: b in Mentioned(ClaimsOf(records), kind) && Rewrite(b, p, slug + ":") == y)
  {
    assert ClaimsOf(Canonical(records, targets, slug).0) == RewriteClaims(ClaimsOf(records), p, slug + ":");
    RewritingKeepsReach(ClaimsOf(records), kind, p, slug + ":", a, depth);
  }

  /** In a file that is already keyed by some other slug the prefix is read as the bare scheme name,
      and every edge to a foreign paper is rewritten along with the own ids. */
  lemma SlugKeyedFileDragsForeignEdges(records: seq<Record>, slug: string, t: Id)
    requires records != [] && "rrxiv:" <= records[0].claim.id && !(slug + ":" <= records[0].claim.id)
    requires slug != "rrxiv" && "rrxiv:" <= t
    ensures OldPrefix(records, slug) == Some("rrxiv:")
    ensures Rewrite(t, "rrxiv:", slug + ":") != t
  {
    var sample := records[0].claim.id;
    assert sample[..6] == "rrxiv:";
    assert sample[5] == ':';
    assert forall k :: 0 <= k < 5 ==> sample[k] == "rrxiv:"[k] && sample[k] != ':';
    var i := Text.Find(sample, ':');
    assert i.Some? && i.value == 5;
    assert sample[..5] == "rrxiv";
    RewriteChanges(t, "rrxiv:", slug + ":");
  }
}

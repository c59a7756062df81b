/** Resolving the endpoints of sidecar edges and handing the edges to the claim records they start from. */
module EdgeResolution {
  import opened Wrappers
  import opened Text

  /** A TeX environment: its name, label (empty when absent), fallback index, and whether its statement is
      non-empty once cleaned. */
  datatype Env = Env(name: string, labelText: string, index: string, speaks: bool)

  datatype Kind = DependsOn | Supports | Contradicts | Extends

  datatype Edge = Edge(kind: Kind, source: string, target: string)

  type Resolver = map<string, string>

  function Suffix(labelText: string): string {
    match Find(labelText, ':')
    case None => labelText
    case Some(i) => labelText[i + 1..]
  }

  /** What stands behind the first colon, or a label without colons as a whole. */
  lemma SuffixMeans(kind: string, s: string)
    ensures ':' !in kind ==> Suffix(kind + ":" + s) == s
    ensures ':' !in s ==> Suffix(s) == s
  {
    if ':' !in kind {
      FindIn(kind, ':', s);
      assert (kind + ":" + s)[|kind| + 1..] == s;
    }
  }

  function Canonical(paperId: string, name: string): string {
    paperId + ":" + name
  }

  predicate IsClaim(e: Env) {
    e.name == "claim"
  }

  /** Full labels of all environments. */
  function ByFull(envs: seq<Env>, paperId: string): Resolver {
    if envs == [] then map[]
    else
      var m, e := ByFull(envs[..|envs| - 1], paperId), envs[|envs| - 1];
      if e.labelText == "" then m else m[e.labelText := Canonical(paperId, e.labelText)]
  }

  /** Label suffixes of claims; the last claim with a suffix wins. */
  function ByClaimSuffix(envs: seq<Env>, paperId: string): Resolver {
    if envs == [] then map[]
    else
      var m, e := ByClaimSuffix(envs[..|envs| - 1], paperId), envs[|envs| - 1];
      if e.labelText == "" || !IsClaim(e) then m else m[Suffix(e.labelText) := Canonical(paperId, e.labelText)]
  }

  /** Label suffixes of all other environments; the first one wins. */
  function ByOtherSuffix(envs: seq<Env>, paperId: string): Resolver {
    if envs == [] then map[]
    else
      var m, e := ByOtherSuffix(envs[..|envs| - 1], paperId), envs[|envs| - 1];
      if e.labelText == "" || IsClaim(e) || Suffix(e.labelText) in m then m
      else m[Suffix(e.labelText) := Canonical(paperId, e.labelText)]
  }

  function ResolverOf(envs: seq<Env>, paperId: string): Resolver {
    ByOtherSuffix(envs, paperId) + ByClaimSuffix(envs, paperId) + ByFull(envs, paperId)
  }

  method BuildLabelResolver(envs: seq<Env>, paperId: string) returns (r: Resolver)
    ensures r == ResolverOf(envs, paperId)
  {
    var byFull, bySuffixClaims, bySuffixOther: Resolver := map[], map[], map[];
    for i := 0 to |envs|
      invariant byFull == ByFull(envs[..i], paperId)
      invariant bySuffixClaims == ByClaimSuffix(envs[..i], paperId)
      invariant bySuffixOther == ByOtherSuffix(envs[..i], paperId)
    {
      assert envs[..i + 1][..i] == envs[..i];
      var env := envs[i];
      if env.labelText == "" {
        continue;
      }
      var canonical := Canonical(paperId, env.labelText);
      byFull := byFull[env.labelText := canonical];
      var suffix := Suffix(env.labelText);
      if env.name == "claim" {
        bySuffixClaims := bySuffixClaims[suffix := canonical];
      } else if suffix !in bySuffixOther {
        bySuffixOther := bySuffixOther[suffix := canonical];
      }
    }
    assert envs[..|envs|] == envs;
    r := bySuffixOther + bySuffixClaims + byFull;
  }

  function Resolve(raw: string, paperId: string, resolver: Resolver): string {
    if paperId + ":" <= raw then raw
    else if raw in resolver then resolver[raw]
    else if Find(raw, ':').Some? && raw[..Find(raw, ':').value] != paperId then raw
    else Canonical(paperId, raw)
  }

  lemma {:induction false} ResolverValuesAreCanonical(envs: seq<Env>, paperId: string)
    ensures forall k :: k in ByFull(envs, paperId) ==> paperId + ":" <= ByFull(envs, paperId)[k]
    ensures forall k :: k in ByClaimSuffix(envs, paperId) ==> paperId + ":" <= ByClaimSuffix(envs, paperId)[k]
    ensures forall k :: k in ByOtherSuffix(envs, paperId) ==> paperId + ":" <= ByOtherSuffix(envs, paperId)[k]
  {
    if envs != [] {
      ResolverValuesAreCanonical(envs[..|envs| - 1], paperId);
    }
  }

  /** Resolving a resolved endpoint changes nothing, for every string and every set of environments. */
  lemma ResolveIdempotent(raw: string, envs: seq<Env>, paperId: string)
    ensures var r := ResolverOf(envs, paperId);
            Resolve(Resolve(raw, paperId, r), paperId, r) == Resolve(raw, paperId, r)
  {
    ResolverValuesAreCanonical(envs, paperId);
  }

  lemma {:induction false} FullLabels(envs: seq<Env>, paperId: string, k: string)
    ensures k in ByFull(envs, paperId) <==> k != "" && exists e :: e in envs && e.labelText == k
    ensures k in ByFull(envs, paperId) ==> ByFull(envs, paperId)[k] == Canonical(paperId, k)
  {
    if envs != [] {
      FullLabels(envs[..|envs| - 1], paperId, k);
      assert envs == envs[..|envs| - 1] + [envs[|envs| - 1]];
    }
  }

  /** The last environment that satisfies the claim test and has the suffix. */
  ghost predicate LastClaimWith(envs: seq<Env>, i: nat, s: string) {
    && i < |envs| && IsClaim(envs[i]) && envs[i].labelText != "" && Suffix(envs[i].labelText) == s
    && forall j :: i < j < |envs| && IsClaim(envs[j]) && envs[j].labelText != "" ==> Suffix(envs[j].labelText) != s
  }

  ghost predicate FirstOtherWith(envs: seq<Env>, i: nat, s: string) {
    && i < |envs| && !IsClaim(envs[i]) && envs[i].labelText != "" && Suffix(envs[i].labelText) == s
    && forall j :: 0 <= j < i && !IsClaim(envs[j]) && envs[j].labelText != "" ==> Suffix(envs[j].labelText) != s
  }

  lemma {:induction false} ClaimSuffixIsLast(envs: seq<Env>, paperId: string, i: nat, s: string)
    requires LastClaimWith(envs, i, s)
    ensures s in ByClaimSuffix(envs, paperId) && ByClaimSuffix(envs, paperId)[s] == Canonical(paperId, envs[i].labelText)
  {
    if i < |envs| - 1 {
      ClaimSuffixIsLast(envs[..|envs| - 1], paperId, i, s);
    }
  }

  lemma {:induction false} NoClaimSuffix(envs: seq<Env>, paperId: string, s: string)
    requires forall j :: 0 <= j < |envs| && IsClaim(envs[j]) && envs[j].labelText != "" ==> Suffix(envs[j].labelText) != s
    ensures s !in ByClaimSuffix(envs, paperId)
  {
    if envs != [] {
      NoClaimSuffix(envs[..|envs| - 1], paperId, s);
    }
  }

  lemma {:induction false} NoOtherSuffix(envs: seq<Env>, paperId: string, s: string)
    requires forall j :: 0 <= j < |envs| && !IsClaim(envs[j]) && envs[j].labelText != "" ==> Suffix(envs[j].labelText) != s
    ensures s !in ByOtherSuffix(envs, paperId)
  {
    if envs != [] {
      NoOtherSuffix(envs[..|envs| - 1], paperId, s);
    }
  }

  lemma {:induction false} OtherSuffixIsFirst(envs: seq<Env>, paperId: string, i: nat, s: string)
    requires FirstOtherWith(envs, i, s)
    ensures s in ByOtherSuffix(envs, paperId) && ByOtherSuffix(envs, paperId)[s] == Canonical(paperId, envs[i].labelText)
  {
    if i < |envs| - 1 {
      OtherSuffixIsFirst(envs[..|envs| - 1], paperId, i, s);
    } else {
      NoOtherSuffix(envs[..i], paperId, s);
    }
  }

  /** A bare suffix that is no full label resolves to the last claim that carries it, whatever scopes, remarks or
      other environments share it; only where no claim does, to the first other environment. */
  lemma BareSuffixPrefersClaim(envs: seq<Env>, paperId: string, s: string, i: nat)
    requires !(paperId + ":" <= s) && forall e :: e in envs ==> e.labelText != s
    requires LastClaimWith(envs, i, s)
          || (FirstOtherWith(envs, i, s)
              && forall j :: 0 <= j < |envs| && IsClaim(envs[j]) && envs[j].labelText != "" ==> Suffix(envs[j].labelText) != s)
    ensures Resolve(s, paperId, ResolverOf(envs, paperId)) == Canonical(paperId, envs[i].labelText)
  {
    FullLabels(envs, paperId, s);
    if LastClaimWith(envs, i, s) {
      ClaimSuffixIsLast(envs, paperId, i, s);
    } else {
      OtherSuffixIsFirst(envs, paperId, i, s);
      NoClaimSuffix(envs, paperId, s);
    }
  }

  /** No label of the paper is the text or ends in it behind its first colon. */
  ghost predicate NoLabelIs(envs: seq<Env>, raw: string) {
    forall e :: e in envs && e.labelText != "" ==> e.labelText != raw && Suffix(e.labelText) != raw
  }

  /** An endpoint that is already an id of this paper stays; one that no label explains stays if it has a colon and so
      names another paper, and is taken for a name in this paper otherwise. */
  lemma UnknownEndpointMeans(envs: seq<Env>, paperId: string, raw: string, name: string)
    ensures Resolve(paperId + ":" + name, paperId, ResolverOf(envs, paperId)) == paperId + ":" + name
    ensures !(paperId + ":" <= raw) && NoLabelIs(envs, raw) ==>
              Resolve(raw, paperId, ResolverOf(envs, paperId)) == if ':' in raw then raw else paperId + ":" + raw
  {
    assert paperId + ":" <= paperId + ":" + name;
    if !(paperId + ":" <= raw) && NoLabelIs(envs, raw) {
      forall j | 0 <= j < |envs| && envs[j].labelText != "" ensures Suffix(envs[j].labelText) != raw {
        assert envs[j] in envs;
      }
      FullLabels(envs, paperId, raw);
      NoClaimSuffix(envs, paperId, raw);
      NoOtherSuffix(envs, paperId, raw);
      if ':' in raw {
        var i := Find(raw, ':').value;
        assert raw == raw[..i] + ":" + raw[i + 1..];
        assert raw[..i] == paperId ==> paperId + ":" <= raw;
      }
    }
  }

  /** A full label always resolves to its own environment, even where it is also another label's suffix. */
  lemma FullLabelWins(envs: seq<Env>, paperId: string, e: Env)
    requires e in envs && e.labelText != "" && !(paperId + ":" <= e.labelText)
    ensures Resolve(e.labelText, paperId, ResolverOf(envs, paperId)) == Canonical(paperId, e.labelText)
  {
    FullLabels(envs, paperId, e.labelText);
  }

  /** The environments that become claim records: all claims, then labelled scopes and remarks that say something. */
  function Claims(envs: seq<Env>): seq<Env> {
    if envs == [] then []
    else Claims(envs[..|envs| - 1]) + if IsClaim(envs[|envs| - 1]) then [envs[|envs| - 1]] else []
  }

  predicate IsFoundational(e: Env) {
    (e.name == "scope" || e.name == "rrxivremark") && e.labelText != "" && e.speaks
  }

  function Foundational(envs: seq<Env>): seq<Env> {
    if envs == [] then []
    else Foundational(envs[..|envs| - 1]) + if IsFoundational(envs[|envs| - 1]) then [envs[|envs| - 1]] else []
  }

  function ClaimId(paperId: string, e: Env): string {
    if e.labelText != "" then Canonical(paperId, e.labelText) else paperId + ":" + e.name + ":" + e.index
  }

  datatype Record = Record(id: string, dependsOn: seq<string>, supports: seq<string>, contradicts: seq<string>,
                           extensions: seq<string>)

  /** The resolved targets, in file order, of the edges of one kind whose resolved source is the id. */
  function TargetsFor(edges: seq<Edge>, id: string, kind: Kind, paperId: string, r: Resolver): seq<string> {
    if edges == [] then []
    else
      var front, e := TargetsFor(edges[..|edges| - 1], id, kind, paperId, r), edges[|edges| - 1];
      if Resolve(e.source, paperId, r) == id && e.kind == kind then front + [Resolve(e.target, paperId, r)] else front
  }

  predicate Belongs(e: Edge, id: string, kind: Kind, paperId: string, r: Resolver) {
    Resolve(e.source, paperId, r) == id && e.kind == kind
  }

  /** An edge stands in its list behind the edges of the list that come before it in the file. */
  lemma {:induction false} EdgeStandsInOrder(edges: seq<Edge>, i: nat, id: string, kind: Kind, paperId: string,
                                             r: Resolver)
    requires i < |edges| && Belongs(edges[i], id, kind, paperId, r)
    ensures var listed, before := TargetsFor(edges, id, kind, paperId, r), TargetsFor(edges[..i], id, kind, paperId, r);
            |before| < |listed| && listed[|before|] == Resolve(edges[i].target, paperId, r)
  {
    hide Resolve;
    if i < |edges| - 1 {
      assert edges[..|edges| - 1][..i] == edges[..i];
      EdgeStandsInOrder(edges[..|edges| - 1], i, id, kind, paperId, r);
    }
  }

  /** Every place in a list is that of exactly such an edge. */
  lemma {:induction false} OnlyEdgesAreListed(edges: seq<Edge>, k: nat, id: string, kind: Kind, paperId: string,
                                              r: Resolver) returns (i: nat)
    requires k < |TargetsFor(edges, id, kind, paperId, r)|
    ensures i < |edges| && Belongs(edges[i], id, kind, paperId, r) && |TargetsFor(edges[..i], id, kind, paperId, r)| == k
  {
    hide Resolve;
    var n := |edges| - 1;
    if k < |TargetsFor(edges[..n], id, kind, paperId, r)| {
      i := OnlyEdgesAreListed(edges[..n], k, id, kind, paperId, r);
      assert edges[..n][..i] == edges[..i];
    } else {
      i := n;
    }
  }

  function RecordFor(edges: seq<Edge>, id: string, paperId: string, r: Resolver): Record {
    Record(id, TargetsFor(edges, id, DependsOn, paperId, r), TargetsFor(edges, id, Supports, paperId, r),
           TargetsFor(edges, id, Contradicts, paperId, r), TargetsFor(edges, id, Extends, paperId, r))
  }

  /** Each kind of edge has its own list. */
  lemma RecordForMeans(edges: seq<Edge>, id: string, paperId: string, r: Resolver)
    ensures var rec := RecordFor(edges, id, paperId, r);
            && rec.id == id
            && rec.dependsOn == TargetsFor(edges, id, DependsOn, paperId, r)
            && rec.supports == TargetsFor(edges, id, Supports, paperId, r)
            && rec.contradicts == TargetsFor(edges, id, Contradicts, paperId, r)
            && rec.extensions == TargetsFor(edges, id, Extends, paperId, r)
  {
  }

  /** The ids records are emitted under, and which environments get one. */
  lemma EmittedMeans(envs: seq<Env>, paperId: string, e: Env)
    ensures e in Claims(envs) <==> e in envs && e.name == "claim"
    ensures e in Foundational(envs) <==>
      e in envs && e.name in {"scope", "rrxivremark"} && e.labelText != "" && e.speaks
    ensures ClaimId(paperId, e)
         == if e.labelText != "" then paperId + ":" + e.labelText else paperId + ":" + e.name + ":" + e.index
  {
    ClaimsMembers(envs, e);
    FoundationalMembers(envs, e);
  }

  lemma {:induction false} ClaimsMembers(envs: seq<Env>, e: Env)
    ensures e in Claims(envs) <==> e in envs && e.name == "claim"
  {
    if envs != [] {
      assert envs == envs[..|envs| - 1] + [envs[|envs| - 1]];
      ClaimsMembers(envs[..|envs| - 1], e);
    }
  }

  lemma {:induction false} FoundationalMembers(envs: seq<Env>, e: Env)
    ensures e in Foundational(envs) <==> e in envs && IsFoundational(e)
  {
    if envs != [] {
      assert envs == envs[..|envs| - 1] + [envs[|envs| - 1]];
      FoundationalMembers(envs[..|envs| - 1], e);
    }
  }

  /** Both lists keep the order of the document. */
  lemma {:induction false} EmittedInOrder(a: seq<Env>, b: seq<Env>)
    ensures Claims(a + b) == Claims(a) + Claims(b) && Foundational(a + b) == Foundational(a) + Foundational(b)
  {
    if b == [] {
      assert a + b == a;
    } else {
      var front := b[..|b| - 1];
      assert (a + b)[..|a + b| - 1] == a + front;
      EmittedInOrder(a, front);
    }
  }

  function RecordsFor(emitted: seq<Env>, edges: seq<Edge>, paperId: string, r: Resolver): (out: seq<Record>)
    ensures |out| == |emitted|
  {
    seq(|emitted|, i requires 0 <= i < |emitted| => RecordFor(edges, ClaimId(paperId, emitted[i]), paperId, r))
  }

  /** The edges whose resolved source is the id, in file order. */
  function From(edges: seq<Edge>, id: string, paperId: string, r: Resolver): seq<Edge> {
    if edges == [] then []
    else
      var front, e := From(edges[..|edges| - 1], id, paperId, r), edges[|edges| - 1];
      if Resolve(e.source, paperId, r) == id then front + [e] else front
  }

  method GroupEdges(edges: seq<Edge>, paperId: string, r: Resolver) returns (groups: map<string, seq<Edge>>)
    ensures forall id :: From(edges, id, paperId, r) == if id in groups then groups[id] else []
  {
    groups := map[];
    for i := 0 to |edges|
      invariant forall id :: From(edges[..i], id, paperId, r) == if id in groups then groups[id] else []
    {
      assert edges[..i + 1][..i] == edges[..i];
      var source := Resolve(edges[i].source, paperId, r);
      groups := groups[source := (if source in groups then groups[source] else []) + [edges[i]]];
    }
    assert edges[..|edges|] == edges;
  }

  function OfKind(edges: seq<Edge>, kind: Kind, paperId: string, r: Resolver): seq<string> {
    if edges == [] then []
    else
      var front, e := OfKind(edges[..|edges| - 1], kind, paperId, r), edges[|edges| - 1];
      if e.kind == kind then front + [Resolve(e.target, paperId, r)] else front
  }

  lemma {:induction false} TargetsAreOfKind(edges: seq<Edge>, id: string, kind: Kind, paperId: string, r: Resolver)
    ensures OfKind(From(edges, id, paperId, r), kind, paperId, r) == TargetsFor(edges, id, kind, paperId, r)
  {
    if edges != [] {
      TargetsAreOfKind(edges[..|edges| - 1], id, kind, paperId, r);
      var front, e := From(edges[..|edges| - 1], id, paperId, r), edges[|edges| - 1];
      assert (front + [e])[..|front + [e]| - 1] == front;
    }
  }

  method DistributeEdges(group: seq<Edge>, id: string, paperId: string, r: Resolver) returns (rec: Record)
    ensures rec == Record(id, OfKind(group, DependsOn, paperId, r), OfKind(group, Supports, paperId, r),
                          OfKind(group, Contradicts, paperId, r), OfKind(group, Extends, paperId, r))
  {
    var dependsOn, supports, contradicts, extensions: seq<string> := [], [], [], [];
    for i := 0 to |group|
      invariant dependsOn == OfKind(group[..i], DependsOn, paperId, r)
      invariant supports == OfKind(group[..i], Supports, paperId, r)
      invariant contradicts == OfKind(group[..i], Contradicts, paperId, r)
      invariant extensions == OfKind(group[..i], Extends, paperId, r)
    {
      assert group[..i + 1][..i] == group[..i];
      var target := Resolve(group[i].target, paperId, r);
      match group[i].kind {
        case DependsOn => dependsOn := dependsOn + [target];
        case Supports => supports := supports + [target];
        case Contradicts => contradicts := contradicts + [target];
        case Extends => extensions := extensions + [target];
      }
    }
    assert group[..|group|] == group;
    rec := Record(id, dependsOn, supports, contradicts, extensions);
  }

  method RecordsOf(emitted: seq<Env>, groups: map<string, seq<Edge>>, ghost edges: seq<Edge>, paperId: string, r: Resolver)
    returns (out: seq<Record>)
    requires forall id :: From(edges, id, paperId, r) == if id in groups then groups[id] else []
    ensures out == RecordsFor(emitted, edges, paperId, r)
  {
    hide TargetsFor, From, OfKind, Resolve;
    out := [];
    for i := 0 to |emitted|
      invariant |out| == i
      invariant forall j :: 0 <= j < i ==> out[j] == RecordFor(edges, ClaimId(paperId, emitted[j]), paperId, r)
    {
      var id := ClaimId(paperId, emitted[i]);
      var group := if id in groups then groups[id] else [];
      var rec := DistributeEdges(group, id, paperId, r);
      TargetsAreOfKind(edges, id, DependsOn, paperId, r);
      TargetsAreOfKind(edges, id, Supports, paperId, r);
      TargetsAreOfKind(edges, id, Contradicts, paperId, r);
      TargetsAreOfKind(edges, id, Extends, paperId, r);
      out := out + [rec];
    }
  }

  /** The edge fields of all records built from a paper's environments and sidecar edges. */
  method BuildClaimEdges(envs: seq<Env>, edges: seq<Edge>, paperId: string) returns (out: seq<Record>)
    ensures out == RecordsFor(Claims(envs) + Foundational(envs), edges, paperId, ResolverOf(envs, paperId))
  {
    hide ResolverOf, Claims, Foundational, From, RecordFor;
    var r := BuildLabelResolver(envs, paperId);
    var groups := GroupEdges(edges, paperId, r);
    var claims := RecordsOf(Claims(envs), groups, edges, paperId, r);
    var foundational := RecordsOf(Foundational(envs), groups, edges, paperId, r);
    out := claims + foundational;
  }

  function Count(rec: Record): nat {
    |rec.dependsOn| + |rec.supports| + |rec.contradicts| + |rec.extensions|
  }

  function TotalEdges(recs: seq<Record>): nat {
    if recs == [] then 0 else TotalEdges(recs[..|recs| - 1]) + Count(recs[|recs| - 1])
  }

  function Ids(emitted: seq<Env>, paperId: string): (r: seq<string>)
    ensures |r| == |emitted|
  {
    seq(|emitted|, i requires 0 <= i < |emitted| => ClaimId(paperId, emitted[i]))
  }

  /** How often an id is emitted. */
  function Multiplicity(ids: seq<string>, id: string): nat {
    if ids == [] then 0 else Multiplicity(ids[..|ids| - 1], id) + if ids[|ids| - 1] == id then 1 else 0
  }

  function Expected(ids: seq<string>, edges: seq<Edge>, paperId: string, r: Resolver): nat {
    if edges == [] then 0
    else Expected(ids, edges[..|edges| - 1], paperId, r) + Multiplicity(ids, Resolve(edges[|edges| - 1].source, paperId, r))
  }

  lemma {:induction false} NothingExpected(edges: seq<Edge>, paperId: string, r: Resolver)
    ensures Expected([], edges, paperId, r) == 0
  {
    if edges != [] {
      NothingExpected(edges[..|edges| - 1], paperId, r);
    }
  }

  lemma {:induction false} ExpectedSnoc(ids: seq<string>, id: string, edges: seq<Edge>, paperId: string, r: Resolver)
    ensures Expected(ids + [id], edges, paperId, r)
         == Expected(ids, edges, paperId, r) + Count(RecordFor(edges, id, paperId, r))
  {
    assert (ids + [id])[..|ids|] == ids;
    if edges != [] {
      hide Resolve;
      ExpectedSnoc(ids, id, edges[..|edges| - 1], paperId, r);
    }
  }

  /** Conservation: an edge is placed once for every emitted record whose id is its resolved source, and nowhere
      else; in particular it is placed exactly once when that id is emitted once, and dropped when it is not. */
  lemma {:induction false} EdgesAreConserved(emitted: seq<Env>, edges: seq<Edge>, paperId: string, r: Resolver)
    ensures TotalEdges(RecordsFor(emitted, edges, paperId, r)) == Expected(Ids(emitted, paperId), edges, paperId, r)
  {
    if emitted == [] {
      NothingExpected(edges, paperId, r);
    } else {
      var front, last := emitted[..|emitted| - 1], emitted[|emitted| - 1];
      var recs := RecordsFor(emitted, edges, paperId, r);
      assert recs[..|recs| - 1] == RecordsFor(front, edges, paperId, r);
      assert Ids(emitted, paperId) == Ids(front, paperId) + [ClaimId(paperId, last)];
      EdgesAreConserved(front, edges, paperId, r);
      ExpectedSnoc(Ids(front, paperId), ClaimId(paperId, last), edges, paperId, r);
    }
  }

  lemma {:induction false} DistinctIdsOccurOnce(ids: seq<string>, id: string)
    requires forall i, j :: 0 <= i < j < |ids| ==> ids[i] != ids[j]
    ensures Multiplicity(ids, id) == if id in ids then 1 else 0
  {
    if ids != [] {
      DistinctIdsOccurOnce(ids[..|ids| - 1], id);
      assert ids == ids[..|ids| - 1] + [ids[|ids| - 1]];
    }
  }

  /** The number of edges whose resolved source is among the ids. */
  function Sourced(ids: seq<string>, edges: seq<Edge>, paperId: string, r: Resolver): nat {
    if edges == [] then 0
    else Sourced(ids, edges[..|edges| - 1], paperId, r)
         + if Resolve(edges[|edges| - 1].source, paperId, r) in ids then 1 else 0
  }

  /** With distinct emitted ids, the edges in the records are exactly as many as the sidecar edges that start at
      an emitted id. */
  lemma {:induction false} DistinctIdsPlaceEachEdgeOnce(emitted: seq<Env>, edges: seq<Edge>, paperId: string, r: Resolver)
    requires forall i, j :: 0 <= i < j < |emitted| ==> ClaimId(paperId, emitted[i]) != ClaimId(paperId, emitted[j])
    ensures TotalEdges(RecordsFor(emitted, edges, paperId, r)) == Sourced(Ids(emitted, paperId), edges, paperId, r)
  {
    hide Resolve, RecordFor;
    EdgesAreConserved(emitted, edges, paperId, r);
    ExpectedOfDistinct(Ids(emitted, paperId), edges, paperId, r);
  }

  lemma {:induction false} ExpectedOfDistinct(ids: seq<string>, edges: seq<Edge>, paperId: string, r: Resolver)
    requires forall i, j :: 0 <= i < j < |ids| ==> ids[i] != ids[j]
    ensures Expected(ids, edges, paperId, r) == Sourced(ids, edges, paperId, r)
  {
    if edges != [] {
      ExpectedOfDistinct(ids, edges[..|edges| - 1], paperId, r);
      DistinctIdsOccurOnce(ids, Resolve(edges[|edges| - 1].source, paperId, r));
    }
  }
}

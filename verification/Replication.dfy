/** Replication status derived from the annotation log, and the counts a paper shows for its claims. */
module Replication {
  import opened Wrappers
  import opened StatusRule
  import opened Text
  import Slugs

  /** The structured payload of an annotation; absent fields are None or false. */
  datatype Payload = Payload(outcome: Option<string>, reproductionKind: Option<string>, liftsRetraction: bool,
                             retracted: bool)

  datatype Annotation = Annotation(id: string, kind: string, target: string, createdBy: Option<string>,
                                   inReplyTo: Option<string>, supersedes: Option<string>, payload: Option<Payload>)

  /** `authored` is the stored status when it is one of the five. */
  datatype Claim = Claim(id: string, paperId: string, authored: Option<Status>)

  /** Topics are kept by the primary key of their paper. */
  datatype Store = Store(papers: seq<Slugs.Paper>, topics: map<string, seq<string>>, claims: seq<Claim>,
                         notes: seq<Annotation>)

  const DEFAULT_QUORUM: nat := 3

  // Which quorum applies

  function QuorumTable(): seq<(set<string>, nat)> {
    [({"math", "cs.formal-verification"}, 1),
     ({"cs.algorithms", "cs.systems", "crypto", "cs.crypto"}, 2),
     ({"ml", "cs.nlp", "cs.cv", "rl", "cs.lg", "physics.experimental", "chem.experimental", "bio.experimental"}, 3),
     ({"psychology", "social-sci", "economics", "econ"}, 5)]
  }

  /** Lower case is that of ASCII letters; no other character has a lower case that occurs in the table. */
  function Tags(topics: seq<string>): set<string> {
    set t | t in topics :: Lower(t)
  }

  function Family(tag: string): string {
    match Find(tag, '.')
    case None => tag
    case Some(i) => tag[..i]
  }

  function Families(tags: set<string>): set<string> {
    set t | t in tags && '.' in t :: Family(t)
  }

  /** The first row sharing a tag. */
  function FirstRow(table: seq<(set<string>, nat)>, tags: set<string>): Option<nat> {
    if table == [] then None
    else if table[0].0 !! tags then FirstRow(table[1..], tags)
    else Some(table[0].1)
  }

  function Quorum(topics: seq<string>): nat {
    var tags := Tags(topics);
    match FirstRow(QuorumTable(), tags)
    case Some(q) => q
    case None =>
      match FirstRow(QuorumTable(), Families(tags))
      case Some(q) => q
      case None => DEFAULT_QUORUM
  }

  /** What one tag asks for on its own. */
  function QuorumOfTag(tag: string): Option<nat> {
    FirstRow(QuorumTable(), {tag})
  }

  ghost predicate Lists(table: seq<(set<string>, nat)>, tag: string, q: nat) {
    exists i :: 0 <= i < |table| && tag in table[i].0 && table[i].1 == q
  }

  ghost predicate Increasing(table: seq<(set<string>, nat)>) {
    forall i, j :: 0 <= i < j < |table| ==> table[i].1 < table[j].1 && table[i].0 !! table[j].0
  }

  lemma {:induction false} RowOfTag(table: seq<(set<string>, nat)>, tag: string, q: nat)
    requires Increasing(table)
    ensures FirstRow(table, {tag}) == Some(q) <==> Lists(table, tag, q)
  {
    if table != [] {
      RowOfTag(table[1..], tag, q);
      if Lists(table[1..], tag, q) {
        var i :| 0 <= i < |table[1..]| && tag in table[1..][i].0 && table[1..][i].1 == q;
        assert tag in table[i + 1].0 && table[i + 1].1 == q;
        assert tag !in table[0].0;
      }
      if tag in table[0].0 {
        assert !(table[0].0 !! {tag});
        if Lists(table, tag, q) {
          var i :| 0 <= i < |table| && tag in table[i].0 && table[i].1 == q;
          assert i == 0;
        }
      } else if Lists(table, tag, q) {
        var i :| 0 <= i < |table| && tag in table[i].0 && table[i].1 == q;
        assert table[1..][i - 1] == table[i];
      }
    }
  }

  /** The row found is the least demanding one any of the tags asks for. */
  lemma {:induction false} FirstRowIsLeast(table: seq<(set<string>, nat)>, tags: set<string>)
    requires Increasing(table)
    ensures FirstRow(table, tags) == None <==> forall t :: t in tags ==> FirstRow(table, {t}) == None
    ensures FirstRow(table, tags).Some? ==> exists t :: t in tags && FirstRow(table, {t}) == FirstRow(table, tags)
    ensures FirstRow(table, tags).Some? ==>
      forall t :: t in tags && FirstRow(table, {t}).Some? ==> FirstRow(table, tags).value <= FirstRow(table, {t}).value
  {
    if table != [] {
      FirstRowIsLeast(table[1..], tags);
      if table[0].0 !! tags {
        assert forall t :: t in tags ==> table[0].0 !! {t};
      } else {
        var t :| t in table[0].0 && t in tags;
        assert !(table[0].0 !! {t});
        forall u | u in tags && FirstRow(table, {u}).Some? ensures table[0].1 <= FirstRow(table, {u}).value {
          RowOfTag(table, u, FirstRow(table, {u}).value);
        }
      }
    }
  }

  ghost predicate AsksFor(tags: set<string>) {
    exists t :: t in tags && QuorumOfTag(t).Some?
  }

  ghost predicate LeastAsked(tags: set<string>, q: nat) {
    && (exists t :: t in tags && QuorumOfTag(t) == Some(q))
    && forall t :: t in tags && QuorumOfTag(t).Some? ==> q <= QuorumOfTag(t).value
  }

  /** Tags of the table win over their families; among several the least demanding decides; otherwise 3. */
  lemma QuorumIsLeastAsked(topics: seq<string>)
    ensures AsksFor(Tags(topics)) ==> LeastAsked(Tags(topics), Quorum(topics))
    ensures !AsksFor(Tags(topics)) && AsksFor(Families(Tags(topics))) ==>
      LeastAsked(Families(Tags(topics)), Quorum(topics))
    ensures !AsksFor(Tags(topics)) && !AsksFor(Families(Tags(topics))) ==> Quorum(topics) == DEFAULT_QUORUM
  {
    TableIncreasing();
    FirstRowIsLeast(QuorumTable(), Tags(topics));
    FirstRowIsLeast(QuorumTable(), Families(Tags(topics)));
    hide QuorumTable, FirstRow, Families, Tags;
  }

  lemma TableIncreasing()
    ensures Increasing(QuorumTable())
  {
  }

  /** What each topic asks for. */
  lemma TableMeans(tag: string)
    ensures QuorumOfTag(tag) == Some(1) <==> tag in {"math", "cs.formal-verification"}
    ensures QuorumOfTag(tag) == Some(2) <==> tag in {"cs.algorithms", "cs.systems", "crypto", "cs.crypto"}
    ensures QuorumOfTag(tag) == Some(3) <==>
      tag in {"ml", "cs.nlp", "cs.cv", "rl", "cs.lg", "physics.experimental", "chem.experimental", "bio.experimental"}
    ensures QuorumOfTag(tag) == Some(5) <==> tag in {"psychology", "social-sci", "economics", "econ"}
    ensures QuorumOfTag(tag).Some? ==> QuorumOfTag(tag).value in {1, 2, 3, 5}
  {
    var table := QuorumTable();
    RowsInTurn(tag);
    TableIncreasing();
    RowOfTag(table, tag, 1);
    RowOfTag(table, tag, 2);
    RowOfTag(table, tag, 3);
    RowOfTag(table, tag, 5);
    hide FirstRow;
    assert |table| == 4 && table[0].1 == 1 && table[1].1 == 2 && table[2].1 == 3 && table[3].1 == 5;
  }

  lemma RowsInTurn(tag: string)
    ensures QuorumOfTag(tag).Some? ==> exists i :: 0 <= i < 4 && QuorumTable()[i].1 == QuorumOfTag(tag).value
  {
    RowFound(QuorumTable(), {tag});
    hide FirstRow;
  }

  lemma {:induction false} RowFound(table: seq<(set<string>, nat)>, tags: set<string>)
    ensures FirstRow(table, tags).Some? ==> exists i :: 0 <= i < |table| && table[i].1 == FirstRow(table, tags).value
  {
    if table != [] && table[0].0 !! tags {
      RowFound(table[1..], tags);
      if FirstRow(table, tags).Some? {
        var i :| 0 <= i < |table[1..]| && table[1..][i].1 == FirstRow(table, tags).value;
        assert table[i + 1] == table[1..][i];
      }
    }
  }

  /** The families of topics are what stands before their first dots. */
  lemma FamiliesMean(tags: set<string>, family: string)
    ensures family in Families(tags) <==> '.' !in family && exists rest :: family + "." + rest in tags
  {
    if t :| t in tags && '.' in t && Family(t) == family {
      var i := Find(t, '.').value;
      assert t == t[..i] + "." + t[i + 1..];
    }
    if rest :| '.' !in family && family + "." + rest in tags {
      FindIn(family, '.', rest);
      var t := family + "." + rest;
      assert t[|family|] == '.' && t[..|family|] == family;
      assert Family(t) == family;
    }
  }

  // Where a claim belongs

  /** The first two segments of a claim id when they form a slug; otherwise its first segment. */
  function OwnerOf(claimId: string): string {
    var parts := Split(claimId, ':');
    if |parts| >= 3 && Slugs.IsSlug(parts[0] + ":" + parts[1]) then parts[0] + ":" + parts[1]
    else parts[0]
  }

  /** A claim id made of a slug and a label leads back to the slug, whatever the label contains. */
  lemma OwnerOfSlugAndLabel(slug: string, name: string)
    requires Slugs.IsSlug(slug)
    ensures OwnerOf(slug + ":" + name) == slug
  {
    var rest := slug[6..];
    assert slug == "rrxiv" + [':'] + rest by {
      assert slug[..6] == "rrxiv:";
    }
    assert ':' !in rest by {
      forall i | 0 <= i < |rest| ensures rest[i] != ':' {
        assert rest[i] == slug[6 + i];
        SlugCharacters(slug, 6 + i);
      }
    }
    assert slug + ":" + name == "rrxiv" + [':'] + (rest + [':'] + name);
    SplitOff("rrxiv", ':', rest + [':'] + name);
    SplitOff(rest, ':', name);
  }

  lemma SlugCharacters(s: string, i: nat)
    requires Slugs.IsSlug(s) && 6 <= i < |s|
    ensures s[i] != ':'
  {
    if i < 10 {
      assert s[i] == s[6..10][i - 6];
    } else if 11 <= i < 16 {
      assert s[i] == s[11..16][i - 11];
    }
  }

  lemma ColonInSlug(s: string, i: nat)
    requires Slugs.IsSlug(s) && i < |s| && s[i] == ':'
    ensures i == 5 && s[..5] == "rrxiv"
  {
    assert s[..6] == "rrxiv:";
    assert s[..5] == s[..6][..5] == "rrxiv";
    if i > 5 {
      SlugCharacters(s, i);
    }
  }

  /** So does one made of a paper id without colons, other than the bare scheme name, and a label. */
  lemma OwnerOfIdAndLabel(paperId: string, name: string)
    requires ':' !in paperId && paperId != "rrxiv"
    ensures OwnerOf(paperId + ":" + name) == paperId
  {
    SplitOff(paperId, ':', name);
    var parts := Split(paperId + ":" + name, ':');
    assert paperId + ":" + name == paperId + [':'] + name;
    if |parts| >= 3 && Slugs.IsSlug(parts[0] + ":" + parts[1]) {
      var slug := parts[0] + ":" + parts[1];
      assert slug == paperId + ":" + parts[1];
      assert slug[..|paperId|] == paperId;
      ColonInSlug(slug, |paperId|);
    }
  }

  function GetPaper(papers: seq<Slugs.Paper>, id: string): Option<Slugs.Paper> {
    if papers == [] then None
    else if papers[0].id == id then Some(papers[0])
    else GetPaper(papers[1..], id)
  }

  /** The first stored paper with the id. */
  lemma {:induction false} GetPaperMeans(papers: seq<Slugs.Paper>, id: string)
    ensures GetPaper(papers, id) == None <==> forall p :: p in papers ==> p.id != id
    ensures GetPaper(papers, id).Some? ==>
      exists i :: 0 <= i < |papers| && Slugs.FirstWithId(papers, id, i) && papers[i] == GetPaper(papers, id).value
  {
    if papers != [] {
      GetPaperMeans(papers[1..], id);
      if papers[0].id == id {
        assert Slugs.FirstWithId(papers, id, 0);
      } else if GetPaper(papers, id).Some? {
        var i :| 0 <= i < |papers[1..]| && Slugs.FirstWithId(papers[1..], id, i) && papers[1..][i] == GetPaper(papers, id).value;
        assert papers[i + 1] == papers[1..][i];
        assert Slugs.FirstWithId(papers, id, i + 1) by {
          forall j | 0 <= j < i + 1 ensures papers[j].id != id {
            assert j > 0 ==> papers[1..][j - 1] == papers[j];
          }
        }
      }
    }
  }

  function ResolveOwner(st: Store, owner: string): Option<Slugs.Paper> {
    if Slugs.IsSlug(owner) then Slugs.FindPaperBySlug(st.papers, owner) else GetPaper(st.papers, owner)
  }

  /** An absent or empty paper id is replaced by the owner the claim id names. */
  function QuorumForClaim(claimId: string, st: Store, paperId: Option<string>): nat {
    var owner := if paperId.Some? && paperId.value != "" then paperId.value else OwnerOf(claimId);
    match ResolveOwner(st, owner)
    case None => Quorum([])
    case Some(p) => Quorum(if p.id in st.topics then st.topics[p.id] else [])
  }

  /** The quorum is that of the topics of the paper the claim belongs to: the one named with the claim, or else the one
      its id names, by slug or by id. Without a stored paper, or without topics, it is 3. */
  lemma QuorumForClaimMeans(claimId: string, st: Store, paperId: Option<string>, owner: string, p: Slugs.Paper)
    requires owner == if paperId.Some? && paperId.value != "" then paperId.value else OwnerOf(claimId)
    ensures !Slugs.IsSlug(owner) && (forall q :: q in st.papers ==> q.id != owner) ==> QuorumForClaim(claimId, st, paperId) == 3
    ensures !Slugs.IsSlug(owner) && p in st.papers && p.id == owner && p.id in st.topics ==>
              QuorumForClaim(claimId, st, paperId) == Quorum(st.topics[p.id])
    ensures Slugs.IsSlug(owner) && Slugs.FindPaperBySlug(st.papers, owner) == Some(p) && p.id in st.topics ==>
              QuorumForClaim(claimId, st, paperId) == Quorum(st.topics[p.id])
    ensures Slugs.IsSlug(owner) && Slugs.FindPaperBySlug(st.papers, owner) == None ==>
              QuorumForClaim(claimId, st, paperId) == 3
    ensures ResolveOwner(st, owner) == Some(p) && p.id !in st.topics ==> QuorumForClaim(claimId, st, paperId) == 3
  {
    GetPaperMeans(st.papers, owner);
    NoTopicsAskForThree();
    hide Quorum, Slugs.IsSlug, Slugs.FindPaperBySlug, OwnerOf;
    if p in st.papers && p.id == owner {
      assert GetPaper(st.papers, owner).Some?;
      assert GetPaper(st.papers, owner).value.id == owner;
    }
  }

  lemma NoTopicsAskForThree()
    ensures Quorum([]) == 3
  {
    assert Tags([]) == {} && Families({}) == {};
    hide Tags, Families;
    NoRow(QuorumTable());
  }

  lemma {:induction false} NoRow(table: seq<(set<string>, nat)>)
    ensures FirstRow(table, {}) == None
  {
    if table != [] {
      NoRow(table[1..]);
    }
  }

  // The decision

  function SupersededIds(notes: seq<Annotation>): set<string> {
    set a | a in notes && a.supersedes.Some? :: a.supersedes.value
  }

  predicate IsSuperseded(a: Annotation, notes: seq<Annotation>) {
    a.id != "" && a.id in SupersededIds(notes)
  }

  predicate Lifts(b: Annotation, a: Annotation) {
    && b.inReplyTo == Some(a.id) && b.kind == "comment"
    && b.payload.Some? && b.payload.value.liftsRetraction && b.createdBy == a.createdBy
  }

  predicate IsLifted(a: Annotation, notes: seq<Annotation>) {
    a.id != "" && exists b :: b in notes && Lifts(b, a)
  }

  predicate Retracts(a: Annotation, claimId: string, notes: seq<Annotation>) {
    a.target == claimId && a.kind == "claim_retraction" && !IsSuperseded(a, notes) && !IsLifted(a, notes)
  }

  predicate IsRetracted(claimId: string, notes: seq<Annotation>) {
    exists a :: a in notes && Retracts(a, claimId, notes)
  }

  function Outcome(a: Annotation): Option<string> {
    if a.payload.Some? then a.payload.value.outcome else None
  }

  predicate IsFreshReplication(a: Annotation) {
    if a.payload.None? then true
    else
      var k := a.payload.value.reproductionKind;
      k.None? || k.value == "" || k.value == "fresh_replication"
  }

  predicate Counts(a: Annotation, claimId: string, superseded: set<string>) {
    a.target == claimId && a.kind == "replication" && !(a.id != "" && a.id in superseded)
  }

  function Weight(a: Annotation, claimId: string, superseded: set<string>): Tally {
    if !Counts(a, claimId, superseded) then NOTHING
    else
      var supports := Outcome(a) == Some("supports");
      Tally(1, One(supports), One(Outcome(a) == Some("contradicts")), One(Outcome(a) == Some("partial")),
            One(supports && IsFreshReplication(a)))
  }

  function TallyOf(notes: seq<Annotation>, claimId: string, superseded: set<string>): Tally {
    if notes == [] then NOTHING
    else
      Sum(TallyOf(notes[..|notes| - 1], claimId, superseded), Weight(notes[|notes| - 1], claimId, superseded))
  }

  function Effective(claimId: string, notes: seq<Annotation>): Tally {
    TallyOf(notes, claimId, SupersededIds(notes))
  }

  function Derive(claimId: string, st: Store, authored: Option<Status>, paperId: Option<string>): Status {
    if IsRetracted(claimId, st.notes) then Retracted
    else Verdict(Effective(claimId, st.notes), authored, QuorumForClaim(claimId, st, paperId))
  }

  /** The claim as every read path returns it. */
  function ApplyDerivedStatus(c: Claim, st: Store): Claim {
    if c.id == "" then c else c.(authored := Some(Derive(c.id, st, c.authored, Some(c.paperId))))
  }

  // The decision, spelled out

  /** A replication of the claim that no annotation supersedes. */
  ghost predicate IsEffective(a: Annotation, claimId: string, log: seq<Annotation>) {
    && a.kind == "replication" && a.target == claimId
    && (a.id == "" || forall b :: b in log ==> b.supersedes != Some(a.id))
  }

  datatype Vote = Any | Saying(outcome: string) | FreshSupport

  ghost predicate Votes(a: Annotation, claimId: string, log: seq<Annotation>, v: Vote) {
    && IsEffective(a, claimId, log)
    && match v
       case Any => true
       case Saying(o) => a.payload.Some? && a.payload.value.outcome == Some(o)
       case FreshSupport =>
         && a.payload.Some? && a.payload.value.outcome == Some("supports")
         && a.payload.value.reproductionKind in {None, Some(""), Some("fresh_replication")}
  }

  ghost function HowMany(notes: seq<Annotation>, claimId: string, log: seq<Annotation>, v: Vote): nat {
    if notes == [] then 0
    else HowMany(notes[..|notes| - 1], claimId, log, v) + if Votes(notes[|notes| - 1], claimId, log, v) then 1 else 0
  }

  /** A retraction of the claim that nothing supersedes and that no comment of its own creator lifts. */
  ghost predicate RetractionStands(claimId: string, log: seq<Annotation>) {
    exists a :: a in log && StandsAsRetraction(a, claimId, log)
  }

  ghost predicate StandsAsRetraction(a: Annotation, claimId: string, log: seq<Annotation>) {
    && a.kind == "claim_retraction" && a.target == claimId
    && (a.id == "" || forall b :: b in log ==>
         && b.supersedes != Some(a.id)
         && !(b.inReplyTo == Some(a.id) && b.kind == "comment" && b.createdBy == a.createdBy
              && b.payload.Some? && b.payload.value.liftsRetraction))
  }

  lemma RetractedMeans(claimId: string, log: seq<Annotation>)
    ensures IsRetracted(claimId, log) <==> RetractionStands(claimId, log)
  {
    forall a | a in log ensures Retracts(a, claimId, log) <==> StandsAsRetraction(a, claimId, log) {
      SupersededMeans(a.id, log);
    }
  }

  lemma SupersededMeans(id: string, log: seq<Annotation>)
    ensures id in SupersededIds(log) <==> exists b :: b in log && b.supersedes == Some(id)
  {
  }

  lemma WeightMeans(a: Annotation, claimId: string, log: seq<Annotation>)
    ensures var w := Weight(a, claimId, SupersededIds(log));
            && w.total == (if Votes(a, claimId, log, Any) then 1 else 0)
            && w.supports == (if Votes(a, claimId, log, Saying("supports")) then 1 else 0)
            && w.contradicts == (if Votes(a, claimId, log, Saying("contradicts")) then 1 else 0)
            && w.partials == (if Votes(a, claimId, log, Saying("partial")) then 1 else 0)
            && w.independent == (if Votes(a, claimId, log, FreshSupport) then 1 else 0)
  {
    SupersededMeans(a.id, log);
    hide SupersededIds;
  }

  lemma {:induction false} TallyMeans(notes: seq<Annotation>, claimId: string, log: seq<Annotation>)
    ensures TallyOf(notes, claimId, SupersededIds(log))
         == Tally(HowMany(notes, claimId, log, Any), HowMany(notes, claimId, log, Saying("supports")),
                  HowMany(notes, claimId, log, Saying("contradicts")), HowMany(notes, claimId, log, Saying("partial")),
                  HowMany(notes, claimId, log, FreshSupport))
  {
    hide Weight, Votes, SupersededIds;
    if notes != [] {
      TallyMeans(notes[..|notes| - 1], claimId, log);
      WeightMeans(notes[|notes| - 1], claimId, log);
    }
  }

  /** When each status is given. */
  lemma DeriveMeans(claimId: string, st: Store, authored: Option<Status>, paperId: Option<string>)
    ensures var n, c := HowMany(st.notes, claimId, st.notes, Any), HowMany(st.notes, claimId, st.notes, Saying("contradicts"));
            var s, p := HowMany(st.notes, claimId, st.notes, Saying("supports")), HowMany(st.notes, claimId, st.notes, Saying("partial"));
            var f, q := HowMany(st.notes, claimId, st.notes, FreshSupport), QuorumForClaim(claimId, st, paperId);
            var r, status := RetractionStands(claimId, st.notes), Derive(claimId, st, authored, paperId);
            && (r ==> status == Retracted)
            && (!r && n == 0 ==> status == if authored.Some? then authored.value else Untested)
            && (!r && n > 0 ==>
                  && status != Retracted
                  && (status == Contradicted <==> c > 0 && c >= s)
                  && (status == Replicated <==> (c == 0 || c < s) && f >= q)
                  && (status == Partial <==> (c == 0 || c < s) && f < q && (s > 0 || p > 0))
                  && (status == Untested <==> c == 0 && f < q && s == 0 && p == 0))
  {
    RetractedMeans(claimId, st.notes);
    TallyMeans(st.notes, claimId, st.notes);
    hide TallyOf, HowMany, IsRetracted, RetractionStands, QuorumForClaim, SupersededIds;
  }

  // The order of the log does not matter

  lemma TallySnoc(s: seq<Annotation>, a: Annotation, claimId: string, superseded: set<string>)
    ensures TallyOf(s + [a], claimId, superseded)
         == Sum(TallyOf(s, claimId, superseded), Weight(a, claimId, superseded))
  {
    hide Weight, Sum;
    assert (s + [a])[..|s|] == s;
  }

  lemma {:induction false} TallyConcat(s: seq<Annotation>, t: seq<Annotation>, claimId: string, superseded: set<string>)
    ensures TallyOf(s + t, claimId, superseded)
         == Sum(TallyOf(s, claimId, superseded), TallyOf(t, claimId, superseded))
  {
    if t == [] {
      assert s + t == s;
    } else {
      hide *;
      var front, a := t[..|t| - 1], t[|t| - 1];
      TallyConcat(s, front, claimId, superseded);
      assert t == front + [a] && s + t == s + front + [a];
      TallySnoc(front, a, claimId, superseded);
      TallySnoc(s + front, a, claimId, superseded);
      SumAssociates(TallyOf(s, claimId, superseded), TallyOf(front, claimId, superseded),
                    Weight(a, claimId, superseded));
    }
  }

  lemma {:induction false} TallyIgnoresOrder(s: seq<Annotation>, t: seq<Annotation>, claimId: string,
                                             superseded: set<string>)
    requires multiset(s) == multiset(t)
    ensures TallyOf(s, claimId, superseded) == TallyOf(t, claimId, superseded)
    decreases |s|
  {
    hide Weight;
    if s == [] {
      assert |multiset(t)| == 0;
    } else {
      var front, x := s[..|s| - 1], s[|s| - 1];
      assert x in multiset(s);
      var i :| 0 <= i < |t| && t[i] == x;
      TakeOutBoth(s, t, i);
      TallyIgnoresOrder(front, t[..i] + t[i + 1..], claimId, superseded);
      TallyWithout(t, i, claimId, superseded);
    }
  }

  lemma TakeOut(t: seq<Annotation>, i: nat)
    requires i < |t|
    ensures multiset(t) == multiset(t[..i] + t[i + 1..]) + multiset{t[i]}
  {
    assert t == t[..i] + [t[i]] + t[i + 1..];
  }

  lemma TakeOutBoth(s: seq<Annotation>, t: seq<Annotation>, i: nat)
    requires s != [] && i < |t| && t[i] == s[|s| - 1] && multiset(s) == multiset(t)
    ensures multiset(s[..|s| - 1]) == multiset(t[..i] + t[i + 1..])
  {
    TakeOut(t, i);
    TakeOut(s, |s| - 1);
    assert s[..|s| - 1] + s[|s|..] == s[..|s| - 1];
    Cancel(multiset(s[..|s| - 1]), multiset(t[..i] + t[i + 1..]), t[i]);
  }

  lemma Cancel(a: multiset<Annotation>, b: multiset<Annotation>, x: Annotation)
    requires a + multiset{x} == b + multiset{x}
    ensures a == b
  {
    assert a == a + multiset{x} - multiset{x};
    assert b == b + multiset{x} - multiset{x};
  }

  lemma TallyWithout(t: seq<Annotation>, i: nat, claimId: string, superseded: set<string>)
    requires i < |t|
    ensures TallyOf(t, claimId, superseded)
         == Sum(TallyOf(t[..i] + t[i + 1..], claimId, superseded), Weight(t[i], claimId, superseded))
  {
    hide *;
    var front, back := t[..i], t[i + 1..];
    TallyConcat(front, back, claimId, superseded);
    TallyConcat(front + [t[i]], back, claimId, superseded);
    TallySnoc(front, t[i], claimId, superseded);
    assert t == front + [t[i]] + back;
    SumAssociates(TallyOf(front, claimId, superseded), TallyOf(back, claimId, superseded),
                  Weight(t[i], claimId, superseded));
  }

  lemma SameMembers(s: seq<Annotation>, t: seq<Annotation>)
    requires multiset(s) == multiset(t)
    ensures forall a :: a in s <==> a in t
  {
    assert forall a :: a in s <==> a in multiset(s);
    assert forall a :: a in t <==> a in multiset(t);
  }

  /** Two logs with the same entries, in whatever order, give every claim the same status. */
  lemma OrderDoesNotMatter(claimId: string, st: Store, notes: seq<Annotation>, authored: Option<Status>,
                           paperId: Option<string>)
    requires multiset(notes) == multiset(st.notes)
    ensures Derive(claimId, st.(notes := notes), authored, paperId) == Derive(claimId, st, authored, paperId)
  {
    SameMembers(notes, st.notes);
    assert SupersededIds(notes) == SupersededIds(st.notes);
    TallyIgnoresOrder(notes, st.notes, claimId, SupersededIds(notes));
    assert IsRetracted(claimId, notes) == IsRetracted(claimId, st.notes) by {
      forall a ensures Retracts(a, claimId, notes) == Retracts(a, claimId, st.notes) {
        assert IsLifted(a, notes) == IsLifted(a, st.notes);
      }
    }
  }

  // What one more annotation changes

  /** Nothing in the log supersedes the annotation, and it supersedes nothing. */
  predicate IsNew(a: Annotation, notes: seq<Annotation>) {
    a.supersedes == None && (a.id == "" || a.id !in SupersededIds(notes))
  }

  predicate IsReplication(a: Annotation, outcome: string) {
    a.kind == "replication" && Outcome(a) == Some(outcome)
  }

  function Add(st: Store, a: Annotation): Store {
    st.(notes := st.notes + [a])
  }

  lemma SupersededIdsOfAppend(notes: seq<Annotation>, a: Annotation)
    requires a.supersedes == None
    ensures SupersededIds(notes + [a]) == SupersededIds(notes)
  {
    forall x | x in SupersededIds(notes) ensures x in SupersededIds(notes + [a]) {
      var b :| b in notes && b.supersedes.Some? && b.supersedes.value == x;
      assert b in notes + [a];
    }
  }

  lemma EffectiveOfAppend(claimId: string, notes: seq<Annotation>, a: Annotation)
    requires IsNew(a, notes)
    ensures Effective(claimId, notes + [a])
         == Sum(Effective(claimId, notes), Weight(a, claimId, SupersededIds(notes)))
  {
    SupersededIdsOfAppend(notes, a);
    TallySnoc(notes, a, claimId, SupersededIds(notes));
  }

  lemma ReplicationKeepsRetractions(claimId: string, notes: seq<Annotation>, a: Annotation)
    requires a.supersedes == None && a.kind == "replication"
    ensures IsRetracted(claimId, notes + [a]) == IsRetracted(claimId, notes)
  {
    SupersededIdsOfAppend(notes, a);
    forall b ensures IsLifted(b, notes + [a]) == IsLifted(b, notes) {
      forall c | c in notes && Lifts(c, b) ensures c in notes + [a] {}
    }
    assert forall b :: Retracts(b, claimId, notes + [a]) == Retracts(b, claimId, notes);
    forall b | b in notes && Retracts(b, claimId, notes) ensures b in notes + [a] {}
  }

  lemma DeriveAfterReplication(claimId: string, st: Store, a: Annotation, authored: Option<Status>,
                               paperId: Option<string>)
    requires IsNew(a, st.notes) && a.kind == "replication"
    ensures Derive(claimId, Add(st, a), authored, paperId)
         == if IsRetracted(claimId, st.notes) then Retracted
            else Verdict(Sum(Effective(claimId, st.notes), Weight(a, claimId, SupersededIds(st.notes))), authored,
                         QuorumForClaim(claimId, st, paperId))
  {
    EffectiveOfAppend(claimId, st.notes, a);
    ReplicationKeepsRetractions(claimId, st.notes, a);
    QuorumIgnoresNotes(claimId, st, a, paperId);
    hide QuorumForClaim, Effective, IsRetracted, Verdict, Sum, Weight;
  }

  lemma QuorumIgnoresNotes(claimId: string, st: Store, a: Annotation, paperId: Option<string>)
    ensures QuorumForClaim(claimId, Add(st, a), paperId) == QuorumForClaim(claimId, st, paperId)
  {
    hide Quorum, OwnerOf, Slugs.IsSlug;
  }

  lemma WeightOf(a: Annotation, claimId: string, notes: seq<Annotation>)
    requires IsNew(a, notes) && a.kind == "replication"
    ensures a.target != claimId ==> Weight(a, claimId, SupersededIds(notes)) == NOTHING
    ensures a.target == claimId && IsReplication(a, "supports") ==>
      Weight(a, claimId, SupersededIds(notes)) == Tally(1, 1, 0, 0, One(IsFreshReplication(a)))
    ensures a.target == claimId && IsReplication(a, "contradicts") ==>
      Weight(a, claimId, SupersededIds(notes)) == Tally(1, 0, 1, 0, 0)
  {
    hide IsFreshReplication, SupersededIds, Outcome;
  }

  /** A new supporting replication never lowers a claim that has an effective replication already, and never
      makes one contradicted. */
  lemma SupportNeverLowers(claimId: string, st: Store, a: Annotation, authored: Option<Status>,
                           paperId: Option<string>)
    requires IsNew(a, st.notes) && IsReplication(a, "supports")
    requires Effective(claimId, st.notes).total > 0
    ensures var before, after := Derive(claimId, st, authored, paperId), Derive(claimId, Add(st, a), authored, paperId);
            && !Lowers(before, after)
            && (after == Contradicted ==> before == Contradicted)
            && (after == Retracted <==> before == Retracted)
  {
    hide *;
    DeriveBefore(claimId, st, authored, paperId);
    DeriveAfterReplication(claimId, st, a, authored, paperId) by { ReplicationOf(a, "supports"); }
    WeightOf(a, claimId, st.notes) by { ReplicationOf(a, "supports"); }
    var t, quorum := Effective(claimId, st.notes), QuorumForClaim(claimId, st, paperId);
    SupportKeepsRank(t, authored, quorum, IsFreshReplication(a));
    Additions(t, IsFreshReplication(a));
    NeverBelowItself(Verdict(t, authored, quorum));
  }

  lemma Additions(t: Tally, isFresh: bool)
    ensures Sum(t, Tally(1, 1, 0, 0, One(isFresh))) == Supported(t, isFresh)
    ensures Sum(t, Tally(1, 0, 1, 0, 0)) == Contested(t)
    ensures Sum(t, NOTHING) == t
  {
    SumNothing(t);
  }

  lemma NeverBelowItself(s: Status)
    ensures !Lowers(s, s)
  {
  }

  lemma DeriveBefore(claimId: string, st: Store, authored: Option<Status>, paperId: Option<string>)
    ensures Derive(claimId, st, authored, paperId)
         == if IsRetracted(claimId, st.notes) then Retracted
            else Verdict(Effective(claimId, st.notes), authored, QuorumForClaim(claimId, st, paperId))
    ensures !Lowers(Retracted, Retracted)
  {
    hide QuorumForClaim, Effective, IsRetracted, Verdict;
  }

  lemma ReplicationOf(a: Annotation, outcome: string)
    requires IsReplication(a, outcome)
    ensures a.kind == "replication"
  {
  }

  lemma NothingYet(claimId: string, notes: seq<Annotation>)
    ensures Effective(claimId, notes).total == 0 ==> Effective(claimId, notes) == NOTHING
  {
    TallyBounds(claimId, notes, SupersededIds(notes));
    hide TallyOf;
  }

  /** The first supporting replication does lower one kind of claim: one authored as replicated whose quorum it
      does not meet on its own. */
  lemma FirstSupportLowersIff(claimId: string, st: Store, a: Annotation, authored: Option<Status>,
                              paperId: Option<string>)
    requires IsNew(a, st.notes) && IsReplication(a, "supports") && a.target == claimId
    requires Effective(claimId, st.notes).total == 0
    ensures var before, after := Derive(claimId, st, authored, paperId), Derive(claimId, Add(st, a), authored, paperId);
            Lowers(before, after) <==> !IsRetracted(claimId, st.notes) && authored == Some(Replicated)
                                       && One(IsFreshReplication(a)) < QuorumForClaim(claimId, st, paperId)
  {
    hide *;
    DeriveBefore(claimId, st, authored, paperId);
    DeriveAfterReplication(claimId, st, a, authored, paperId) by { ReplicationOf(a, "supports"); }
    WeightOf(a, claimId, st.notes) by { ReplicationOf(a, "supports"); }
    NothingYet(claimId, st.notes);
    FirstSupport(authored, QuorumForClaim(claimId, st, paperId), IsFreshReplication(a));
    Additions(Effective(claimId, st.notes), IsFreshReplication(a));
  }

  lemma {:induction false} TallyBounds(claimId: string, notes: seq<Annotation>, superseded: set<string>)
    ensures var t := TallyOf(notes, claimId, superseded);
            t.supports + t.contradicts + t.partials <= t.total && t.independent <= t.supports
  {
    if notes != [] {
      TallyBounds(claimId, notes[..|notes| - 1], superseded);
    }
  }

  /** A new contradicting replication leaves a status as it is or makes it contradicted; it raises none. */
  lemma ContradictionNeverRaises(claimId: string, st: Store, a: Annotation, authored: Option<Status>,
                                 paperId: Option<string>)
    requires IsNew(a, st.notes) && IsReplication(a, "contradicts")
    ensures var before, after := Derive(claimId, st, authored, paperId), Derive(claimId, Add(st, a), authored, paperId);
            after == Contradicted || after == before
    ensures Derive(claimId, st, authored, paperId) == Contradicted ==>
      Derive(claimId, Add(st, a), authored, paperId) == Contradicted
  {
    hide *;
    DeriveBefore(claimId, st, authored, paperId);
    DeriveAfterReplication(claimId, st, a, authored, paperId) by { ReplicationOf(a, "contradicts"); }
    WeightOf(a, claimId, st.notes) by { ReplicationOf(a, "contradicts"); }
    NothingYet(claimId, st.notes);
    ContradictionKeepsOrContradicts(Effective(claimId, st.notes), authored, QuorumForClaim(claimId, st, paperId));
    Additions(Effective(claimId, st.notes), false);
  }

  // Whose retraction counts

  predicate IsBy(a: Annotation, authors: set<string>) {
    a.createdBy.Some? && a.createdBy.value in authors
  }

  predicate IsRetractedBy(claimId: string, notes: seq<Annotation>, authors: set<string>) {
    exists a :: a in notes && Retracts(a, claimId, notes) && IsBy(a, authors)
  }

  /** The rule as documented: a retraction counts when it is by an author of the paper. */
  function DocumentedStatus(claimId: string, st: Store, authored: Option<Status>, paperId: Option<string>,
                            authors: set<string>): Status {
    if IsRetractedBy(claimId, st.notes, authors) then Retracted
    else Verdict(Effective(claimId, st.notes), authored, QuorumForClaim(claimId, st, paperId))
  }

  /** The claim is stored as retracted and nothing replaces that status. */
  predicate RestsRetracted(claimId: string, st: Store, authored: Option<Status>) {
    Effective(claimId, st.notes).total == 0 && authored == Some(Retracted)
  }

  /** The derived status is the documented one exactly when a retracted claim has an effective retraction by an author,
      or was retracted by its stored status anyway. */
  lemma DocumentedStatusIff(claimId: string, st: Store, authored: Option<Status>, paperId: Option<string>,
                            authors: set<string>)
    ensures Derive(claimId, st, authored, paperId) == DocumentedStatus(claimId, st, authored, paperId, authors)
       <==> IsRetractedBy(claimId, st.notes, authors) || !IsRetracted(claimId, st.notes)
            || RestsRetracted(claimId, st, authored)
  {
    if a :| a in st.notes && Retracts(a, claimId, st.notes) && IsBy(a, authors) {
      assert IsRetracted(claimId, st.notes);
    }
    VerdictRetracted(Effective(claimId, st.notes), authored, QuorumForClaim(claimId, st, paperId));
    hide Verdict, QuorumForClaim, Effective, Retracts, IsRetracted, IsRetractedBy;
  }

  lemma VerdictRetracted(t: Tally, authored: Option<Status>, quorum: nat)
    ensures Verdict(t, authored, quorum) == Retracted <==> t.total == 0 && authored == Some(Retracted)
  {
  }

  /** A retraction by someone who is no author of the paper, new and not replied to yet. */
  predicate IsByStranger(a: Annotation, claimId: string, notes: seq<Annotation>, authors: set<string>) {
    && a.kind == "claim_retraction" && a.target == claimId && !IsBy(a, authors)
    && a.id != "" && IsNew(a, notes) && forall b :: b in notes ==> b.inReplyTo != Some(a.id)
  }

  /** It retracts every claim that was not retracted, though the documented status stays what it was. */
  lemma StrangersRetractionCounts(claimId: string, st: Store, a: Annotation, authored: Option<Status>,
                                  paperId: Option<string>, authors: set<string>)
    requires IsByStranger(a, claimId, st.notes, authors) && Derive(claimId, st, authored, paperId) != Retracted
    ensures Derive(claimId, Add(st, a), authored, paperId) == Retracted
    ensures DocumentedStatus(claimId, Add(st, a), authored, paperId, authors)
         == Derive(claimId, st, authored, paperId) != Retracted
  {
    StrangerRetracts(claimId, st.notes, a, authors);
    NotAReplication(claimId, st.notes, a);
    QuorumIgnoresNotes(claimId, st, a, paperId);
    hide QuorumForClaim, Effective, IsRetracted, Verdict, IsByStranger;
  }

  lemma StrangerRetracts(claimId: string, notes: seq<Annotation>, a: Annotation, authors: set<string>)
    requires IsByStranger(a, claimId, notes, authors) && !IsRetracted(claimId, notes)
    ensures IsRetracted(claimId, notes + [a]) && !IsRetractedBy(claimId, notes + [a], authors)
    ensures IsNew(a, notes) && a.kind != "replication"
  {
    SupersededIdsOfAppend(notes, a);
    assert a in notes + [a] && !Lifts(a, a);
    assert Retracts(a, claimId, notes + [a]);
    forall b | b in notes + [a] && IsBy(b, authors) ensures !Retracts(b, claimId, notes + [a]) {
      assert b in notes && !Retracts(b, claimId, notes);
      if IsLifted(b, notes) {
        var c :| c in notes && Lifts(c, b);
        assert c in notes + [a];
      }
    }
  }

  predicate IsLiftedRetraction(r: Annotation, l: Annotation, notes: seq<Annotation>) {
    && r.kind == "claim_retraction" && r.id != "" && IsNew(r, notes)
    && Lifts(l, r) && l.supersedes == None && l.id != r.id
    && forall b :: b in notes ==> b.id != r.id && b.inReplyTo != Some(r.id)
  }

  /** A new retraction retracts its claim and touches no other; lifting it restores the status every claim had. */
  lemma LiftingUndoesRetraction(claimId: string, st: Store, r: Annotation, l: Annotation, authored: Option<Status>,
                                paperId: Option<string>)
    requires IsLiftedRetraction(r, l, st.notes) && IsNew(l, st.notes)
    ensures Derive(claimId, Add(st, r), authored, paperId)
         == if r.target == claimId then Retracted else Derive(claimId, st, authored, paperId)
    ensures Derive(claimId, Add(Add(st, r), l), authored, paperId) == Derive(claimId, st, authored, paperId)
  {
    var notes := st.notes;
    RetractionsAfter(claimId, notes, r, l);
    SupersededIdsOfAppend(notes, r);
    NotAReplication(claimId, notes, r);
    NotAReplication(claimId, notes + [r], l);
    QuorumIgnoresNotes(claimId, st, r, paperId);
    QuorumIgnoresNotes(claimId, Add(st, r), l, paperId);
    hide QuorumForClaim, Effective, IsRetracted, Verdict;
  }

  lemma NotAReplication(claimId: string, notes: seq<Annotation>, a: Annotation)
    requires IsNew(a, notes) && a.kind != "replication"
    ensures Effective(claimId, notes + [a]) == Effective(claimId, notes)
  {
    hide *;
    EffectiveOfAppend(claimId, notes, a);
    NotCounted(a, claimId, SupersededIds(notes));
    SumNothing(Effective(claimId, notes));
  }

  lemma NotCounted(a: Annotation, claimId: string, superseded: set<string>)
    requires a.kind != "replication"
    ensures Weight(a, claimId, superseded) == NOTHING
  {
  }

  lemma RetractionsAfter(claimId: string, notes: seq<Annotation>, r: Annotation, l: Annotation)
    requires IsLiftedRetraction(r, l, notes)
    ensures IsRetracted(claimId, notes + [r]) <==> IsRetracted(claimId, notes) || r.target == claimId
    ensures IsRetracted(claimId, notes + [r] + [l]) <==> IsRetracted(claimId, notes)
  {
    SupersededIdsOfAppend(notes, r);
    SupersededIdsOfAppend(notes + [r], l);
    forall b | b in notes ensures Retracts(b, claimId, notes) == Retracts(b, claimId, notes + [r])
    ensures Retracts(b, claimId, notes) == Retracts(b, claimId, notes + [r] + [l])
    ensures b in notes + [r] && b in notes + [r] + [l] {
      LiftsAfter(b, notes, r, l);
    }
    assert r in notes + [r] && l in notes + [r] + [l];
    assert IsLifted(r, notes + [r] + [l]);
    assert !IsLifted(r, notes + [r]);
    assert r.target == claimId ==> Retracts(r, claimId, notes + [r]);
    assert !Retracts(r, claimId, notes + [r] + [l]) && !Retracts(l, claimId, notes + [r] + [l]);
  }

  lemma LiftsAfter(b: Annotation, notes: seq<Annotation>, r: Annotation, l: Annotation)
    requires IsLiftedRetraction(r, l, notes) && b in notes
    ensures IsLifted(b, notes + [r]) == IsLifted(b, notes) == IsLifted(b, notes + [r] + [l])
  {
    assert !Lifts(l, b) && !Lifts(r, b);
    forall c | c in notes && Lifts(c, b) ensures c in notes + [r] && c in notes + [r] + [l] {}
  }

  // The counts of a paper

  /** `status` is one of preprint, untested, partial, replicated, contradicted, contested, retracted. */
  datatype Stats = Stats(claims: nat, replicated: nat, partial: nat, contradicted: nat, contested: nat, untested: nat,
                         status: string)

  function OwnClaims(claims: seq<Claim>, owner: string): seq<Claim> {
    if claims == [] then []
    else
      var front := OwnClaims(claims[..|claims| - 1], owner);
      if claims[|claims| - 1].paperId == owner then front + [claims[|claims| - 1]] else front
  }

  /** The status the counts are based on: the owner is read off the claim id. */
  function StatusInStats(c: Claim, st: Store): Status {
    if c.id != "" then Derive(c.id, st, c.authored, None) else Untested
  }

  function CountStatus(claims: seq<Claim>, st: Store, s: Status): nat {
    if claims == [] then 0
    else CountStatus(claims[..|claims| - 1], st, s) + One(StatusInStats(claims[|claims| - 1], st) == s)
  }

  predicate IsPaperRetraction(a: Annotation, owner: string) {
    a.target == owner && a.kind == "erratum" && a.payload.Some? && a.payload.value.retracted
  }

  predicate PaperRetracted(st: Store, owner: string) {
    exists a :: a in st.notes && IsPaperRetraction(a, owner)
  }

  predicate IsDiscussed(st: Store, owner: string) {
    exists a :: a in st.notes && (a.target == owner || owner + ":" <= a.target)
  }

  /** The annotation is on the paper or on something named after it. */
  ghost predicate IsAbout(a: Annotation, owner: string) {
    a.target == owner || exists rest :: a.target == owner + ":" + rest
  }

  lemma PaperRetractedMeans(st: Store, owner: string)
    ensures PaperRetracted(st, owner) <==>
      exists a :: a in st.notes && a.target == owner && a.kind == "erratum" && a.payload.Some? && a.payload.value.retracted
  {
  }

  lemma IsDiscussedMeans(st: Store, owner: string)
    ensures IsDiscussed(st, owner) <==> exists a :: a in st.notes && IsAbout(a, owner)
  {
    forall a: Annotation ensures IsAbout(a, owner) <==> a.target == owner || owner + ":" <= a.target {
      if owner + ":" <= a.target {
        assert a.target == owner + ":" + a.target[|owner| + 1..];
      }
    }
  }

  method ComputeStats(owner: string, st: Store) returns (r: Stats)
    ensures var own := OwnClaims(st.claims, owner);
            && r.claims == |own|
            && r.replicated == CountStatus(own, st, Replicated)
            && r.partial == CountStatus(own, st, Partial)
            && r.contradicted == CountStatus(own, st, Contradicted)
            && r.untested == CountStatus(own, st, Untested)
            && r.claims == r.replicated + r.partial + r.contradicted + r.untested + CountStatus(own, st, Retracted)
    ensures r.contested == 0
    ensures r.status == "retracted" <==> PaperRetracted(st, owner)
    ensures r.status == "retracted" <==>
      exists a :: a in st.notes && a.target == owner && a.kind == "erratum" && a.payload.Some? && a.payload.value.retracted
    ensures r.status == "contested" <==> !PaperRetracted(st, owner) && r.replicated > 0 && r.contradicted > 0
    ensures r.status == "contradicted" <==> !PaperRetracted(st, owner) && r.replicated == 0 && r.contradicted > 0
    ensures r.status == "replicated" <==> !PaperRetracted(st, owner) && r.replicated > 0 && r.contradicted == 0
    ensures r.status == "partial" <==>
      !PaperRetracted(st, owner) && r.replicated == 0 && r.contradicted == 0 && r.partial > 0
    ensures r.status == "preprint" || r.status == "untested" <==>
      !PaperRetracted(st, owner) && r.replicated == 0 && r.contradicted == 0 && r.partial == 0
    ensures r.status == "untested" ==>
      r.claims > 0 && exists a :: a in st.notes && IsAbout(a, owner)
    ensures r.status == "preprint" ==>
      r.claims == 0 || forall a :: a in st.notes ==> !IsAbout(a, owner)
  {
    hide Derive, PaperRetracted, IsDiscussed, IsAbout;
    var claims := OwnClaims(st.claims, owner);
    var replicated: nat, partial: nat, contradicted: nat, retractedClaims: nat, untested: nat := 0, 0, 0, 0, 0;
    for i := 0 to |claims|
      invariant replicated == CountStatus(claims[..i], st, Replicated)
      invariant partial == CountStatus(claims[..i], st, Partial)
      invariant contradicted == CountStatus(claims[..i], st, Contradicted)
      invariant retractedClaims == CountStatus(claims[..i], st, Retracted)
      invariant untested == CountStatus(claims[..i], st, Untested)
      invariant replicated + partial + contradicted + retractedClaims + untested == i
    {
      assert claims[..i + 1][..i] == claims[..i];
      var claim := claims[i];
      var status := if claim.id != "" then Derive(claim.id, st, claim.authored, None) else Untested;
      assert status == StatusInStats(claims[..i + 1][i], st);
      if status == Replicated {
        replicated := replicated + 1;
      } else if status == Partial {
        partial := partial + 1;
      } else if status == Contradicted {
        contradicted := contradicted + 1;
      } else if status == Retracted {
        retractedClaims := retractedClaims + 1;
      } else {
        untested := untested + 1;
      }
    }
    assert claims[..|claims|] == claims;
    PaperRetractedMeans(st, owner);
    IsDiscussedMeans(st, owner);
    hide CountStatus, OwnClaims;
    var status;
    if PaperRetracted(st, owner) {
      status := "retracted";
    } else if |claims| == 0 || (replicated == 0 && partial == 0 && contradicted == 0 && !IsDiscussed(st, owner)) {
      status := "preprint";
    } else if contradicted > 0 && replicated > 0 {
      status := "contested";
    } else if contradicted > 0 {
      status := "contradicted";
    } else if replicated > 0 {
      status := "replicated";
    } else if partial > 0 {
      status := "partial";
    } else {
      status := "untested";
    }
    r := Stats(|claims|, replicated, partial, contradicted, 0, untested, status);
  }

  // The two read paths agree

  /** The claims of a paper as the claim listing returns them. */
  function Listing(claims: seq<Claim>, st: Store): seq<Claim> {
    if claims == [] then []
    else Listing(claims[..|claims| - 1], st) + [ApplyDerivedStatus(claims[|claims| - 1], st)]
  }

  function CountShown(shown: seq<Claim>, s: Status): nat {
    if shown == [] then 0 else CountShown(shown[..|shown| - 1], s) + One(shown[|shown| - 1].authored == Some(s))
  }

  lemma {:induction false} ListingShowsCounts(claims: seq<Claim>, st: Store, owner: string, s: Status)
    requires owner != ""
    requires forall c :: c in claims ==> c.paperId == owner && OwnerOf(c.id) == owner
    ensures CountShown(Listing(claims, st), s) == CountStatus(claims, st, s)
  {
    if claims != [] {
      var front, last := claims[..|claims| - 1], claims[|claims| - 1];
      ListingShowsCounts(front, st, owner, s);
      assert last in claims;
      SameStatusOnBothPaths(last, st, owner);
      var shown := Listing(claims, st);
      assert shown[..|shown| - 1] == Listing(front, st);
      hide ApplyDerivedStatus, StatusInStats, OwnerOf;
    }
  }

  /** A claim with an id is returned with its status derived from the log, its stored status standing in where nothing
      is known; everything else of it stays. */
  lemma ShownStatusMeans(c: Claim, st: Store)
    ensures ApplyDerivedStatus(c, st).id == c.id && ApplyDerivedStatus(c, st).paperId == c.paperId
    ensures c.id != "" ==> ApplyDerivedStatus(c, st).authored == Some(Derive(c.id, st, c.authored, Some(c.paperId)))
    ensures c.id == "" ==> ApplyDerivedStatus(c, st).authored == c.authored
  {
    hide Derive;
  }

  lemma SameStatusOnBothPaths(c: Claim, st: Store, owner: string)
    requires owner != "" && c.paperId == owner && OwnerOf(c.id) == owner
    ensures ApplyDerivedStatus(c, st).authored == Some(StatusInStats(c, st))
  {
    assert OwnerOf("") == "";
    hide Verdict, Effective, IsRetracted, ResolveOwner;
  }

  lemma {:induction false} OwnClaimsAreOwn(claims: seq<Claim>, owner: string)
    ensures forall c :: c in OwnClaims(claims, owner) <==> c in claims && c.paperId == owner
  {
    if claims != [] {
      OwnClaimsAreOwn(claims[..|claims| - 1], owner);
      assert claims == claims[..|claims| - 1] + [claims[|claims| - 1]];
    }
  }

  /** An owner key a claim id can be led back to: a slug, or an id without colons other than the scheme name. */
  predicate IsOwner(owner: string) {
    Slugs.IsSlug(owner) || (owner != "" && ':' !in owner && owner != "rrxiv")
  }

  ghost predicate IsLabelled(id: string, owner: string) {
    exists name: string :: id == owner + ":" + name
  }

  /** When the claims of a paper are named after its owner key, its slug or else its id, and a label, the counts of the
      paper are those of the statuses its claim listing shows. */
  lemma CountsMatchListing(p: Slugs.Paper, st: Store, s: Status)
    requires IsOwner(Slugs.ClaimOwnerKey(p))
    requires forall c :: c in st.claims && c.paperId == Slugs.ClaimOwnerKey(p) ==> IsLabelled(c.id, Slugs.ClaimOwnerKey(p))
    ensures CountStatus(OwnClaims(st.claims, Slugs.ClaimOwnerKey(p)), st, s)
         == CountShown(Listing(OwnClaims(st.claims, Slugs.ClaimOwnerKey(p)), st), s)
  {
    hide Slugs.IsSlug, Slugs.ClaimOwnerKey;
    var owner := Slugs.ClaimOwnerKey(p);
    var own := OwnClaims(st.claims, owner);
    OwnClaimsAreOwn(st.claims, owner);
    forall c | c in own ensures OwnerOf(c.id) == owner {
      var name: string :| c.id == owner + ":" + name;
      if Slugs.IsSlug(owner) {
        OwnerOfSlugAndLabel(owner, name);
      } else {
        OwnerOfIdAndLabel(owner, name);
      }
    }
    NotEmptyOwner(owner);
    ListingShowsCounts(own, st, owner, s);
  }

  lemma NotEmptyOwner(owner: string)
    requires IsOwner(owner)
    ensures owner != ""
  {
  }
}

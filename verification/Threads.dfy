/** Annotation threads: which annotation replies to which, and where the chains of replies end. */
module Threads {
  import opened Wrappers
  import opened Text
  import Slugs

  /** An annotation as posted. An absent id is empty; `other` is the part the checks do not look at. */
  datatype Note = Note(id: string, hasCreator: bool, targetType: Option<string>, targetId: Option<string>,
                       replyTo: Option<string>, createdAt: string, other: string)

  type Notes = map<string, Note>

  predicate Replies(n: Note) {
    n.replyTo.Some? && n.replyTo.value != ""
  }

  function OrEmpty(s: Option<string>): string {
    if s.Some? then s.value else ""
  }

  /** A paper is its own paper; any other target belongs to what stands before its first colon. */
  function PaperIdOfTarget(targetId: string, targetType: string): Option<string> {
    if targetType == "paper" then Some(targetId)
    else match Find(targetId, ':')
      case None => None
      case Some(i) => Some(targetId[..i])
  }

  function PaperOf(n: Note): Option<string> {
    PaperIdOfTarget(OrEmpty(n.targetId), OrEmpty(n.targetType))
  }

  predicate OnDifferentPapers(n: Note, m: Note) {
    && PaperOf(n).Some? && PaperOf(n).value != ""
    && PaperOf(m).Some? && PaperOf(m).value != ""
    && PaperOf(n) != PaperOf(m)
  }

  predicate OnClaim(n: Note) {
    n.targetType == Some("claim")
  }

  predicate OnDifferentClaims(n: Note, m: Note) {
    OnClaim(n) && OnClaim(m) && n.targetId != m.targetId
  }

  /** The note answered exists, is another one, and lives on the same artefact. */
  predicate ReplyIsValid(notes: Notes, n: Note) {
    Replies(n) ==>
      && n.replyTo.value in notes
      && n.id != n.replyTo.value
      && !OnDifferentPapers(n, notes[n.replyTo.value])
      && !OnDifferentClaims(n, notes[n.replyTo.value])
  }

  /** The paper the check reads off the target: the target itself, or what stands before its first colon. */
  ghost predicate IsReadAs(n: Note, paperId: string) {
    && n.targetId.Some? && paperId != ""
    && if n.targetType == Some("paper") then n.targetId.value == paperId
       else ':' !in paperId && exists rest :: n.targetId.value == paperId + ":" + rest
  }

  /** The note answered is stored and another one; the papers read off both targets agree if there are two; and two
      claims agree. */
  ghost predicate FollowsReplyRule(notes: Notes, n: Note) {
    n.replyTo.Some? && n.replyTo.value != "" ==>
      && n.replyTo.value in notes
      && n.id != n.replyTo.value
      && (forall p, q :: IsReadAs(n, p) && IsReadAs(notes[n.replyTo.value], q) ==> p == q)
      && (n.targetType == notes[n.replyTo.value].targetType == Some("claim") ==>
            n.targetId == notes[n.replyTo.value].targetId)
  }

  lemma PaperOfMeans(n: Note, paperId: string)
    ensures PaperOf(n) == Some(paperId) && paperId != "" <==> IsReadAs(n, paperId)
  {
    var t := OrEmpty(n.targetId);
    if n.targetType != Some("paper") {
      if rest :| t == paperId + ":" + rest && ':' !in paperId {
        FindIn(paperId, ':', rest);
        assert t[..|paperId|] == paperId;
      }
      if ':' in t {
        var i := Find(t, ':').value;
        assert t == t[..i] + ":" + t[i + 1..];
      }
    }
  }

  lemma ReplyIsValidMeans(notes: Notes, n: Note)
    ensures ReplyIsValid(notes, n) <==> FollowsReplyRule(notes, n)
  {
    hide PaperOf, IsReadAs;
    if Replies(n) && n.replyTo.value in notes {
      var m := notes[n.replyTo.value];
      forall p ensures PaperOf(n) == Some(p) && p != "" <==> IsReadAs(n, p)
      ensures PaperOf(m) == Some(p) && p != "" <==> IsReadAs(m, p) {
        PaperOfMeans(n, p);
        PaperOfMeans(m, p);
      }
      if OnDifferentPapers(n, m) {
        assert IsReadAs(n, PaperOf(n).value) && IsReadAs(m, PaperOf(m).value);
      }
    }
  }

  // What the check takes for a paper

  /** What is named by its paper's id, a colon and a name. */
  predicate IsNamedKind(targetType: string) {
    targetType == "claim" || targetType == "section" || targetType == "figure"
  }

  /** The note is on the paper itself, or on a claim, section or figure named after it. */
  ghost predicate IsOn(n: Note, paperId: string) {
    if n.targetType == Some("paper") then n.targetId == Some(paperId)
    else
      && n.targetType.Some? && IsNamedKind(n.targetType.value)
      && exists name: string :: n.targetId == Some(paperId + ":" + name)
  }

  predicate OnAnnotation(n: Note) {
    n.targetType == Some("annotation")
  }

  /** After resolving at most depth annotations, the note is on the paper. */
  ghost predicate LivesWithin(notes: Notes, n: Note, paperId: string, depth: nat)
    decreases depth
  {
    if OnAnnotation(n) then
      && depth > 0 && n.targetId.Some? && n.targetId.value in notes
      && LivesWithin(notes, notes[n.targetId.value], paperId, depth - 1)
    else IsOn(n, paperId)
  }

  /** A note attached to an annotation lives where that annotation lives. */
  ghost predicate LivesOn(notes: Notes, n: Note, paperId: string) {
    exists depth: nat :: LivesWithin(notes, n, paperId, depth)
  }

  /** An id that has something in front of its first colon, if it has a colon. */
  predicate HasHead(paperId: string) {
    paperId != "" && paperId[0] != ':'
  }

  /** An id without a colon. */
  predicate IsPlain(paperId: string) {
    paperId != "" && ':' !in paperId
  }

  /** What stands before the first colon of a target is its paper id exactly when that id has no colon. */
  lemma PaperIdIsReadIff(paperId: string, name: string, targetType: string)
    requires IsNamedKind(targetType)
    ensures PaperIdOfTarget(paperId + ":" + name, targetType) == Some(paperId) <==> ':' !in paperId
    ensures HasHead(paperId) ==> PaperIdOfTarget(paperId + ":" + name, targetType).Some?
    ensures HasHead(paperId) ==> PaperIdOfTarget(paperId + ":" + name, targetType) != Some("")
  {
    var t := paperId + ":" + name;
    if ':' !in paperId {
      FindIn(paperId, ':', name);
      assert t[..|paperId|] == paperId;
    } else {
      var i := Find(paperId, ':').value;
      var head, rest := paperId[..i], paperId[i + 1..];
      assert paperId == head + [':'] + rest && t == head + [':'] + (rest + ":" + name);
      FindIn(head, ':', rest + ":" + name);
      assert t[..i] == head;
    }
  }

  lemma PaperOfPlain(n: Note, paperId: string)
    requires IsOn(n, paperId) && ':' !in paperId
    ensures PaperOf(n) == Some(paperId)
  {
    if n.targetType != Some("paper") {
      assert IsNamedKind(n.targetType.value);
      var name: string :| n.targetId == Some(paperId + ":" + name);
      PaperIdIsReadIff(paperId, name, OrEmpty(n.targetType));
    }
  }

  /** The annotation a note is attached to is not resolved: the note is taken to be on a paper without a colon in its
      id exactly when the annotation's own id continues that id with a colon. */
  lemma AttachedIsReadIff(n: Note, paperId: string)
    requires OnAnnotation(n) && n.targetId.Some? && ':' !in paperId
    ensures PaperOf(n) == Some(paperId) <==> exists name: string :: n.targetId.value == paperId + ":" + name
  {
    var t := n.targetId.value;
    if name: string :| t == paperId + ":" + name {
      FindIn(paperId, ':', name);
      assert t[..|paperId|] == paperId;
    }
    if PaperOf(n) == Some(paperId) {
      assert t == paperId + ":" + t[|paperId| + 1..];
    }
  }

  /** The check tells the notes, on the papers p and q, apart exactly when the papers differ. */
  ghost predicate ChecksPapers(notes: Notes, n: Note, m: Note, p: string, q: string) {
    LivesOn(notes, n, p) && LivesOn(notes, m, q) ==> (OnDifferentPapers(n, m) <==> p != q)
  }

  /** Whether notes attached to annotations are among those looked at. */
  predicate Admits(attached: bool, n: Note) {
    attached || !OnAnnotation(n)
  }

  ghost predicate KeyedById(notes: Notes) {
    forall i :: i in notes ==> notes[i].id == i
  }

  /** The check is right about notes on papers with these ids. */
  ghost predicate Enforced(ids: set<string>, attached: bool) {
    forall notes, n, m, p, q ::
      KeyedById(notes) && p in ids && q in ids && Admits(attached, n) && Admits(attached, m) ==>
        ChecksPapers(notes, n, m, p, q)
  }

  /** The same-paper rule is enforced exactly when none of the papers' ids has a colon and no note is attached to an
      annotation. */
  lemma SamePaperRuleIff(ids: set<string>, attached: bool)
    requires ids != {} && forall p :: p in ids ==> HasHead(p)
    ensures Enforced(ids, attached) <==> !attached && forall p :: p in ids ==> ':' !in p
  {
    if p :| p in ids && ':' in p {
      var n, m := ClaimAndItsPaperDiffer(p, "", "section");
      assert !ChecksPapers(map[], n, m, p, p);
    } else if attached {
      var p :| p in ids;
      var notes, n, m := AttachedAndItsPaperDiffer(p);
      assert !ChecksPapers(notes, n, m, p, p);
    } else {
      forall notes, n, m, p, q | p in ids && q in ids && !OnAnnotation(n) && !OnAnnotation(m)
        ensures ChecksPapers(notes, n, m, p, q)
      {
        if LivesOn(notes, n, p) && LivesOn(notes, m, q) {
          LivesDirectly(notes, n, p);
          LivesDirectly(notes, m, q);
          PaperOfPlain(n, p);
          PaperOfPlain(m, q);
        }
      }
    }
  }

  lemma LivesDirectly(notes: Notes, n: Note, paperId: string)
    requires !OnAnnotation(n)
    ensures LivesOn(notes, n, paperId) <==> IsOn(n, paperId)
  {
    assert IsOn(n, paperId) ==> LivesWithin(notes, n, paperId, 0);
  }

  lemma LivesThrough(notes: Notes, n: Note, paperId: string)
    requires OnAnnotation(n) && n.targetId.Some? && n.targetId.value in notes
    ensures LivesOn(notes, n, paperId) <==> LivesOn(notes, notes[n.targetId.value], paperId)
  {
    var m := notes[n.targetId.value];
    if LivesOn(notes, n, paperId) {
      var depth: nat :| LivesWithin(notes, n, paperId, depth);
      assert LivesWithin(notes, m, paperId, depth - 1);
    }
    if LivesOn(notes, m, paperId) {
      var depth: nat :| LivesWithin(notes, m, paperId, depth);
      assert LivesWithin(notes, n, paperId, depth + 1);
    }
  }

  function On(id: string, targetType: string, targetId: string, replyTo: Option<string>): Note {
    Note(id, true, Some(targetType), Some(targetId), replyTo, "", "")
  }

  lemma ClaimAndItsPaperDiffer(paperId: string, name: string, targetType: string) returns (n: Note, m: Note)
    requires HasHead(paperId) && ':' in paperId && IsNamedKind(targetType)
    ensures n == On("n", targetType, paperId + ":" + name, Some("m")) && m == On("m", "paper", paperId, None)
    ensures LivesOn(map[], n, paperId) && LivesOn(map[], m, paperId) && OnDifferentPapers(n, m)
  {
    PaperIdIsReadIff(paperId, name, targetType);
    n, m := On("n", targetType, paperId + ":" + name, Some("m")), On("m", "paper", paperId, None);
    LivesDirectly(map[], n, paperId);
    LivesDirectly(map[], m, paperId);
  }

  /** A note attached to an annotation with a colon in its id is told apart from notes on the paper they are both on. */
  lemma AttachedAndItsPaperDiffer(paperId: string) returns (notes: Notes, n: Note, m: Note)
    requires HasHead(paperId) && ':' !in paperId
    ensures KeyedById(notes) && LivesOn(notes, n, paperId) && LivesOn(notes, m, paperId) && OnDifferentPapers(n, m)
  {
    var head := paperId + "x";
    var a := On(head + ":" + "1", "paper", paperId, None);
    n, m := On("n", "annotation", a.id, Some("m")), On("m", "paper", paperId, None);
    notes := map[a.id := a, "m" := m];
    AttachedIsReadIff(n, head);
    LivesDirectly(notes, a, paperId);
    LivesDirectly(notes, m, paperId);
    LivesThrough(notes, n, paperId);
  }

  /** A note attached to an annotation on one paper may answer a note on another paper, colons or not. */
  lemma AttachedReplyAccepted(notes: Notes, n: Note, p: string)
    requires OnAnnotation(n) && n.targetId.Some? && ':' !in n.targetId.value && Replies(n)
    requires n.replyTo.value in notes && n.id != n.replyTo.value
    requires n.targetId.value in notes && LivesOn(notes, notes[n.targetId.value], p)
    ensures ReplyIsValid(notes, n) && LivesOn(notes, n, p)
  {
    LivesThrough(notes, n, p);
  }

  /** Everything on a slug-keyed paper other than the paper itself is taken to be on "rrxiv". */
  lemma SlugPapersAllLookAlike(slug: string, name: string)
    requires Slugs.IsSlug(slug)
    ensures PaperIdOfTarget(slug + ":" + name, "claim") == Some("rrxiv")
    ensures PaperIdOfTarget(slug + ":" + name, "section") == Some("rrxiv")
    ensures PaperIdOfTarget(slug, "paper") == Some(slug) && slug != "rrxiv" && ':' in slug && HasHead(slug)
  {
    var s := slug + ":" + name;
    assert slug[..6] == "rrxiv:" && s[..6] == slug[..6];
    assert s == "rrxiv" + [':'] + s[6..];
    FindIn("rrxiv", ':', s[6..]);
    assert s[..5] == s[..6][..5] == "rrxiv";
    assert slug[0] == slug[..6][0] && slug[5] == slug[..6][5];
  }

  /** A reply on a claim of a slug-keyed paper to a note on that very paper is refused. */
  lemma ReplyToOwnSlugPaperRefused(slug: string, name: string)
    requires Slugs.IsSlug(slug)
    ensures !ReplyIsValid(map["m" := On("m", "paper", slug, None)], On("n", "claim", slug + ":" + name, Some("m")))
  {
    SlugPapersAllLookAlike(slug, name);
  }

  /** A reply on a section of one slug-keyed paper to a note on a section of another is accepted. */
  lemma ReplyAcrossSlugPapersAccepted(slug: string, name: string, other: string, otherName: string)
    requires Slugs.IsSlug(slug) && Slugs.IsSlug(other)
    ensures ReplyIsValid(map["m" := On("m", "section", other + ":" + otherName, None)],
                         On("n", "section", slug + ":" + name, Some("m")))
  {
    SlugPapersAllLookAlike(slug, name);
    SlugPapersAllLookAlike(other, otherName);
  }

  // Following replies

  /** Which note each replying note answers. */
  function Parents(notes: Notes): map<string, string> {
    map i | i in notes && Replies(notes[i]) :: notes[i].replyTo.value
  }

  /** The note k replies further up, if the chain is that long. */
  function Up(p: map<string, string>, x: string, k: nat): Option<string>
    decreases k
  {
    if k == 0 then Some(x)
    else if x in p then Up(p, p[x], k - 1)
    else None
  }

  ghost predicate EndsFrom(p: map<string, string>, x: string) {
    exists k: nat :: Up(p, x, k) == None
  }

  ghost predicate AllEnd(p: map<string, string>) {
    forall x :: EndsFrom(p, x)
  }

  ghost predicate Leads(p: map<string, string>, x: string, y: string) {
    exists k: nat :: Up(p, x, k) == Some(y)
  }

  lemma {:induction false} UpAdds(p: map<string, string>, x: string, j: nat, k: nat)
    requires Up(p, x, j).Some?
    ensures Up(p, x, j + k) == Up(p, Up(p, x, j).value, k)
    decreases j
  {
    if j > 0 {
      UpAdds(p, p[x], j - 1, k);
    }
  }

  lemma {:induction false} UpStaysEnded(p: map<string, string>, x: string, j: nat, k: nat)
    requires Up(p, x, j) == None && j <= k
    ensures Up(p, x, k) == None
    decreases j
  {
    if j > 0 && x in p {
      UpStaysEnded(p, p[x], j - 1, k - 1);
    }
  }

  /** Two maps that agree except at a have the same chains up to a. */
  lemma {:induction false} UpUnlessThrough(p: map<string, string>, q: map<string, string>, a: string, x: string, k: nat)
    requires forall y :: y != a ==> (y in p <==> y in q) && (y in p ==> p[y] == q[y])
    requires forall j: nat :: j < k ==> Up(p, x, j) != Some(a)
    ensures Up(q, x, k) == Up(p, x, k)
    decreases k
  {
    if k > 0 {
      assert Up(p, x, 0) == Some(x);
      if x in p {
        forall j: nat | j < k - 1 ensures Up(p, p[x], j) != Some(a) {
          assert Up(p, x, j + 1) == Up(p, p[x], j);
        }
        UpUnlessThrough(p, q, a, p[x], k - 1);
      }
    }
  }

  lemma {:induction false} FirstVisit(p: map<string, string>, x: string, a: string, k: nat) returns (j: nat)
    requires Up(p, x, k) == Some(a)
    ensures j <= k && Up(p, x, j) == Some(a) && forall i: nat :: i < j ==> Up(p, x, i) != Some(a)
  {
    if i: nat :| i < k && Up(p, x, i) == Some(a) {
      j := FirstVisit(p, x, a, i);
    } else {
      j := k;
    }
  }

  lemma {:induction false} Around(p: map<string, string>, a: string, c: nat, m: nat)
    requires Up(p, a, c) == Some(a)
    ensures Up(p, a, m * c) == Some(a)
  {
    if m > 0 {
      Around(p, a, c, m - 1);
      assert m * c == (m - 1) * c + c;
      UpAdds(p, a, (m - 1) * c, c);
    }
  }

  lemma CycleNeverEnds(p: map<string, string>, a: string, c: nat)
    requires Up(p, a, c) == Some(a) && c > 0
    ensures !EndsFrom(p, a)
  {
    if k: nat :| Up(p, a, k) == None {
      Around(p, a, c, k);
      assert k * c >= k;
      UpStaysEnded(p, a, k, k * c);
    }
  }

  /** Letting a answer b keeps all chains ending exactly when following replies from b does not lead to a. */
  lemma AnsweringKeepsEndsIff(p: map<string, string>, a: string, b: string)
    requires AllEnd(p)
    ensures AllEnd(p[a := b]) <==> !Leads(p, b, a)
  {
    var q := p[a := b];
    if Leads(p, b, a) {
      var k: nat :| Up(p, b, k) == Some(a);
      var j := FirstVisit(p, b, a, k);
      UpUnlessThrough(p, q, a, b, j);
      assert Up(q, a, j + 1) == Some(a);
      CycleNeverEnds(q, a, j + 1);
    } else {
      forall x ensures EndsFrom(q, x) {
        StillEnds(p, a, b, x);
      }
    }
  }

  lemma StillEnds(p: map<string, string>, a: string, b: string, x: string)
    requires AllEnd(p) && !Leads(p, b, a)
    ensures EndsFrom(p[a := b], x)
  {
    var q := p[a := b];
    assert EndsFrom(p, x) && EndsFrom(p, b);
    var m: nat :| Up(p, b, m) == None;
    UpUnlessThrough(p, q, a, b, m);
    assert Up(q, a, m + 1) == None;
    if Leads(p, x, a) {
      var k: nat :| Up(p, x, k) == Some(a);
      var j := FirstVisit(p, x, a, k);
      UpUnlessThrough(p, q, a, x, j);
      UpAdds(q, x, j, m + 1);
      assert Up(q, x, j + (m + 1)) == None;
    } else {
      var k: nat :| Up(p, x, k) == None;
      UpUnlessThrough(p, q, a, x, k);
    }
  }

  /** Taking a reply away, or adding a note that answers nothing, keeps all chains ending. */
  lemma CuttingKeepsEnds(p: map<string, string>, a: string)
    requires AllEnd(p)
    ensures AllEnd(p - {a})
  {
    var q := p - {a};
    forall x ensures EndsFrom(q, x) {
      assert EndsFrom(p, x);
      if Leads(p, x, a) {
        var k: nat :| Up(p, x, k) == Some(a);
        var j := FirstVisit(p, x, a, k);
        UpUnlessThrough(p, q, a, x, j);
        UpAdds(q, x, j, 1);
        assert Up(q, x, j + 1) == None;
      } else {
        var k: nat :| Up(p, x, k) == None;
        UpUnlessThrough(p, q, a, x, k);
      }
    }
  }

  // What every write keeps

  /** Every reply answers a stored note. */
  ghost predicate Closed(notes: Notes) {
    forall i :: i in notes && Replies(notes[i]) ==> notes[i].replyTo.value in notes
  }

  /** Two notes that are not attached to annotations and are on papers whose ids have no colon are on the same paper;
      two notes on claims are on the same claim. */
  ghost predicate OnSameArtefact(n: Note, m: Note) {
    && (forall p, q :: IsOn(n, p) && IsOn(m, q) && IsPlain(p) && IsPlain(q) ==> p == q)
    && !OnDifferentClaims(n, m)
  }

  /** A reply is on the artefact of what it answers. */
  ghost predicate Together(notes: Notes) {
    forall i :: i in notes && Replies(notes[i]) && notes[i].replyTo.value in notes ==>
      OnSameArtefact(notes[i], notes[notes[i].replyTo.value])
  }

  lemma ValidReplyIsOnSameArtefact(notes: Notes, n: Note)
    requires ReplyIsValid(notes, n) && Replies(n)
    ensures OnSameArtefact(n, notes[n.replyTo.value])
  {
    var m := notes[n.replyTo.value];
    forall p, q | IsOn(n, p) && IsOn(m, q) && IsPlain(p) && IsPlain(q) ensures p == q {
      PaperOfPlain(n, p);
      PaperOfPlain(m, q);
    }
  }

  ghost predicate ThreadsOk(notes: Notes) {
    KeyedById(notes) && Closed(notes) && Together(notes) && AllEnd(Parents(notes))
  }

  lemma ParentsOfPut(notes: Notes, n: Note)
    ensures Parents(notes[n.id := n])
         == if Replies(n) then Parents(notes)[n.id := n.replyTo.value] else Parents(notes) - {n.id}
  {
  }

  lemma {:induction false} LeadsStaysStored(notes: Notes, x: string, k: nat)
    requires Closed(notes) && x in notes
    ensures Up(Parents(notes), x, k).Some? ==> Up(Parents(notes), x, k).value in notes
    decreases k
  {
    if k > 0 && x in Parents(notes) {
      LeadsStaysStored(notes, Parents(notes)[x], k - 1);
    }
  }

  /** Storing a valid note, under a new id or over an old one, keeps every chain of replies ending exactly when
      the chain starting at the note it answers does not come by its id. */
  lemma StoringKeepsEndsIff(notes: Notes, n: Note)
    requires ThreadsOk(notes) && ReplyIsValid(notes, n)
    ensures AllEnd(Parents(notes[n.id := n])) <==> !(Replies(n) && Leads(Parents(notes), n.replyTo.value, n.id))
  {
    ParentsOfPut(notes, n);
    if Replies(n) {
      AnsweringKeepsEndsIff(Parents(notes), n.id, n.replyTo.value);
    } else {
      CuttingKeepsEnds(Parents(notes), n.id);
    }
  }

  /** So a note with a new id always does. */
  lemma NewNoteKeepsThreads(notes: Notes, n: Note)
    requires ThreadsOk(notes) && ReplyIsValid(notes, n) && n.id !in notes
    ensures ThreadsOk(notes[n.id := n])
  {
    if Replies(n) && Leads(Parents(notes), n.replyTo.value, n.id) {
      var k: nat :| Up(Parents(notes), n.replyTo.value, k) == Some(n.id);
      LeadsStaysStored(notes, n.replyTo.value, k);
    }
    StoringKeepsEndsIff(notes, n);
    NewNoteKeepsTogether(notes, n);
    hide Together, AllEnd, ReplyIsValid;
  }

  lemma NewNoteKeepsTogether(notes: Notes, n: Note)
    requires Together(notes) && Closed(notes) && ReplyIsValid(notes, n) && n.id !in notes
    ensures Together(notes[n.id := n])
  {
    hide OnSameArtefact;
    if Replies(n) {
      ValidReplyIsOnSameArtefact(notes, n);
    }
  }

  /** The root of a thread: the last note on the way up, which answers nothing. */
  lemma ThreadHasRoot(notes: Notes, x: string) returns (root: string, k: nat)
    requires ThreadsOk(notes) && x in notes
    ensures Up(Parents(notes), x, k) == Some(root) && root in notes && !Replies(notes[root])
  {
    var p := Parents(notes);
    assert EndsFrom(p, x);
    var m: nat :| Up(p, x, m) == None;
    k := LastStep(p, x, m);
    root := Up(p, x, k).value;
    LeadsStaysStored(notes, x, k);
  }

  lemma {:induction false} LastStep(p: map<string, string>, x: string, m: nat) returns (k: nat)
    requires Up(p, x, m) == None
    ensures Up(p, x, k).Some? && Up(p, x, k).value !in p
    decreases m
  {
    k := 0;
    if x in p {
      var later := LastStep(p, p[x], m - 1);
      k := later + 1;
    }
  }

  /** As long as a thread stays on claims, it stays on one claim. */
  lemma {:induction false} ThreadStaysOnOneClaim(notes: Notes, x: string, k: nat)
    requires ThreadsOk(notes) && x in notes && Up(Parents(notes), x, k).Some?
    requires forall j: nat, y :: j <= k && Up(Parents(notes), x, j) == Some(y) && y in notes ==> OnClaim(notes[y])
    ensures Up(Parents(notes), x, k).value in notes
    ensures notes[Up(Parents(notes), x, k).value].targetId == notes[x].targetId
    decreases k
  {
    var p := Parents(notes);
    if k > 0 {
      assert Up(p, x, 0) == Some(x) && Up(p, x, 1) == Some(p[x]);
      ParentOnSameClaim(notes, x);
      hide ThreadsOk, Parents, OnClaim;
      forall j: nat, y | j <= k - 1 && Up(p, p[x], j) == Some(y) && y in notes ensures OnClaim(notes[y]) {
        assert Up(p, x, j + 1) == Some(y);
      }
      ThreadStaysOnOneClaim(notes, p[x], k - 1);
    }
  }

  lemma ParentOnSameClaim(notes: Notes, x: string)
    requires ThreadsOk(notes) && x in Parents(notes)
    ensures Parents(notes)[x] in notes
    ensures OnClaim(notes[x]) && OnClaim(notes[Parents(notes)[x]]) ==>
      notes[x].targetId == notes[Parents(notes)[x]].targetId
  {
    hide AllEnd, IsOn;
  }

  /** As long as a thread stays on papers whose ids have no colon, it stays on one paper. */
  lemma {:induction false} ThreadStaysOnOnePaper(notes: Notes, x: string, k: nat, p: string)
    requires ThreadsOk(notes) && x in notes && IsOn(notes[x], p) && IsPlain(p) && Up(Parents(notes), x, k).Some?
    requires forall j: nat, y :: j <= k && Up(Parents(notes), x, j) == Some(y) && y in notes ==> IsOnPlainPaper(notes[y])
    ensures Up(Parents(notes), x, k).value in notes && IsOn(notes[Up(Parents(notes), x, k).value], p)
    decreases k
  {
    hide *;
    var parents := Parents(notes);
    UpFrom(parents, x, k);
    if k > 0 {
      var y := parents[x];
      assert Up(parents, x, 1) == Some(y);
      ThreadIsClosed(notes);
      LeadsStaysStored(notes, x, 1);
      ParentOnSamePaper(notes, x, p);
      forall j: nat, z | j <= k - 1 && Up(parents, y, j) == Some(z) && z in notes ensures IsOnPlainPaper(notes[z]) {
        UpFrom(parents, x, j + 1);
      }
      ThreadStaysOnOnePaper(notes, y, k - 1, p);
    }
  }

  lemma UpFrom(p: map<string, string>, x: string, k: nat)
    ensures Up(p, x, 0) == Some(x)
    ensures k > 0 && Up(p, x, k).Some? ==> x in p
    ensures k > 0 && x in p ==> Up(p, x, k) == Up(p, p[x], k - 1) && Up(p, x, 1) == Some(p[x])
  {
  }

  lemma ThreadIsClosed(notes: Notes)
    requires ThreadsOk(notes)
    ensures Closed(notes)
  {
    hide Closed, Together, AllEnd;
  }

  ghost predicate IsOnPlainPaper(n: Note) {
    exists p :: IsOn(n, p) && IsPlain(p)
  }

  lemma ParentOnSamePaper(notes: Notes, x: string, p: string)
    requires ThreadsOk(notes) && x in Parents(notes) && IsOn(notes[x], p) && IsPlain(p)
    requires Parents(notes)[x] in notes && IsOnPlainPaper(notes[Parents(notes)[x]])
    ensures IsOn(notes[Parents(notes)[x]], p)
  {
    hide AllEnd, IsOn;
    assert OnSameArtefact(notes[x], notes[Parents(notes)[x]]);
    var q :| IsOn(notes[Parents(notes)[x]], q) && IsPlain(q);
  }
}

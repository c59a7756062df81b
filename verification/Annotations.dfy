/** Posting annotations: one by one, in bulk, and again under an idempotency key. */
module AnnotationWrites {
  import opened Wrappers
  import opened Text
  import opened Threads
  import opened KeyOrder
  import Pagination

  // The validation cascade

  /** Claim and paper ids the store knows, and the schema of annotations. */
  datatype Env = Env(claims: set<string>, papers: set<string>, schema: Note -> bool)

  predicate IsNameChar(c: char) {
    'A' <= c <= 'Z' || 'a' <= c <= 'z' || '0' <= c <= '9' || c == '_' || c == '.' || c == '-'
  }

  /** Name characters, a colon, and more of either. The pattern's end anchor also accepts one final line break. */
  predicate IsClaimId(s: string) {
    IsClaimIdLine(if s != "" && s[|s| - 1] == '\n' then s[..|s| - 1] else s)
  }

  predicate IsClaimIdLine(body: string) {
    match Find(body, ':')
    case None => false
    case Some(i) =>
      && 0 < i < |body| - 1
      && (forall k :: 0 <= k < i ==> IsNameChar(body[k]))
      && forall k :: i < k < |body| ==> IsNameChar(body[k]) || body[k] == ':'
  }

  /** The status of the first check that fails, or 201. */
  function Check(env: Env, notes: Notes, n: Note): nat {
    if !n.hasCreator then 400
    else if !env.schema(n) then 422
    else if OnClaim(n) && (n.targetId == None || !IsClaimId(n.targetId.value)) then 422
    else if OnClaim(n) && n.targetId.value !in env.claims then 404
    else if n.targetType == Some("paper") && (n.targetId == None || n.targetId.value !in env.papers) then 404
    else if !ReplyIsValid(notes, n) then 400
    else 201
  }

  function WithId(n: Note, freshId: string): Note {
    if n.id == "" then n.(id := freshId) else n
  }

  // The effect of a request on the store

  datatype Response = Response(status: nat, note: Option<Note>)

  datatype Entry = Entry(hash: string, note: Note)

  /** The notes by id, the ids in the order of their first insertion, and the idempotency entries by token and key. */
  datatype State = State(notes: Notes, order: seq<string>, cache: map<(string, string), Entry>)

  function Put(st: State, n: Note): State {
    st.(notes := st.notes[n.id := n], order := if n.id in st.notes then st.order else st.order + [n.id])
  }

  function Post(env: Env, st: State, n: Note, freshId: string): (State, Response) {
    var m := WithId(n, freshId);
    var status := Check(env, st.notes, m);
    if status == 201 then (Put(st, m), Response(201, Some(m))) else (st, Response(status, None))
  }

  /** An element of a bulk request. */
  datatype Item = NotAnObject | Object(note: Note)

  function PostItem(env: Env, st: State, item: Item, freshId: string): (State, Response) {
    match item
    case NotAnObject => (st, Response(422, None))
    case Object(n) => Post(env, st, n, freshId)
  }

  /** The items posted one after the other. */
  function PostAll(env: Env, st: State, items: seq<Item>, freshIds: seq<string>): (State, seq<Response>)
    requires |items| == |freshIds|
  {
    if items == [] then (st, [])
    else
      var k := |items| - 1;
      var before := PostAll(env, st, items[..k], freshIds[..k]);
      var last := PostItem(env, before.0, items[k], freshIds[k]);
      (last.0, before.1 + [last.1])
  }

  /** A single request of a named identity. An empty key counts as none. */
  function Submit(env: Env, st: State, token: string, key: Option<string>, hash: string, n: Note, freshId: string)
    : (State, Response)
  {
    if key.None? || key.value == "" then Post(env, st, n, freshId)
    else if (token, key.value) in st.cache then
      var entry := st.cache[(token, key.value)];
      (st, if entry.hash == hash then Response(201, Some(entry.note)) else Response(409, None))
    else
      var posted := Post(env, st, n, freshId);
      if posted.1.note.None? then posted
      else (posted.0.(cache := posted.0.cache[(token, key.value) := Entry(hash, posted.1.note.value)]), posted.1)
  }

  // Which notes are accepted, spelled out

  /** Letters, digits, underscores, dots and hyphens, then a colon, then more of these or colons, then perhaps one line
      break. */
  ghost predicate HasClaimShape(s: string) {
    exists paper, name, end :: IsShape(s, paper, name, end)
  }

  ghost predicate IsShape(s: string, paper: string, name: string, end: string) {
    && s == paper + ":" + name + end && paper != "" && name != "" && (end == "" || end == "\n")
    && (forall c :: c in paper ==> 'A' <= c <= 'Z' || 'a' <= c <= 'z' || '0' <= c <= '9' || c in ['_', '.', '-'])
    && (forall c :: c in name ==> 'A' <= c <= 'Z' || 'a' <= c <= 'z' || '0' <= c <= '9' || c in ['_', '.', '-', ':'])
  }

  lemma IsClaimIdMeans(s: string)
    ensures IsClaimId(s) <==> HasClaimShape(s)
  {
    if IsClaimId(s) {
      ClaimIdHasShape(s);
    }
    if paper, name, end :| IsShape(s, paper, name, end) {
      ShapeIsClaimId(s, paper, name, end);
    }
  }

  lemma ClaimIdHasShape(s: string)
    requires IsClaimId(s)
    ensures HasClaimShape(s)
  {
    var end := if s != "" && s[|s| - 1] == '\n' then "\n" else "";
    var body := if s != "" && s[|s| - 1] == '\n' then s[..|s| - 1] else s;
    assert s == body + end && IsClaimIdLine(body);
    hide *;
    var paper, name := LineHasShape(body);
    ShapeWithEnd(paper, name, end);
  }

  lemma ShapeWithEnd(paper: string, name: string, end: string)
    requires IsShape(paper + ":" + name, paper, name, "") && (end == "" || end == "\n")
    ensures IsShape(paper + ":" + name + end, paper, name, end)
  {
  }

  lemma LineHasShape(body: string) returns (paper: string, name: string)
    requires IsClaimIdLine(body)
    ensures body == paper + ":" + name && IsShape(body, paper, name, "")
  {
    var i := Find(body, ':').value;
    paper, name := body[..i], body[i + 1..];
    forall k | 0 <= k < |name| ensures IsNameChar(name[k]) || name[k] == ':' {
      assert name[k] == body[i + 1 + k];
    }
    NameCharsMean(paper, name);
    CutAround(body, i);
    hide IsNameChar, IsClaimIdLine;
    assert body == paper + ":" + name + "";
  }

  lemma CutAround(body: string, i: nat)
    requires i < |body| && body[i] == ':'
    ensures body == body[..i] + ":" + body[i + 1..]
  {
  }

  lemma NameCharsMean(paper: string, name: string)
    requires forall k :: 0 <= k < |paper| ==> IsNameChar(paper[k])
    requires forall k :: 0 <= k < |name| ==> IsNameChar(name[k]) || name[k] == ':'
    ensures forall c :: c in paper ==> 'A' <= c <= 'Z' || 'a' <= c <= 'z' || '0' <= c <= '9' || c in ['_', '.', '-']
    ensures forall c :: c in name ==> 'A' <= c <= 'Z' || 'a' <= c <= 'z' || '0' <= c <= '9' || c in ['_', '.', '-', ':']
  {
  }

  lemma ShapeIsClaimId(s: string, paper: string, name: string, end: string)
    requires IsShape(s, paper, name, end)
    ensures IsClaimId(s)
  {
    var body := paper + ":" + name;
    hide IsClaimIdLine;
    assert s == body + end;
    assert name[|name| - 1] in name && body[|body| - 1] == name[|name| - 1] != '\n';
    assert body == if s != "" && s[|s| - 1] == '\n' then s[..|s| - 1] else s;
    ShapeIsLine(paper, name);
  }

  lemma ShapeIsLine(paper: string, name: string)
    requires IsShape(paper + ":" + name, paper, name, "")
    ensures IsClaimIdLine(paper + ":" + name)
  {
    var body := paper + ":" + name;
    FindIn(paper, ':', name);
    assert body == paper + [':'] + name;
    forall k | 0 <= k < |paper| ensures IsNameChar(body[k]) {
      assert body[k] == paper[k] && paper[k] in paper;
    }
    forall k | |paper| < k < |body| ensures IsNameChar(body[k]) || body[k] == ':' {
      assert body[k] == name[k - |paper| - 1] && name[k - |paper| - 1] in name;
    }
  }

  /** A target that is a claim or a paper is a known one. */
  ghost predicate TargetIsKnown(env: Env, n: Note) {
    && (n.targetType == Some("claim") ==>
          n.targetId.Some? && HasClaimShape(n.targetId.value) && n.targetId.value in env.claims)
    && (n.targetType == Some("paper") ==> n.targetId.Some? && n.targetId.value in env.papers)
  }

  /** The exact condition of every answer, and what it does to the store. */
  lemma PostMeans(env: Env, st: State, n: Note, freshId: string)
    ensures var m := if n.id == "" then n.(id := freshId) else n;
            var (after, r) := Post(env, st, n, freshId);
            && (r.status == 201 <==>
                  m.hasCreator && env.schema(m) && TargetIsKnown(env, m) && FollowsReplyRule(st.notes, m))
            && (r.status == 400 <==>
                  !m.hasCreator || (env.schema(m) && TargetIsKnown(env, m) && !FollowsReplyRule(st.notes, m)))
            && (r.status == 422 <==>
                  m.hasCreator && (!env.schema(m) || (m.targetType == Some("claim")
                                                      && (m.targetId.None? || !HasClaimShape(m.targetId.value)))))
            && (r.status == 404 <==>
                  m.hasCreator && env.schema(m)
                  && ((m.targetType == Some("claim") && m.targetId.Some? && HasClaimShape(m.targetId.value)
                       && m.targetId.value !in env.claims)
                      || (m.targetType == Some("paper") && (m.targetId.None? || m.targetId.value !in env.papers))))
            && (if r.status == 201 then after.notes == st.notes[m.id := m] && r.note == Some(m)
                else after == st && r.note == None)
            && (r.status == 201 ==> after.order == st.order + if m.id in st.notes then [] else [m.id])
            && after.cache == st.cache
  {
    var m := WithId(n, freshId);
    ReplyIsValidMeans(st.notes, m);
    if m.targetId.Some? {
      IsClaimIdMeans(m.targetId.value);
    }
    hide ReplyIsValid, FollowsReplyRule, IsClaimId, HasClaimShape;
  }

  /** A request that brings a key for the first time is answered like one without, and its answer is kept if it was
      accepted. */
  lemma SubmitMeans(env: Env, st: State, token: string, key: Option<string>, hash: string, n: Note, freshId: string)
    requires key.Some? && key.value != "" ==> (token, key.value) !in st.cache
    ensures var (posted, r) := Post(env, st, n, freshId);
            Submit(env, st, token, key, hash, n, freshId)
            == (if key.Some? && key.value != "" && r.status == 201
                then posted.(cache := posted.cache[(token, key.value) := Entry(hash, r.note.value)]) else posted, r)
  {
    hide Check;
  }

  class AnnotationStore {
    var claims: set<string>
    var papers: set<string>
    var notes: Notes
    var order: seq<string>
    var cache: map<(string, string), Entry>
    const schema: Note -> bool

    constructor (schema: Note -> bool)
      ensures this.schema == schema && claims == {} && papers == {}
      ensures Abstract() == State(map[], [], map[])
    {
      this.schema := schema;
      claims, papers, notes, order, cache := {}, {}, map[], [], map[];
    }

    ghost function Abstract(): State
      reads this
    {
      State(notes, order, cache)
    }

    function Environment(): Env
      reads this
    {
      Env(claims, papers, schema)
    }

    method AddAnnotation(n: Note)
      modifies this`notes, this`order
      ensures Abstract() == Put(old(Abstract()), n)
    {
      if n.id !in notes {
        order := order + [n.id];
      }
      notes := notes[n.id := n];
    }

    /** One annotation in one request, possibly under an idempotency key. */
    method CreateAnnotation(anonymous: bool, token: string, key: Option<string>, hash: string, body: Note,
                            freshId: string)
      returns (r: Response)
      modifies this`notes, this`order, this`cache
      ensures anonymous ==> r == Response(403, None) && Abstract() == old(Abstract())
      ensures !anonymous ==>
        (Abstract(), r) == Submit(Environment(), old(Abstract()), token, key, hash, body, freshId)
    {
      if anonymous {
        return Response(403, None);
      }
      if key.Some? && key.value != "" {
        if (token, key.value) in cache {
          var existing := cache[(token, key.value)];
          if existing.hash != hash {
            return Response(409, None);
          }
          return Response(201, Some(existing.note));
        }
      }
      var n := body;
      if n.id == "" {
        n := n.(id := freshId);
      }
      if !n.hasCreator {
        return Response(400, None);
      }
      if !schema(n) {
        return Response(422, None);
      }
      if n.targetType == Some("claim") {
        if n.targetId == None || !IsClaimId(n.targetId.value) {
          return Response(422, None);
        }
        if n.targetId.value !in claims {
          return Response(404, None);
        }
      } else if n.targetType == Some("paper") {
        if n.targetId == None || n.targetId.value !in papers {
          return Response(404, None);
        }
      }
      if !ReplyIsValid(notes, n) {
        return Response(400, None);
      }
      AddAnnotation(n);
      if key.Some? && key.value != "" {
        cache := cache[(token, key.value) := Entry(hash, n)];
      }
      r := Response(201, Some(n));
    }

    /** Up to 100 annotations in one request, each checked and stored on its own. */
    method CreateAnnotationsBulk(anonymous: bool, raw: Option<seq<Item>>, freshIds: seq<string>)
      returns (r: Result<seq<Response>, nat>)
      requires raw.Some? ==> |raw.value| == |freshIds|
      modifies this`notes, this`order
      ensures r.Err? <==> anonymous || raw.None? || |raw.value| > 100
      ensures r.Err? ==> r.error == (if anonymous then 403 else 400) && Abstract() == old(Abstract())
      ensures r.Ok? ==> (Abstract(), r.value) == PostAll(Environment(), old(Abstract()), raw.value, freshIds)
    {
      if anonymous {
        return Err(403);
      }
      if raw.None? {
        return Err(400);
      }
      var items := raw.value;
      if |items| == 0 {
        return Ok([]);
      }
      if |items| > 100 {
        return Err(400);
      }
      hide IsClaimId, ReplyIsValid;
      ghost var env, before := Environment(), Abstract();
      var results: seq<Response> := [];
      for i := 0 to |items|
        invariant Environment() == env && cache == before.cache
        invariant (Abstract(), results) == PostAll(env, before, items[..i], freshIds[..i])
      {
        PostAllStep(env, before, items, freshIds, i);
        if items[i].NotAnObject? {
          results := results + [Response(422, None)];
          continue;
        }
        var item := items[i].note;
        if item.id == "" {
          item := item.(id := freshIds[i]);
        }
        assert item == WithId(items[i].note, freshIds[i]);
        if !item.hasCreator {
          results := results + [Response(400, None)];
          continue;
        }
        if !schema(item) {
          results := results + [Response(422, None)];
          continue;
        }
        if item.targetType == Some("claim") {
          if item.targetId == None || !IsClaimId(item.targetId.value) {
            results := results + [Response(422, None)];
            continue;
          }
          if item.targetId.value !in claims {
            results := results + [Response(404, None)];
            continue;
          }
        } else if item.targetType == Some("paper") && (item.targetId == None || item.targetId.value !in papers) {
          results := results + [Response(404, None)];
          continue;
        }
        if !ReplyIsValid(notes, item) {
          results := results + [Response(400, None)];
          continue;
        }
        AddAnnotation(item);
        results := results + [Response(201, Some(item))];
      }
      assert items[..|items|] == items && freshIds[..|items|] == freshIds;
      r := Ok(results);
    }
  }

  lemma PostAllStep(env: Env, st: State, items: seq<Item>, freshIds: seq<string>, i: nat)
    requires |items| == |freshIds| && i < |items|
    ensures var before := PostAll(env, st, items[..i], freshIds[..i]);
            var last := PostItem(env, before.0, items[i], freshIds[i]);
            PostAll(env, st, items[..i + 1], freshIds[..i + 1]) == (last.0, before.1 + [last.1])
  {
    assert items[..i + 1][..i] == items[..i] && freshIds[..i + 1][..i] == freshIds[..i];
    hide PostItem;
  }

  // Bulk and single requests agree

  /** The object items of a bulk request with the ids set aside for them. */
  function ObjectItems(items: seq<Item>, freshIds: seq<string>): seq<(Note, string)>
    requires |items| == |freshIds|
  {
    if items == [] then []
    else
      var k := |items| - 1;
      var front := ObjectItems(items[..k], freshIds[..k]);
      if items[k].Object? then front + [(items[k].note, freshIds[k])] else front
  }

  /** The responses at the positions of object items. */
  function ObjectResponses(items: seq<Item>, responses: seq<Response>): seq<Response>
    requires |items| == |responses|
  {
    if items == [] then []
    else
      var k := |items| - 1;
      var front := ObjectResponses(items[..k], responses[..k]);
      if items[k].Object? then front + [responses[k]] else front
  }

  /** Notes submitted by single requests without an idempotency key. */
  function SubmitEach(env: Env, st: State, token: string, posts: seq<(Note, string)>): (State, seq<Response>) {
    if posts == [] then (st, [])
    else
      var k := |posts| - 1;
      var before := SubmitEach(env, st, token, posts[..k]);
      var last := Submit(env, before.0, token, None, "", posts[k].0, posts[k].1);
      (last.0, before.1 + [last.1])
  }

  /** Whatever is not an object is refused with 422 in its place. */
  lemma {:induction false} OneResponseEach(env: Env, st: State, items: seq<Item>, freshIds: seq<string>)
    requires |items| == |freshIds|
    ensures |PostAll(env, st, items, freshIds).1| == |items|
    ensures forall i :: 0 <= i < |items| && items[i].NotAnObject? ==>
      PostAll(env, st, items, freshIds).1[i] == Response(422, None)
  {
    hide Post;
    if items != [] {
      var k := |items| - 1;
      OneResponseEach(env, st, items[..k], freshIds[..k]);
      var before := PostAll(env, st, items[..k], freshIds[..k]).1;
      forall i | 0 <= i < k && items[i].NotAnObject? ensures before[i] == Response(422, None) {
        assert items[..k][i] == items[i];
      }
    }
  }

  /** A bulk request leaves the store as single requests with its object items would, and answers each of them
      alike. */
  lemma {:induction false} BulkActsLikeSingles(env: Env, st: State, items: seq<Item>, freshIds: seq<string>,
                                               token: string)
    requires |items| == |freshIds|
    ensures |PostAll(env, st, items, freshIds).1| == |items|
    ensures PostAll(env, st, items, freshIds).0 == SubmitEach(env, st, token, ObjectItems(items, freshIds)).0
    ensures ObjectResponses(items, PostAll(env, st, items, freshIds).1)
         == SubmitEach(env, st, token, ObjectItems(items, freshIds)).1
  {
    if items != [] {
      var k := |items| - 1;
      OneResponseEach(env, st, items, freshIds);
      BulkActsLikeSingles(env, st, items[..k], freshIds[..k], token);
      var singles := ObjectItems(items[..k], freshIds[..k]);
      PostAllLast(env, st, items, freshIds);
      if items[k].Object? {
        SubmitOneMore(env, st, token, singles, items[k].note, freshIds[k]);
      }
      hide Post, PostAll, SubmitEach;
    }
  }

  lemma PostAllLast(env: Env, st: State, items: seq<Item>, freshIds: seq<string>)
    requires |items| == |freshIds| && items != []
    ensures var k := |items| - 1;
            var before, after := PostAll(env, st, items[..k], freshIds[..k]), PostAll(env, st, items, freshIds);
            && (items[k].NotAnObject? ==> after.0 == before.0)
            && (items[k].Object? ==> after.0 == Post(env, before.0, items[k].note, freshIds[k]).0)
            && (items[k].Object? ==> after.1 == before.1 + [Post(env, before.0, items[k].note, freshIds[k]).1])
            && |after.1| > 0 && after.1[..|after.1| - 1] == before.1
  {
    hide Post;
  }

  lemma SubmitOneMore(env: Env, st: State, token: string, posts: seq<(Note, string)>, n: Note, freshId: string)
    ensures var before := SubmitEach(env, st, token, posts);
            var last := Post(env, before.0, n, freshId);
            SubmitEach(env, st, token, posts + [(n, freshId)]) == (last.0, before.1 + [last.1])
  {
    hide Post;
    assert (posts + [(n, freshId)])[..|posts|] == posts;
  }

  // Runs

  datatype Request =
    | Single(token: string, key: Option<string>, hash: string, note: Note, freshId: string)
    | Bulk(items: seq<Item>, freshIds: seq<string>)

  predicate WellFormed(req: Request) {
    req.Bulk? ==> |req.items| == |req.freshIds|
  }

  function Step(env: Env, st: State, req: Request): State
    requires WellFormed(req)
  {
    match req
    case Single(token, key, hash, n, freshId) => Submit(env, st, token, key, hash, n, freshId).0
    case Bulk(items, freshIds) => if |items| > 100 then st else PostAll(env, st, items, freshIds).0
  }

  /** Requests of named identities, each met by the claims, papers and schema of its time. */
  function Run(st: State, steps: seq<(Env, Request)>): State
    requires forall i :: 0 <= i < |steps| ==> WellFormed(steps[i].1)
  {
    if steps == [] then st
    else
      var k := |steps| - 1;
      Step(steps[k].0, Run(st, steps[..k]), steps[k].1)
  }

  predicate IsNewItem(st: State, item: Item, freshId: string) {
    item.Object? ==> WithId(item.note, freshId).id !in st.notes
  }

  /** Every item of the bulk request has an id unknown when its turn comes. */
  predicate BringsNewIds(env: Env, st: State, items: seq<Item>, freshIds: seq<string>)
    requires |items| == |freshIds|
  {
    items == [] ||
      var k := |items| - 1;
      && BringsNewIds(env, st, items[..k], freshIds[..k])
      && IsNewItem(PostAll(env, st, items[..k], freshIds[..k]).0, items[k], freshIds[k])
  }

  predicate StepBringsNewIds(env: Env, st: State, req: Request)
    requires WellFormed(req)
  {
    match req
    case Single(_, _, _, n, freshId) => IsNewItem(st, Object(n), freshId)
    case Bulk(items, freshIds) => BringsNewIds(env, st, items, freshIds)
  }

  predicate RunBringsNewIds(st: State, steps: seq<(Env, Request)>)
    requires forall i :: 0 <= i < |steps| ==> WellFormed(steps[i].1)
  {
    steps == [] ||
      var k := |steps| - 1;
      RunBringsNewIds(st, steps[..k]) && StepBringsNewIds(steps[k].0, Run(st, steps[..k]), steps[k].1)
  }

  lemma PostKeepsThreads(env: Env, st: State, n: Note, freshId: string)
    requires ThreadsOk(st.notes) && IsNewItem(st, Object(n), freshId)
    ensures ThreadsOk(Post(env, st, n, freshId).0.notes)
  {
    var m := WithId(n, freshId);
    hide ThreadsOk, IsClaimId, ReplyIsValid;
    if Check(env, st.notes, m) == 201 {
      NewNoteKeepsThreads(st.notes, m);
    }
  }

  lemma {:induction false} PostAllKeepsThreads(env: Env, st: State, items: seq<Item>, freshIds: seq<string>)
    requires |items| == |freshIds|
    requires ThreadsOk(st.notes) && BringsNewIds(env, st, items, freshIds)
    ensures ThreadsOk(PostAll(env, st, items, freshIds).0.notes)
  {
    hide Post, ThreadsOk;
    if items != [] {
      var k := |items| - 1;
      PostAllKeepsThreads(env, st, items[..k], freshIds[..k]);
      if items[k].Object? {
        PostKeepsThreads(env, PostAll(env, st, items[..k], freshIds[..k]).0, items[k].note, freshIds[k]);
      }
    }
  }

  /** Over any run of single and bulk requests with new ids, threads stay sound: all replies answer stored notes, on
      the same artefact unless one of the two is attached to an annotation or on a paper with a colon in its id, and
      following them always ends. */
  lemma {:induction false} RunKeepsThreads(st: State, steps: seq<(Env, Request)>)
    requires forall i :: 0 <= i < |steps| ==> WellFormed(steps[i].1)
    requires ThreadsOk(st.notes) && RunBringsNewIds(st, steps)
    ensures ThreadsOk(Run(st, steps).notes)
  {
    if steps != [] {
      var k := |steps| - 1;
      RunKeepsThreads(st, steps[..k]);
      var before := Run(st, steps[..k]);
      hide ThreadsOk, Post, PostAll;
      match steps[k].1
      case Single(token, key, hash, n, freshId) => PostKeepsThreads(steps[k].0, before, n, freshId);
      case Bulk(items, freshIds) => PostAllKeepsThreads(steps[k].0, before, items, freshIds);
    }
  }

  /** The note was accepted under the claims and papers of one of the steps. */
  ghost predicate WasKnown(n: Note, steps: seq<(Env, Request)>) {
    exists i :: 0 <= i < |steps| && n.hasCreator && steps[i].0.schema(n) && TargetIsKnown(steps[i].0, n)
  }

  lemma {:induction false} PostAllStoresKnownTargets(env: Env, st: State, items: seq<Item>, freshIds: seq<string>, x: string)
    requires |items| == |freshIds| && x in PostAll(env, st, items, freshIds).0.notes
    ensures var n := PostAll(env, st, items, freshIds).0.notes[x];
            (x in st.notes && st.notes[x] == n) || (n.hasCreator && env.schema(n) && TargetIsKnown(env, n))
  {
    hide Post, TargetIsKnown;
    if items != [] {
      var k := |items| - 1;
      var before := PostAll(env, st, items[..k], freshIds[..k]).0;
      if items[k].Object? {
        PostMeans(env, before, items[k].note, freshIds[k]);
      }
      if x in before.notes {
        PostAllStoresKnownTargets(env, st, items[..k], freshIds[..k], x);
      }
    }
  }

  /** After any run every note that is new or has changed has a creator, is one the schema takes, and names a claim or
      paper, if it names one, that was known when the note was stored. */
  lemma {:induction false} RunStoresKnownTargets(st: State, steps: seq<(Env, Request)>, x: string)
    requires forall i :: 0 <= i < |steps| ==> WellFormed(steps[i].1)
    requires x in Run(st, steps).notes
    ensures (x in st.notes && st.notes[x] == Run(st, steps).notes[x]) || WasKnown(Run(st, steps).notes[x], steps)
  {
    if steps != [] {
      var k := |steps| - 1;
      var before := Run(st, steps[..k]);
      StepStoresKnownTargets(before, steps[k].0, steps[k].1, x);
      hide Step, TargetIsKnown;
      if x in before.notes && before.notes[x] == Run(st, steps).notes[x] {
        RunStoresKnownTargets(st, steps[..k], x);
        if WasKnown(before.notes[x], steps[..k]) {
          var i :| 0 <= i < k && steps[..k][i].0.schema(before.notes[x]) && TargetIsKnown(steps[..k][i].0, before.notes[x]);
          assert steps[i] == steps[..k][i];
        }
      } else {
        assert steps[k].0.schema(Run(st, steps).notes[x]);
      }
    }
  }

  lemma StepStoresKnownTargets(st: State, env: Env, req: Request, x: string)
    requires WellFormed(req) && x in Step(env, st, req).notes
    ensures var n := Step(env, st, req).notes[x];
            (x in st.notes && st.notes[x] == n) || (n.hasCreator && env.schema(n) && TargetIsKnown(env, n))
  {
    hide Post, PostAll, TargetIsKnown;
    match req
    case Single(token, key, hash, n, freshId) => PostMeans(env, st, n, freshId);
    case Bulk(items, freshIds) =>
      if |items| <= 100 {
        PostAllStoresKnownTargets(env, st, items, freshIds, x);
      }
  }

  lemma EmptyStoreHasSoundThreads()
    ensures ThreadsOk(map[])
  {
    forall x ensures EndsFrom(Parents(map[]), x) {
      assert Up(Parents(map[]), x, 1) == None;
    }
  }

  // What a run of accepted requests can do

  /** Posting the note, which brings its own id, is accepted and stores it. */
  predicate IsAccepted(env: Env, st: State, n: Note) {
    n.id != "" && Post(env, st, n, "") == (Put(st, n), Response(201, Some(n)))
  }

  predicate IsOnPaper(env: Env, n: Note, paperId: string) {
    n.targetType == Some("paper") && n.targetId == Some(paperId) && paperId in env.papers
  }

  lemma PaperNoteIsAccepted(env: Env, st: State, n: Note, paperId: string)
    requires n.id != "" && n.hasCreator && env.schema(n) && IsOnPaper(env, n, paperId)
    requires Replies(n) ==> n.replyTo.value in st.notes && n.replyTo.value != n.id
    requires Replies(n) ==> PaperOf(st.notes[n.replyTo.value]) == Some(paperId) && !OnClaim(st.notes[n.replyTo.value])
    ensures IsAccepted(env, st, n)
  {
  }

  /** Posting a note again under its own id can close a cycle: b answers a, then a is posted again as an answer to b.
      This holds for all notes on one stored paper that the schema takes. */
  lemma RepostingCanCloseACycle(env: Env, a: Note, b: Note, paperId: string)
    requires a.id != "" && b.id != "" && a.id != b.id && a.hasCreator && b.hasCreator
    requires IsOnPaper(env, a, paperId) && IsOnPaper(env, b, paperId)
    requires !Replies(a) && b.replyTo == Some(a.id)
    requires env.schema(a) && env.schema(b) && env.schema(a.(replyTo := Some(b.id)))
    ensures var empty, again := State(map[], [], map[]), a.(replyTo := Some(b.id));
            && IsAccepted(env, empty, a)
            && IsAccepted(env, Put(empty, a), b)
            && IsAccepted(env, Put(Put(empty, a), b), again)
            && !EndsFrom(Parents(Put(Put(Put(empty, a), b), again).notes), a.id)
  {
    var empty, again := State(map[], [], map[]), a.(replyTo := Some(b.id));
    PaperNoteIsAccepted(env, empty, a, paperId);
    PaperNoteIsAccepted(env, Put(empty, a), b, paperId);
    PaperNoteIsAccepted(env, Put(Put(empty, a), b), again, paperId);
    var p := Parents(Put(Put(Put(empty, a), b), again).notes);
    assert p[a.id] == b.id && p[b.id] == a.id;
    hide *;
    TwoAnswerEachOther(p, a.id, b.id);
  }

  lemma TwoAnswerEachOther(p: map<string, string>, a: string, b: string)
    requires a in p && b in p && p[a] == b && p[b] == a
    ensures !EndsFrom(p, a)
  {
    assert Up(p, a, 2) == Up(p, b, 1) == Up(p, a, 0);
    CycleNeverEnds(p, a, 2);
  }

  /** A thread can lead from one stored paper to another, whatever their ids: a is on the paper p, m on the paper q, and
      n, which is attached to a, answers m. */
  lemma AttachedReplyChangesPaper(env: Env, a: Note, m: Note, n: Note, p: string, q: string)
    requires a.id != "" && m.id != "" && n.id != "" && a.id != m.id && a.id != n.id && m.id != n.id
    requires a.hasCreator && m.hasCreator && n.hasCreator && env.schema(a) && env.schema(m) && env.schema(n)
    requires IsOnPaper(env, a, p) && IsOnPaper(env, m, q) && OnAnnotation(n) && n.targetId == Some(a.id)
    requires !Replies(a) && !Replies(m) && n.replyTo == Some(m.id) && ':' !in a.id
    ensures var empty := State(map[], [], map[]);
            var notes := Put(Put(Put(empty, a), m), n).notes;
            && IsAccepted(env, empty, a)
            && IsAccepted(env, Put(empty, a), m)
            && IsAccepted(env, Put(Put(empty, a), m), n)
            && LivesOn(notes, n, p) && Parents(notes)[n.id] == m.id && LivesOn(notes, m, q)
  {
    var empty := State(map[], [], map[]);
    PaperNoteIsAccepted(env, empty, a, p);
    PaperNoteIsAccepted(env, Put(empty, a), m, q);
    var notes := Put(Put(Put(empty, a), m), n).notes;
    LivesDirectly(notes, a, p);
    LivesDirectly(notes, m, q);
    LivesThrough(notes, n, p);
    LivesDirectly(Put(Put(empty, a), m).notes, a, p);
    AttachedReplyAccepted(Put(Put(empty, a), m).notes, n, p);
  }

  // Idempotency

  lemma {:induction false} PostAllKeepsCache(env: Env, st: State, items: seq<Item>, freshIds: seq<string>)
    requires |items| == |freshIds|
    ensures PostAll(env, st, items, freshIds).0.cache == st.cache
  {
    hide Check;
    if items != [] {
      PostAllKeepsCache(env, st, items[..|items| - 1], freshIds[..|items| - 1]);
    }
  }

  /** No run changes an idempotency entry once it exists. */
  lemma {:induction false} RunKeepsEntries(st: State, steps: seq<(Env, Request)>, k: (string, string))
    requires forall i :: 0 <= i < |steps| ==> WellFormed(steps[i].1)
    requires k in st.cache
    ensures k in Run(st, steps).cache && Run(st, steps).cache[k] == st.cache[k]
  {
    if steps != [] {
      var last := |steps| - 1;
      RunKeepsEntries(st, steps[..last], k);
      hide Check;
      match steps[last].1
      case Single(_, _, _, _, _) =>
      case Bulk(items, freshIds) => PostAllKeepsCache(steps[last].0, Run(st, steps[..last]), items, freshIds);
    }
  }

  /** A request accepted under a key can be sent again at any later time: with the same body it changes nothing and
      gets the first response, with another body it changes nothing and is refused. */
  lemma ReplayReturnsFirstResponse(env: Env, st: State, token: string, key: string, hash: string, n: Note,
                                   freshId: string, steps: seq<(Env, Request)>, later: Env, hash2: string, n2: Note,
                                   freshId2: string)
    requires forall i :: 0 <= i < |steps| ==> WellFormed(steps[i].1)
    requires key != "" && (token, key) !in st.cache
    requires Submit(env, st, token, Some(key), hash, n, freshId).1.status == 201
    ensures var first := Submit(env, st, token, Some(key), hash, n, freshId);
            var now := Run(first.0, steps);
            var answer := if hash2 == hash then first.1 else Response(409, None);
            Submit(later, now, token, Some(key), hash2, n2, freshId2) == (now, answer)
  {
    var first := Submit(env, st, token, Some(key), hash, n, freshId);
    hide Check, Run, Step;
    assert (token, key) in first.0.cache;
    RunKeepsEntries(first.0, steps, (token, key));
  }

  // Listing the replies to a note

  ghost predicate Enumerates(order: seq<string>, notes: Notes) {
    && (forall i, j :: 0 <= i < j < |order| ==> order[i] != order[j])
    && forall x :: x in order <==> x in notes
  }

  lemma PutKeepsOrder(st: State, n: Note)
    requires Enumerates(st.order, st.notes)
    ensures Enumerates(Put(st, n).order, Put(st, n).notes)
  {
  }

  lemma {:induction false} PostAllKeepsOrder(env: Env, st: State, items: seq<Item>, freshIds: seq<string>)
    requires |items| == |freshIds| && Enumerates(st.order, st.notes)
    ensures Enumerates(PostAll(env, st, items, freshIds).0.order, PostAll(env, st, items, freshIds).0.notes)
  {
    hide Check, Enumerates, Put;
    if items != [] {
      var k := |items| - 1;
      PostAllKeepsOrder(env, st, items[..k], freshIds[..k]);
      var before := PostAll(env, st, items[..k], freshIds[..k]).0;
      if items[k].Object? {
        PutKeepsOrder(before, WithId(items[k].note, freshIds[k]));
      }
    }
  }

  /** After any run the insertion order lists every stored id exactly once. */
  lemma {:induction false} RunKeepsOrder(st: State, steps: seq<(Env, Request)>)
    requires forall i :: 0 <= i < |steps| ==> WellFormed(steps[i].1)
    requires Enumerates(st.order, st.notes)
    ensures Enumerates(Run(st, steps).order, Run(st, steps).notes)
  {
    if steps != [] {
      var k := |steps| - 1;
      RunKeepsOrder(st, steps[..k]);
      var before := Run(st, steps[..k]);
      hide Check, Enumerates, Put, PostAll;
      match steps[k].1
      case Single(_, _, _, n, freshId) => PutKeepsOrder(before, WithId(n, freshId));
      case Bulk(items, freshIds) => PostAllKeepsOrder(steps[k].0, before, items, freshIds);
    }
  }

  /** The replies to a note in insertion order, with their sort keys. */
  function ReplyItems(order: seq<string>, notes: Notes, id: string): seq<Pagination.Item>
    requires forall x :: x in order ==> x in notes
  {
    if order == [] then []
    else
      var front, x := ReplyItems(order[..|order| - 1], notes, id), order[|order| - 1];
      if notes[x].replyTo == Some(id) then front + [Pagination.Item([notes[x].createdAt, x], x)] else front
  }

  function DirectReplies(order: seq<string>, notes: Notes, id: string): seq<Pagination.Item>
    requires forall x :: x in order ==> x in notes
  {
    Pagination.Sort(ReplyItems(order, notes, id), Pagination.Asc)
  }

  predicate IsReplyAt(notes: Notes, id: string, x: string, at: string) {
    x in notes && notes[x].replyTo == Some(id) && notes[x].createdAt == at
  }

  lemma {:induction false} ReplyItemsOnce(order: seq<string>, notes: Notes, id: string, x: string, at: string)
    requires forall y :: y in order ==> y in notes
    requires forall i, j :: 0 <= i < j < |order| ==> order[i] != order[j]
    ensures Pagination.Occurrences(ReplyItems(order, notes, id), [at, x])
         == if x in order && IsReplyAt(notes, id, x, at) then 1 else 0
  {
    if order != [] {
      var front, last := order[..|order| - 1], order[|order| - 1];
      assert order == front + [last];
      ReplyItemsOnce(front, notes, id, x, at);
      var key := [notes[last].createdAt, last];
      assert key == [at, x] <==> notes[last].createdAt == at && last == x by {
        assert [at, x][1] == x && [at, x][0] == at;
      }
      assert last !in front;
      Pagination.OccurrencesConcat(ReplyItems(front, notes, id), [Pagination.Item(key, last)], [at, x]);
    }
  }

  /** The note y is stored, and not older than x; of two notes of one time x has the smaller id, if they differ. */
  ghost predicate NotOlder(notes: Notes, x: string, y: string) {
    && x in notes && y in notes && !Precedes(notes[y].createdAt, notes[x].createdAt)
    && (notes[y].createdAt == notes[x].createdAt ==> !Precedes(y, x))
  }

  lemma {:induction false} ReplyItemsCarryKeys(order: seq<string>, notes: Notes, id: string)
    requires forall x :: x in order ==> x in notes
    ensures forall it :: it in ReplyItems(order, notes, id) ==>
      it.body in notes && it.key == [notes[it.body].createdAt, it.body]
  {
    if order != [] {
      ReplyItemsCarryKeys(order[..|order| - 1], notes, id);
    }
  }

  lemma RepliesAreOldestFirst(order: seq<string>, notes: Notes, id: string)
    requires forall x :: x in order ==> x in notes
    ensures var r := DirectReplies(order, notes, id);
            forall i, j :: 0 <= i < j < |r| ==> NotOlder(notes, r[i].body, r[j].body)
  {
    var items, r := ReplyItems(order, notes, id), DirectReplies(order, notes, id);
    ReplyItemsCarryKeys(order, notes, id);
    Pagination.SortCorrect(items, Pagination.Asc);
    hide Precedes, Pagination.Sort, Pagination.Sorted;
    forall i, j | 0 <= i < j < |r| ensures NotOlder(notes, r[i].body, r[j].body) {
      assert r[i] in multiset(r) && r[j] in multiset(r);
      assert r[i] in multiset(items) && r[j] in multiset(items);
      PairPrecedes(notes[r[j].body].createdAt, r[j].body, notes[r[i].body].createdAt, r[i].body);
    }
  }

  lemma PairPrecedes(a: string, b: string, c: string, d: string)
    ensures Precedes(a, c) || (a == c && Precedes(b, d)) ==> KeyPrecedes([a, b], [c, d])
  {
    hide Precedes;
    if Precedes(a, c) {
      assert [a, b][..0] == [c, d][..0] && KeySmallerAt([a, b], [c, d], 0);
    } else if a == c && Precedes(b, d) {
      assert [a, b][..1] == [c, d][..1] && KeySmallerAt([a, b], [c, d], 1);
    }
  }

  /** Every direct reply is listed exactly once, oldest first, and nothing else is listed. */
  lemma DirectRepliesOldestFirst(st: State, id: string, x: string, at: string)
    requires Enumerates(st.order, st.notes)
    ensures Pagination.Sorted(DirectReplies(st.order, st.notes, id), Pagination.Asc)
    ensures forall i, j :: 0 <= i < j < |DirectReplies(st.order, st.notes, id)| ==>
      NotOlder(st.notes, DirectReplies(st.order, st.notes, id)[i].body, DirectReplies(st.order, st.notes, id)[j].body)
    ensures Pagination.Occurrences(DirectReplies(st.order, st.notes, id), [at, x])
         == if IsReplyAt(st.notes, id, x, at) then 1 else 0
  {
    var items := ReplyItems(st.order, st.notes, id);
    Pagination.SortCorrect(items, Pagination.Asc);
    Pagination.OccurrencesSort(items, Pagination.Asc, [at, x]);
    RepliesAreOldestFirst(st.order, st.notes, id);
    ReplyItemsOnce(st.order, st.notes, id, x, at);
  }
}

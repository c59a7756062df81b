/** Citable paper slugs: their shape, minting, and the revision lineages that share one. */
module Slugs {
  import opened Wrappers
  import Digits

  const SCHEME := "rrxiv:"

  /** Group 1 and the value of group 2 of the slug pattern. The pattern's end anchor also accepts one final
      line break. */
  function ParseSlug(s: string): Option<(string, nat)> {
    if (|s| == 16 || (|s| == 17 && s[16] == '\n')) && s[..6] == SCHEME && Digits.AllDigits(s[6..10]) && s[10] == '.'
       && Digits.AllDigits(s[11..16])
    then Some((s[6..10], Digits.Value(s[11..16])))
    else None
  }

  /** The scheme, four digits, a dot and five digits, then perhaps one line break. */
  ghost predicate IsSlugText(s: string, month: string, digits: string, end: string) {
    && s == "rrxiv:" + month + "." + digits + end && (end == "" || end == "\n")
    && |month| == 4 && |digits| == 5
    && forall c :: c in month || c in digits ==> '0' <= c <= '9'
  }

  lemma ParseSlugMeans(s: string, month: string, n: nat)
    ensures ParseSlug(s) == Some((month, n)) <==>
      exists digits, end :: IsSlugText(s, month, digits, end) && Digits.ParseNat(digits) == Some(n)
  {
    if digits, end :| IsSlugText(s, month, digits, end) && Digits.ParseNat(digits) == Some(n) {
      SlugTextIsParsed(s, month, digits, end);
    }
    if ParseSlug(s) == Some((month, n)) {
      var end := s[16..];
      assert SCHEME == "rrxiv:" && s == s[..6] + s[6..10] + [s[10]] + s[11..16] + end;
      assert s[6..10] == month;
      assert IsSlugText(s, month, s[11..16], end);
    }
  }

  lemma SlugTextIsParsed(s: string, month: string, digits: string, end: string)
    requires IsSlugText(s, month, digits, end)
    ensures ParseSlug(s).Some? && ParseSlug(s).value.0 == month && Digits.ParseNat(digits) == Some(ParseSlug(s).value.1)
  {
    assert SCHEME == "rrxiv:";
    assert s[..6] == "rrxiv:" && s[6..10] == month && s[10] == '.' && s[11..16] == digits;
    assert end == "\n" ==> s[16] == '\n';
    forall i | 0 <= i < 4 ensures Digits.IsDigit(month[i]) {
      assert month[i] in month;
    }
    forall i | 0 <= i < 5 ensures Digits.IsDigit(digits[i]) {
      assert digits[i] in digits;
    }
  }

  predicate IsSlug(s: string) {
    ParseSlug(s).Some?
  }

  /** The two-digit year and month a slug starts with. */
  function Yymm(year: nat, month: nat): string {
    Digits.Padded(year % 100, 2) + Digits.Padded(month, 2)
  }

  /** The last two digits of the year and two digits for the month. */
  lemma YymmMeans(year: nat, month: nat)
    requires 1 <= month <= 12
    ensures |Yymm(year, month)| == 4
    ensures Digits.ParseNat(Yymm(year, month)[..2]) == Some(year % 100)
    ensures Digits.ParseNat(Yymm(year, month)[2..]) == Some(month)
  {
    YymmIsFourDigits(year, month);
    Digits.ParseOfPadded(year % 100, 2);
    Digits.ParseOfPadded(month, 2);
    Digits.PaddedLength(year % 100, 2);
    assert Digits.Pow10(1) == 10 && Digits.Pow10(2) == 100;
    assert Yymm(year, month)[..2] == Digits.Padded(year % 100, 2) && Yymm(year, month)[2..] == Digits.Padded(month, 2);
  }

  predicate FourDigits(yymm: string) {
    |yymm| == 4 && Digits.AllDigits(yymm)
  }

  lemma YymmIsFourDigits(year: nat, month: nat)
    requires 1 <= month <= 12
    ensures FourDigits(Yymm(year, month))
  {
    Digits.ParseOfPadded(year % 100, 2);
    Digits.ParseOfPadded(month, 2);
    assert Digits.Pow10(1) == 10 && Digits.Pow10(2) == 100;
    Digits.PaddedLength(year % 100, 2);
    Digits.PaddedLength(month, 2);
  }

  function SlugText(yymm: string, n: nat): string {
    SCHEME + yymm + "." + Digits.Padded(n, 5)
  }

  /** A minted slug parses back to its month and number exactly while the number has five digits. */
  lemma SlugTextParses(yymm: string, n: nat)
    requires FourDigits(yymm)
    ensures n <= 99999 ==> ParseSlug(SlugText(yymm, n)) == Some((yymm, n))
    ensures n > 99999 ==> ParseSlug(SlugText(yymm, n)) == None
  {
    var digits := Digits.Padded(n, 5);
    var s := SlugText(yymm, n);
    Digits.ParseOfPadded(n, 5);
    PowersOfTen();
    Digits.PaddedLength(n, 5);
    if n <= 99999 {
      assert s[..6] == SCHEME && s[6..10] == yymm && s[10] == '.' && s[11..16] == digits;
    } else if |digits| == 6 {
      assert s[16] == digits[5] && Digits.IsDigit(digits[5]);
    } else {
      LongNumeral(n);
    }
  }

  lemma PowersOfTen()
    ensures Digits.Pow10(5) == 100000
  {
    assert Digits.Pow10(1) == 10 && Digits.Pow10(2) == 100 && Digits.Pow10(3) == 1000 && Digits.Pow10(4) == 10000;
  }

  lemma LongNumeral(n: nat)
    requires n > 99999
    ensures |Digits.Padded(n, 5)| >= 6
  {
    PowersOfTen();
    Digits.DecimalLength(n, 5);
  }

  /** One stored version of a paper. An empty previous version counts as none. */
  datatype Paper = Paper(id: string, slug: Option<string>, previous: Option<string>, submittedAt: int)

  function ClaimOwnerKey(p: Paper): string {
    if p.slug.Some? && p.slug.value != "" then p.slug.value else p.id
  }

  /** Claims are kept under the slug of their paper, or under its id where it has none. */
  lemma ClaimOwnerKeyMeans(id: string, slug: string, previous: Option<string>, at: int)
    ensures ClaimOwnerKey(Paper(id, None, previous, at)) == ClaimOwnerKey(Paper(id, Some(""), previous, at)) == id
    ensures slug != "" ==> ClaimOwnerKey(Paper(id, Some(slug), previous, at)) == slug
  {
  }

  function CounterOf(p: Paper, yymm: string): nat {
    if p.slug.None? then 0
    else match ParseSlug(p.slug.value)
      case None => 0
      case Some((month, n)) => if month == yymm then n else 0
  }

  function MaxCounter(papers: seq<Paper>, yymm: string): nat {
    if papers == [] then 0
    else
      var before, n := MaxCounter(papers[..|papers| - 1], yymm), CounterOf(papers[|papers| - 1], yymm);
      if n > before then n else before
  }

  method MintSlug(papers: seq<Paper>, yymm: string) returns (slug: string)
    ensures slug == SlugText(yymm, MaxCounter(papers, yymm) + 1)
  {
    var maxCounter: nat := 0;
    for i := 0 to |papers|
      invariant maxCounter == MaxCounter(papers[..i], yymm)
    {
      assert papers[..i + 1][..i] == papers[..i];
      var existing := papers[i].slug;
      if existing == None || existing.value == "" {
        continue;
      }
      var parsed := ParseSlug(existing.value);
      if parsed == None {
        continue;
      }
      if parsed.value.0 != yymm {
        continue;
      }
      if parsed.value.1 > maxCounter {
        maxCounter := parsed.value.1;
      }
    }
    assert papers[..|papers|] == papers;
    slug := SlugText(yymm, maxCounter + 1);
  }

  lemma {:induction false} MaxCounterBounds(papers: seq<Paper>, yymm: string)
    ensures forall p :: p in papers ==> CounterOf(p, yymm) <= MaxCounter(papers, yymm)
    ensures MaxCounter(papers, yymm) <= 99999
  {
    if papers != [] {
      var front, last := papers[..|papers| - 1], papers[|papers| - 1];
      assert papers == front + [last];
      MaxCounterBounds(front, yymm);
      CounterBound(last, yymm);
    }
  }

  ghost predicate HasNumber(p: Paper, yymm: string, n: nat) {
    p.slug.Some? && ParseSlug(p.slug.value) == Some((yymm, n))
  }

  /** It is the number of some paper of the month, or 0, and none of the month has a higher one. */
  lemma {:induction false} MaxCounterMeans(papers: seq<Paper>, yymm: string)
    ensures MaxCounter(papers, yymm) == 0 || exists p :: p in papers && HasNumber(p, yymm, MaxCounter(papers, yymm))
    ensures forall p, n: nat :: p in papers && HasNumber(p, yymm, n) ==> n <= MaxCounter(papers, yymm)
  {
    hide ParseSlug;
    if papers != [] {
      var front, last := papers[..|papers| - 1], papers[|papers| - 1];
      assert papers == front + [last];
      MaxCounterMeans(front, yymm);
      assert CounterOf(last, yymm) == 0 || HasNumber(last, yymm, CounterOf(last, yymm));
    }
  }

  lemma CounterBound(p: Paper, yymm: string)
    ensures CounterOf(p, yymm) <= 99999
  {
    if p.slug.Some? && ParseSlug(p.slug.value).Some? {
      Digits.ValueBound(p.slug.value[11..16]);
      PowersOfTen();
    }
  }

  lemma CounterOfMinted(p: Paper, yymm: string, n: nat)
    requires FourDigits(yymm) && p.slug == Some(SlugText(yymm, n))
    ensures CounterOf(p, yymm) == if n <= 99999 then n else 0
    ensures forall other :: other != yymm ==> CounterOf(p, other) == 0
  {
    SlugTextParses(yymm, n);
    hide SlugText, ParseSlug;
  }

  /** All five-digit numbers of the month are used up and the first six-digit slug has been given out. */
  ghost predicate Exhausted(papers: seq<Paper>, yymm: string) {
    MaxCounter(papers, yymm) == 99999 && exists p :: p in papers && p.slug == Some(SlugText(yymm, 100000))
  }

  /** A minted slug is one no stored paper has, except when all five-digit numbers of the month are used up and
      the first six-digit slug, which later mints do not recognise, has been given out already. */
  lemma MintIsFreshUnlessExhausted(papers: seq<Paper>, yymm: string)
    requires FourDigits(yymm)
    ensures (forall p :: p in papers ==> p.slug != Some(SlugText(yymm, MaxCounter(papers, yymm) + 1)))
       <==> !Exhausted(papers, yymm)
  {
    hide MaxCounter, SlugText, CounterOf;
    var n := MaxCounter(papers, yymm) + 1;
    MaxCounterBounds(papers, yymm);
    if n <= 99999 {
      forall p | p in papers ensures p.slug != Some(SlugText(yymm, n)) {
        if p.slug == Some(SlugText(yymm, n)) {
          CounterOfMinted(p, yymm, n);
        }
      }
    }
  }

  /** A paper under the minted slug moves the counter of its month by one, up to 99999, and no other counter. */
  lemma MintAdvances(papers: seq<Paper>, p: Paper, yymm: string, other: string)
    requires FourDigits(yymm) && p.slug == Some(SlugText(yymm, MaxCounter(papers, yymm) + 1))
    ensures MaxCounter(papers + [p], other)
         == if other == yymm && MaxCounter(papers, yymm) < 99999 then MaxCounter(papers, yymm) + 1
            else MaxCounter(papers, other)
  {
    hide SlugText, CounterOf;
    assert (papers + [p])[..|papers|] == papers;
    CounterOfMinted(p, yymm, MaxCounter(papers, yymm) + 1);
    MaxCounterBounds(papers, yymm);
  }

  /** A paper under the slug of a stored one moves no counter. */
  lemma RevisionKeepsCounters(papers: seq<Paper>, head: Paper, p: Paper, yymm: string)
    requires head in papers && p.slug == head.slug
    ensures MaxCounter(papers + [p], yymm) == MaxCounter(papers, yymm)
  {
    assert (papers + [p])[..|papers|] == papers;
    MaxCounterBounds(papers, yymm);
    assert CounterOf(p, yymm) == CounterOf(head, yymm) <= MaxCounter(papers, yymm);
  }

  /** The ids that some paper names as its previous version. */
  function Superseded(papers: seq<Paper>): set<string> {
    set p | p in papers && p.previous.Some? && p.previous.value != "" :: p.previous.value
  }

  function WithSlug(papers: seq<Paper>, slug: string): seq<Paper> {
    if papers == [] then []
    else
      var front := WithSlug(papers[..|papers| - 1], slug);
      if papers[|papers| - 1].slug == Some(slug) then front + [papers[|papers| - 1]] else front
  }

  function Unsuperseded(papers: seq<Paper>, superseded: set<string>): seq<Paper> {
    if papers == [] then []
    else
      var front := Unsuperseded(papers[..|papers| - 1], superseded);
      if papers[|papers| - 1].id in superseded then front else front + [papers[|papers| - 1]]
  }

  /** The most recently submitted paper, the first of several. */
  function Newest(papers: seq<Paper>): Paper
    requires papers != []
  {
    if |papers| == 1 then papers[0]
    else
      var best := Newest(papers[..|papers| - 1]);
      if papers[|papers| - 1].submittedAt > best.submittedAt then papers[|papers| - 1] else best
  }

  function FindPaperBySlug(papers: seq<Paper>, slug: string): Option<Paper> {
    var candidates := WithSlug(papers, slug);
    if candidates == [] then None
    else if |candidates| == 1 then Some(candidates[0])
    else
      var heads := Unsuperseded(candidates, Superseded(candidates));
      if |heads| == 1 then Some(heads[0])
      else if heads == [] then Some(Newest(candidates))
      else Some(Newest(heads))
  }

  ghost predicate HasSlug(papers: seq<Paper>, slug: string, p: Paper) {
    p in papers && p.slug == Some(slug)
  }

  /** No paper with the slug names this one as its previous version. */
  ghost predicate IsSlugHead(papers: seq<Paper>, slug: string, p: Paper) {
    HasSlug(papers, slug, p) && forall q :: HasSlug(papers, slug, q) ==> q.previous != Some(p.id) || p.id == ""
  }

  lemma {:induction false} NewestMeans(papers: seq<Paper>)
    requires papers != []
    ensures Newest(papers) in papers && forall p :: p in papers ==> p.submittedAt <= Newest(papers).submittedAt
    ensures exists i :: 0 <= i < |papers| && IsFirstNewest(papers, i)
  {
    if |papers| > 1 {
      var front, last := papers[..|papers| - 1], papers[|papers| - 1];
      NewestMeans(front);
      assert papers == front + [last];
      var i :| 0 <= i < |front| && IsFirstNewest(front, i);
      assert IsFirstNewest(papers, if last.submittedAt > Newest(front).submittedAt then |front| else i);
    } else {
      assert IsFirstNewest(papers, 0);
    }
  }

  /** The paper at index i is the one picked, and all before it were submitted earlier. */
  ghost predicate IsFirstNewest(papers: seq<Paper>, i: nat)
    requires i < |papers|
  {
    papers[i] == Newest(papers) && forall j :: 0 <= j < i ==> papers[j].submittedAt < papers[i].submittedAt
  }

  lemma SupersededMeans(papers: seq<Paper>, slug: string, p: Paper)
    requires HasSlug(papers, slug, p)
    ensures p.id !in Superseded(WithSlug(papers, slug)) <==> IsSlugHead(papers, slug, p)
  {
    WithSlugMembers(papers, slug);
    hide WithSlug;
  }

  /** In any store: a slug in use is looked up to one of its papers; to a head if there is one, and of several heads to
      one submitted last; without a head to a paper submitted last. */
  lemma FindPaperBySlugMeans(papers: seq<Paper>, slug: string)
    ensures FindPaperBySlug(papers, slug) == None <==> forall p :: !HasSlug(papers, slug, p)
    ensures FindPaperBySlug(papers, slug).Some? ==>
              var r := FindPaperBySlug(papers, slug).value;
              && HasSlug(papers, slug, r)
              && (forall h :: IsSlugHead(papers, slug, h) ==>
                    (IsSlugHead(papers, slug, r) && h.submittedAt <= r.submittedAt) || h == r)
              && ((forall h :: !IsSlugHead(papers, slug, h)) ==>
                    forall p :: HasSlug(papers, slug, p) ==> p.submittedAt <= r.submittedAt)
  {
    hide *;
    PickedFrom(papers, slug);
    CandidatesAre(papers, slug);
    HeadsAre(papers, slug);
  }

  lemma CandidatesAre(papers: seq<Paper>, slug: string)
    ensures forall p :: p in WithSlug(papers, slug) <==> HasSlug(papers, slug, p)
    ensures WithSlug(papers, slug) == [] <==> forall p :: !HasSlug(papers, slug, p)
  {
    WithSlugMembers(papers, slug);
    if WithSlug(papers, slug) != [] {
      assert WithSlug(papers, slug)[0] in WithSlug(papers, slug);
    }
  }

  lemma HeadsAre(papers: seq<Paper>, slug: string)
    ensures var heads := Unsuperseded(WithSlug(papers, slug), Superseded(WithSlug(papers, slug)));
            && (forall p :: p in heads <==> IsSlugHead(papers, slug, p))
            && (heads == [] <==> forall p :: !IsSlugHead(papers, slug, p))
  {
    var candidates := WithSlug(papers, slug);
    var heads := Unsuperseded(candidates, Superseded(candidates));
    CandidatesAre(papers, slug);
    UnsupersededMembers(candidates, Superseded(candidates));
    hide WithSlug, Unsuperseded, Superseded, HasSlug;
    forall p ensures p in heads <==> IsSlugHead(papers, slug, p) {
      if HasSlug(papers, slug, p) {
        SupersededMeans(papers, slug, p);
      }
    }
    if heads != [] {
      assert heads[0] in heads;
    }
  }

  lemma PickedFrom(papers: seq<Paper>, slug: string)
    ensures var candidates, r := WithSlug(papers, slug), FindPaperBySlug(papers, slug);
            var heads := Unsuperseded(candidates, Superseded(candidates));
            && (r == None <==> candidates == [])
            && (candidates != [] ==> r.value in candidates)
            && (|candidates| > 1 && heads != [] ==>
                  r.value in heads && forall h :: h in heads ==> h.submittedAt <= r.value.submittedAt)
            && (heads == [] ==> forall p :: p in candidates ==> p.submittedAt <= r.value.submittedAt)
            && (|candidates| == 1 ==> forall p :: p in candidates ==> p == r.value)
            && (forall h :: h in heads ==> h in candidates)
  {
    var candidates := WithSlug(papers, slug);
    var heads := Unsuperseded(candidates, Superseded(candidates));
    UnsupersededMembers(candidates, Superseded(candidates));
    if candidates != [] {
      NewestMeans(candidates);
    }
    if heads != [] {
      NewestMeans(heads);
    }
    hide WithSlug, Unsuperseded, Superseded, Newest;
  }

  /** The rows the paper listing shows by default: everything no stored paper supersedes. */
  function Listing(papers: seq<Paper>): seq<Paper> {
    Unsuperseded(papers, Superseded(papers))
  }

  /** The head ids the activity statistics work with. */
  function HeadIds(papers: seq<Paper>): set<string> {
    set p | p in papers && p.id !in Superseded(papers) :: p.id
  }

  ghost predicate IsHead(papers: seq<Paper>, p: Paper) {
    p in papers && p.id !in Superseded(papers)
  }

  ghost predicate DistinctIds(papers: seq<Paper>) {
    forall i, j :: 0 <= i < j < |papers| ==> papers[i].id != papers[j].id
  }

  ghost predicate PointsBack(papers: seq<Paper>, p: Paper) {
    p.previous.Some? ==> p.previous.value != "" && exists q :: q in papers && q.id == p.previous.value && q.slug == p.slug
  }

  ghost predicate IsOnlyHead(papers: seq<Paper>, slug: string, h: Paper) {
    IsHead(papers, h) && h.slug == Some(slug) && forall g :: IsHead(papers, g) && g.slug == Some(slug) ==> g == h
  }

  ghost predicate HasOneHead(papers: seq<Paper>, slug: string) {
    exists h :: IsOnlyHead(papers, slug, h)
  }

  /** What every run of submissions and revisions keeps. */
  ghost predicate LineagesOk(papers: seq<Paper>) {
    && DistinctIds(papers)
    && (forall p :: p in papers ==> p.slug.Some? && PointsBack(papers, p) && HasOneHead(papers, p.slug.value))
  }

  lemma {:induction false} WithSlugMembers(papers: seq<Paper>, slug: string)
    ensures forall p :: p in WithSlug(papers, slug) <==> p in papers && p.slug == Some(slug)
    ensures DistinctIds(papers) ==> DistinctIds(WithSlug(papers, slug))
  {
    if papers != [] {
      var front, last := papers[..|papers| - 1], papers[|papers| - 1];
      assert papers == front + [last];
      WithSlugMembers(front, slug);
      forall p | DistinctIds(papers) && p in WithSlug(front, slug) ensures p.id != last.id {
        assert p in front;
      }
    }
  }

  lemma {:induction false} UnsupersededMembers(papers: seq<Paper>, s: set<string>)
    ensures forall p :: p in Unsuperseded(papers, s) <==> p in papers && p.id !in s
    ensures DistinctIds(papers) ==> DistinctIds(Unsuperseded(papers, s))
  {
    if papers != [] {
      var front, last := papers[..|papers| - 1], papers[|papers| - 1];
      assert papers == front + [last];
      UnsupersededMembers(front, s);
      forall p | DistinctIds(papers) && p in Unsuperseded(front, s) ensures p.id != last.id {
        assert p in front;
      }
    }
  }

  lemma OnlyMember(ps: seq<Paper>, h: Paper)
    requires DistinctIds(ps) && h in ps && forall p :: p in ps ==> p == h
    ensures ps == [h]
  {
    assert ps[0] in ps && ps[|ps| - 1] in ps;
    assert ps[0].id == ps[|ps| - 1].id;
  }

  lemma SameIdSamePaper(papers: seq<Paper>, p: Paper, q: Paper)
    requires DistinctIds(papers) && p in papers && q in papers && p.id == q.id
    ensures p == q
  {
    var i, j :| 0 <= i < |papers| && 0 <= j < |papers| && papers[i] == p && papers[j] == q;
  }

  /** In every reachable store each slug in use has exactly one head: looking the slug up returns it, the
      listing shows it as the slug's only row, and the statistics count exactly its id. */
  lemma HeadsAgree(papers: seq<Paper>, p: Paper)
    requires LineagesOk(papers) && p in papers
    ensures var found := FindPaperBySlug(papers, p.slug.value);
            found.Some? && IsHead(papers, found.value) && found.value.slug == p.slug
            && WithSlug(Listing(papers), p.slug.value) == [found.value]
            && forall q :: q in papers && q.slug == p.slug ==> (q.id in HeadIds(papers) <==> q == found.value)
  {
    hide FindPaperBySlug, Listing, WithSlug, Unsuperseded, HeadIds, IsOnlyHead;
    var slug := p.slug.value;
    var h :| IsOnlyHead(papers, slug, h);
    LookupFindsHead(papers, slug, h);
    ListingShowsHead(papers, slug, h);
    StatisticsCountHead(papers, slug, h);
    OnlyHeadIsHead(papers, slug, h);
  }

  lemma OnlyHeadIsHead(papers: seq<Paper>, slug: string, h: Paper)
    requires IsOnlyHead(papers, slug, h)
    ensures IsHead(papers, h) && h in papers && h.slug == Some(slug)
  {
  }

  lemma LookupFindsHead(papers: seq<Paper>, slug: string, h: Paper)
    requires LineagesOk(papers) && IsOnlyHead(papers, slug, h)
    ensures FindPaperBySlug(papers, slug) == Some(h)
  {
    OnlyHeadAmongCandidates(papers, slug, h);
    hide Superseded, WithSlug, Unsuperseded, LineagesOk, IsOnlyHead, Newest;
  }

  lemma OnlyHeadAmongCandidates(papers: seq<Paper>, slug: string, h: Paper)
    requires LineagesOk(papers) && IsOnlyHead(papers, slug, h)
    ensures var candidates := WithSlug(papers, slug);
            && candidates != [] && (|candidates| == 1 ==> candidates[0] == h)
            && Unsuperseded(candidates, Superseded(candidates)) == [h]
  {
    hide Superseded, WithSlug, Unsuperseded, HasOneHead, PointsBack;
    var candidates := WithSlug(papers, slug);
    WithSlugMembers(papers, slug);
    CandidatesSupersedeAlike(papers, slug);
    var heads := Unsuperseded(candidates, Superseded(candidates));
    UnsupersededMembers(candidates, Superseded(candidates));
    OnlyMember(heads, h);
    assert h in candidates;
  }

  lemma ListingShowsHead(papers: seq<Paper>, slug: string, h: Paper)
    requires LineagesOk(papers) && IsOnlyHead(papers, slug, h)
    ensures WithSlug(Listing(papers), slug) == [h]
  {
    hide WithSlug, Unsuperseded, HasOneHead;
    var listed := Listing(papers);
    UnsupersededMembers(papers, Superseded(papers));
    WithSlugMembers(listed, slug);
    OnlyMember(WithSlug(listed, slug), h);
  }

  lemma StatisticsCountHead(papers: seq<Paper>, slug: string, h: Paper)
    requires LineagesOk(papers) && IsOnlyHead(papers, slug, h)
    ensures forall q :: q in papers && q.slug == Some(slug) ==> (q.id in HeadIds(papers) <==> q == h)
  {
    hide HasOneHead, PointsBack;
    forall q | q in papers && q.slug == Some(slug) ensures q.id in HeadIds(papers) <==> q == h {
      if q.id in HeadIds(papers) {
        var r :| r in papers && r.id !in Superseded(papers) && r.id == q.id;
        SameIdSamePaper(papers, q, r);
      }
    }
  }

  /** Revision links stay within one slug, so a candidate is superseded by some paper exactly when it is
      superseded by another candidate. */
  lemma CandidatesSupersedeAlike(papers: seq<Paper>, slug: string)
    requires LineagesOk(papers)
    ensures forall q :: q in papers && q.slug == Some(slug) ==>
              (q.id in Superseded(WithSlug(papers, slug)) <==> q.id in Superseded(papers))
  {
    WithSlugMembers(papers, slug);
    forall q | q in papers && q.slug == Some(slug) && q.id in Superseded(papers)
      ensures q.id in Superseded(WithSlug(papers, slug))
    {
      var r :| r in papers && r.previous.Some? && r.previous.value != "" && r.previous.value == q.id;
      assert PointsBack(papers, r);
      var t :| t in papers && t.id == r.previous.value && t.slug == r.slug;
      SameIdSamePaper(papers, t, q);
      assert r in WithSlug(papers, slug);
    }
    forall q | q in papers && q.slug == Some(slug) && q.id in Superseded(WithSlug(papers, slug))
      ensures q.id in Superseded(papers)
    {
      var r :| r in WithSlug(papers, slug) && r.previous.Some? && r.previous.value != "" && r.previous.value == q.id;
      assert r in papers;
    }
  }

  predicate FirstWithId(papers: seq<Paper>, id: string, i: nat)
    requires i < |papers|
  {
    papers[i].id == id && forall j :: 0 <= j < i ==> papers[j].id != id
  }

  /** A submission: a first version, dated to a month, or a revision of a head. */
  datatype Event = First(id: string, yymm: string, at: int) | Revision(head: Paper, id: string, at: int)

  function NextPapers(papers: seq<Paper>, e: Event): seq<Paper> {
    match e
    case First(id, yymm, at) => papers + [Paper(id, Some(SlugText(yymm, MaxCounter(papers, yymm) + 1)), None, at)]
    case Revision(head, id, at) => papers + [Paper(id, head.slug, Some(head.id), at)]
  }

  function RunPapers(papers: seq<Paper>, events: seq<Event>): seq<Paper> {
    if events == [] then papers
    else NextPapers(RunPapers(papers, events[..|events| - 1]), events[|events| - 1])
  }

  ghost predicate IsSubmission(papers: seq<Paper>, e: Event) {
    && e.id != "" && (forall q :: q in papers ==> q.id != e.id)
    && match e
       case First(_, yymm, _) => FourDigits(yymm) && !Exhausted(papers, yymm)
       case Revision(head, _, _) => IsHead(papers, head) && head.id != ""
  }

  ghost predicate IsRun(papers: seq<Paper>, events: seq<Event>) {
    forall i :: 0 <= i < |events| ==> IsSubmission(RunPapers(papers, events[..i]), events[i])
  }

  /** The numbers minted for one month along a run. */
  function Minted(papers: seq<Paper>, events: seq<Event>, yymm: string): seq<nat> {
    if events == [] then []
    else
      var front, last := events[..|events| - 1], events[|events| - 1];
      var before := Minted(papers, front, yymm);
      if last.First? && last.yymm == yymm then before + [MaxCounter(RunPapers(papers, front), yymm) + 1] else before
  }

  lemma RunFront(papers: seq<Paper>, events: seq<Event>)
    requires IsRun(papers, events) && events != []
    ensures IsRun(papers, events[..|events| - 1])
    ensures IsSubmission(RunPapers(papers, events[..|events| - 1]), events[|events| - 1])
  {
    hide RunPapers, IsSubmission;
    var front := events[..|events| - 1];
    forall i | 0 <= i < |front| ensures IsSubmission(RunPapers(papers, front[..i]), front[i]) {
      assert front[..i] == events[..i] && front[i] == events[i];
    }
  }

  /** Over every run of first versions and revisions the numbers minted for a month are consecutive, as long as they
      fit into five digits. */
  lemma {:induction false} MintsAreConsecutive(papers: seq<Paper>, events: seq<Event>, yymm: string)
    requires IsRun(papers, events) && MaxCounter(papers, yymm) + |Minted(papers, events, yymm)| <= 99999
    ensures MaxCounter(RunPapers(papers, events), yymm) == MaxCounter(papers, yymm) + |Minted(papers, events, yymm)|
    ensures forall i :: 0 <= i < |Minted(papers, events, yymm)| ==>
      Minted(papers, events, yymm)[i] == MaxCounter(papers, yymm) + 1 + i
  {
    hide MaxCounter, SlugText, Exhausted, IsHead;
    if events != [] {
      RunFront(papers, events);
      hide IsRun, NextPapers, IsSubmission;
      var front, last := events[..|events| - 1], events[|events| - 1];
      MintsAreConsecutive(papers, front, yymm);
      CounterAfter(RunPapers(papers, front), last, yymm);
    }
  }

  lemma CounterAfter(papers: seq<Paper>, e: Event, yymm: string)
    requires IsSubmission(papers, e)
    ensures MaxCounter(NextPapers(papers, e), yymm)
         == if e.First? && e.yymm == yymm && MaxCounter(papers, yymm) < 99999 then MaxCounter(papers, yymm) + 1
            else MaxCounter(papers, yymm)
  {
    hide MaxCounter, SlugText, Exhausted, IsHead;
    match e
    case First(id, month, at) =>
      MintAdvances(papers, Paper(id, Some(SlugText(month, MaxCounter(papers, month) + 1)), None, at), month, yymm);
    case Revision(head, id, at) =>
      HeadIsStored(papers, head);
      RevisionKeepsCounters(papers, head, Paper(id, head.slug, Some(head.id), at), yymm);
  }

  lemma HeadIsStored(papers: seq<Paper>, head: Paper)
    requires IsHead(papers, head)
    ensures head in papers
  {
  }

  /** Over every such run each slug in use keeps exactly one head. */
  lemma {:induction false} RunKeepsLineages(papers: seq<Paper>, events: seq<Event>)
    requires LineagesOk(papers) && IsRun(papers, events)
    ensures LineagesOk(RunPapers(papers, events))
  {
    hide LineagesOk, MaxCounter, SlugText, Exhausted, IsHead;
    if events != [] {
      RunFront(papers, events);
      hide IsRun;
      var front, last := events[..|events| - 1], events[|events| - 1];
      RunKeepsLineages(papers, front);
      var before := RunPapers(papers, front);
      match last
      case First(id, yymm, at) =>
        MintIsFreshUnlessExhausted(before, yymm);
        FirstKeepsLineagesIff(before, Paper(id, Some(SlugText(yymm, MaxCounter(before, yymm) + 1)), None, at));
      case Revision(head, id, at) =>
        RevisionKeepsLineages(before, head, Paper(id, head.slug, Some(head.id), at));
    }
  }

  // A month with more submissions than five-digit numbers

  /** First versions of papers dated to one month. */
  function Firsts(yymm: string, k: nat): seq<Event> {
    seq(k, i requires 0 <= i < k => First(Digits.Decimal(i), yymm, i))
  }

  /** These papers, numbered from 1 on. */
  function Numbered(yymm: string, k: nat): seq<Paper> {
    seq(k, i requires 0 <= i < k => Paper(Digits.Decimal(i), Some(SlugText(yymm, i + 1)), None, i))
  }

  lemma NumberedAt(yymm: string, k: nat, p: Paper)
    requires p in Numbered(yymm, k)
    ensures exists i: nat :: i < k && p == Paper(Digits.Decimal(i), Some(SlugText(yymm, i + 1)), None, i)
  {
    var i :| 0 <= i < k && p == Numbered(yymm, k)[i];
  }

  lemma NextNumber(yymm: string, k: nat)
    requires FourDigits(yymm) && k < 100000 && MaxCounter(Numbered(yymm, k), yymm) == k
    ensures IsSubmission(Numbered(yymm, k), First(Digits.Decimal(k), yymm, k))
    ensures NextPapers(Numbered(yymm, k), First(Digits.Decimal(k), yymm, k)) == Numbered(yymm, k + 1)
    ensures MaxCounter(Numbered(yymm, k + 1), yymm) == if k < 99999 then k + 1 else 99999
  {
    hide MaxCounter, SlugText, Numbered;
    var papers := Numbered(yymm, k);
    forall p | p in papers ensures p.id != Digits.Decimal(k) && p.slug != Some(SlugText(yymm, 100000)) {
      NumberedAt(yymm, k, p);
      var i: nat :| i < k && p == Paper(Digits.Decimal(i), Some(SlugText(yymm, i + 1)), None, i);
      Digits.ParseOfDecimal(i);
      Digits.ParseOfDecimal(k);
      SlugTextParses(yymm, i + 1);
      SlugTextParses(yymm, 100000);
    }
    var p := Paper(Digits.Decimal(k), Some(SlugText(yymm, k + 1)), None, k);
    assert Digits.Decimal(k) != "" by {
      Digits.DecimalIsNumeral(k);
    }
    assert Numbered(yymm, k + 1) == papers + [p] by {
      NumberedSnoc(yymm, k);
    }
    MintAdvances(papers, p, yymm, yymm);
  }

  lemma NumberedSnoc(yymm: string, k: nat)
    ensures Numbered(yymm, k + 1) == Numbered(yymm, k) + [Paper(Digits.Decimal(k), Some(SlugText(yymm, k + 1)), None, k)]
    ensures Firsts(yymm, k + 1) == Firsts(yymm, k) + [First(Digits.Decimal(k), yymm, k)]
  {
  }

  lemma RunOneMore(papers: seq<Paper>, events: seq<Event>, e: Event)
    requires IsRun(papers, events) && IsSubmission(RunPapers(papers, events), e)
    ensures IsRun(papers, events + [e]) && RunPapers(papers, events + [e]) == NextPapers(RunPapers(papers, events), e)
  {
    hide IsSubmission, NextPapers;
    var longer := events + [e];
    assert longer[..|events|] == events;
    forall i | 0 <= i < |longer| ensures IsSubmission(RunPapers(papers, longer[..i]), longer[i]) {
      assert i < |events| ==> longer[..i] == events[..i];
    }
  }

  lemma {:induction false} FirstsAreNumbered(yymm: string, k: nat)
    requires FourDigits(yymm) && k <= 100000
    ensures IsRun([], Firsts(yymm, k)) && RunPapers([], Firsts(yymm, k)) == Numbered(yymm, k)
    ensures MaxCounter(Numbered(yymm, k), yymm) == if k <= 99999 then k else 99999
  {
    if k == 0 {
      assert Firsts(yymm, 0) == [] && Numbered(yymm, 0) == [];
    } else {
      FirstsAreNumbered(yymm, k - 1);
      hide *;
      NextNumber(yymm, k - 1);
      NumberedSnoc(yymm, k - 1);
      RunOneMore([], Firsts(yymm, k - 1), First(Digits.Decimal(k - 1), yymm, k - 1));
    }
  }

  /** After 100000 first versions in one month, starting from the empty store, the slug minted next is that of a stored
      paper. */
  lemma LongMonthRepeatsASlug(yymm: string)
    requires FourDigits(yymm)
    ensures IsRun([], Firsts(yymm, 100000))
    ensures var papers := RunPapers([], Firsts(yymm, 100000));
            LineagesOk(papers) && exists p :: p in papers && p.slug == Some(SlugText(yymm, MaxCounter(papers, yymm) + 1))
  {
    EmptyIsOk();
    hide *;
    FirstsAreNumbered(yymm, 100000);
    RunKeepsLineages([], Firsts(yymm, 100000));
    NumberedSnoc(yymm, 99999);
    var last := Paper(Digits.Decimal(99999), Some(SlugText(yymm, 100000)), None, 99999);
    assert (Numbered(yymm, 99999) + [last])[|Numbered(yymm, 99999)|] == last;
  }

  lemma EmptyIsOk()
    ensures LineagesOk([])
  {
  }

  /** The papers of a store, in insertion order. */
  class PaperStore {
    var papers: seq<Paper>

    ghost predicate Valid()
      reads this
    {
      LineagesOk(papers)
    }

    constructor ()
      ensures Valid() && papers == []
    {
      papers := [];
    }

    /** A paper with a known id replaces the stored one in place; otherwise it goes to the end. */
    method AddPaper(p: Paper)
      modifies this
      ensures (forall q :: q in old(papers) ==> q.id != p.id) ==> papers == old(papers) + [p]
      ensures forall i :: 0 <= i < |old(papers)| && FirstWithId(old(papers), p.id, i) ==> papers == old(papers)[i := p]
    {
      for i := 0 to |papers|
        invariant papers == old(papers)
        invariant forall j :: 0 <= j < i ==> papers[j].id != p.id
      {
        if papers[i].id == p.id {
          papers := papers[i := p];
          return;
        }
      }
      papers := papers + [p];
    }

    /** The first version of a paper gets the next slug of its month. */
    method SubmitFirst(id: string, yymm: string, at: int) returns (slug: string)
      requires Valid() && FourDigits(yymm)
      requires id != "" && forall q :: q in papers ==> q.id != id
      modifies this
      ensures Valid() <==> !Exhausted(old(papers), yymm)
      ensures (forall q :: q in old(papers) ==> q.slug != Some(slug)) <==> !Exhausted(old(papers), yymm)
      ensures papers == NextPapers(old(papers), First(id, yymm, at))
      ensures papers == old(papers) + [Paper(id, Some(slug), None, at)]
      ensures slug == SlugText(yymm, MaxCounter(old(papers), yymm) + 1)
      ensures forall month :: MaxCounter(papers, month)
                           == if month == yymm && MaxCounter(old(papers), yymm) < 99999
                              then MaxCounter(old(papers), yymm) + 1 else MaxCounter(old(papers), month)
    {
      hide MaxCounter, SlugText, LineagesOk;
      slug := MintSlug(papers, yymm);
      ghost var before := papers;
      MintIsFreshUnlessExhausted(before, yymm);
      var p := Paper(id, Some(slug), None, at);
      AddPaper(p);
      forall month
        ensures MaxCounter(papers, month)
             == if month == yymm && MaxCounter(before, yymm) < 99999 then MaxCounter(before, yymm) + 1
                else MaxCounter(before, month)
      {
        MintAdvances(before, p, yymm, month);
      }
      FirstKeepsLineagesIff(before, p);
    }

    /** A revision takes over the slug of the current head. */
    method Revise(head: Paper, id: string, at: int)
      requires Valid() && IsHead(papers, head)
      requires id != "" && head.id != "" && forall q :: q in papers ==> q.id != id
      modifies this
      ensures Valid()
      ensures papers == NextPapers(old(papers), Revision(head, id, at))
      ensures papers == old(papers) + [Paper(id, head.slug, Some(head.id), at)]
      ensures IsHead(papers, Paper(id, head.slug, Some(head.id), at)) && !IsHead(papers, head)
      ensures forall month :: MaxCounter(papers, month) == MaxCounter(old(papers), month)
    {
      ghost var before := papers;
      var p := Paper(id, head.slug, Some(head.id), at);
      AddPaper(p);
      RevisionKeepsLineages(before, head, p);
      hide MaxCounter;
      forall month ensures MaxCounter(papers, month) == MaxCounter(before, month) {
        RevisionKeepsCounters(before, head, p, month);
      }
    }
  }

  lemma SupersededSnoc(papers: seq<Paper>, p: Paper)
    ensures Superseded(papers + [p])
         == Superseded(papers) + if p.previous.Some? && p.previous.value != "" then {p.previous.value} else {}
  {
    assert p in papers + [p];
    forall x | x in Superseded(papers) ensures x in Superseded(papers + [p]) {
      var q :| q in papers && q.previous.Some? && q.previous.value != "" && q.previous.value == x;
      assert q in papers + [p];
    }
  }

  lemma NewIdNotSuperseded(papers: seq<Paper>, id: string)
    requires LineagesOk(papers) && forall q :: q in papers ==> q.id != id
    ensures id !in Superseded(papers)
  {
    assert forall q :: q in papers ==> PointsBack(papers, q);
  }

  lemma AppendKeepsPointers(papers: seq<Paper>, p: Paper)
    requires LineagesOk(papers) && PointsBack(papers, p) && forall q :: q in papers ==> q.id != p.id
    ensures DistinctIds(papers + [p])
    ensures forall q :: q in papers + [p] ==> PointsBack(papers + [p], q)
  {
    forall q | q in papers + [p] ensures PointsBack(papers + [p], q) {
      assert PointsBack(papers, q);
      if q.previous.Some? {
        var r :| r in papers && r.id == q.previous.value && r.slug == q.slug;
        assert r in papers + [p];
      }
    }
  }

  lemma FirstKeepsLineages(papers: seq<Paper>, p: Paper)
    requires LineagesOk(papers) && p.slug.Some? && p.previous == None
    requires forall q :: q in papers ==> q.id != p.id && q.slug != p.slug
    ensures LineagesOk(papers + [p])
  {
    var after := papers + [p];
    SupersededSnoc(papers, p);
    NewIdNotSuperseded(papers, p.id);
    AppendKeepsPointers(papers, p);
    hide PointsBack, Superseded;
    forall q | q in after ensures HasOneHead(after, q.slug.value) {
      if q == p {
        assert IsOnlyHead(after, p.slug.value, p);
      } else {
        var h :| IsOnlyHead(papers, q.slug.value, h);
        assert IsOnlyHead(after, q.slug.value, h);
      }
    }
  }

  /** A first version under a slug that is in use gives that slug a second head. */
  lemma UsedSlugGetsSecondHead(papers: seq<Paper>, p: Paper, q: Paper)
    requires LineagesOk(papers) && p.previous == None && q in papers && q.slug == p.slug
    requires forall r :: r in papers ==> r.id != p.id
    ensures !LineagesOk(papers + [p])
  {
    var after := papers + [p];
    var slug := q.slug.value;
    SupersededSnoc(papers, p);
    NewIdNotSuperseded(papers, p.id);
    var h :| IsOnlyHead(papers, slug, h);
    hide Superseded, PointsBack, DistinctIds;
    assert IsHead(after, h) && IsHead(after, p) && h != p;
    assert !HasOneHead(after, slug);
    assert p in after;
  }

  /** Adding a first version keeps one head per slug exactly when no stored paper has its slug. */
  lemma FirstKeepsLineagesIff(papers: seq<Paper>, p: Paper)
    requires LineagesOk(papers) && p.slug.Some? && p.previous == None
    requires forall q :: q in papers ==> q.id != p.id
    ensures LineagesOk(papers + [p]) <==> forall q :: q in papers ==> q.slug != p.slug
  {
    hide LineagesOk;
    if forall q :: q in papers ==> q.slug != p.slug {
      FirstKeepsLineages(papers, p);
    } else {
      var q :| q in papers && q.slug == p.slug;
      UsedSlugGetsSecondHead(papers, p, q);
    }
  }

  lemma RevisionKeepsLineages(papers: seq<Paper>, head: Paper, p: Paper)
    requires LineagesOk(papers) && IsHead(papers, head) && head.id != ""
    requires p.slug == head.slug && p.previous == Some(head.id)
    requires forall q :: q in papers ==> q.id != p.id
    ensures LineagesOk(papers + [p])
    ensures IsHead(papers + [p], p) && !IsHead(papers + [p], head)
  {
    var after := papers + [p];
    SupersededSnoc(papers, p);
    NewIdNotSuperseded(papers, p.id);
    assert PointsBack(papers, p);
    AppendKeepsPointers(papers, p);
    RevisionReplacesHead(papers, head, p);
    hide PointsBack, Superseded, IsHead, DistinctIds;
    forall q | q in after ensures HasOneHead(after, q.slug.value) {
      assert HasOneHead(papers, q.slug.value) by {
        assert q == p || q in papers;
      }
      var h :| IsOnlyHead(papers, q.slug.value, h);
      if q.slug == head.slug {
        assert h == head;
        assert IsOnlyHead(after, q.slug.value, p);
      } else {
        assert h != head;
        assert IsOnlyHead(after, q.slug.value, h);
      }
    }
  }

  /** The revision becomes a head, its predecessor stops being one, and nothing else changes. */
  lemma RevisionReplacesHead(papers: seq<Paper>, head: Paper, p: Paper)
    requires LineagesOk(papers) && IsHead(papers, head) && head.id != "" && p.previous == Some(head.id)
    requires forall q :: q in papers ==> q.id != p.id
    ensures forall g :: IsHead(papers + [p], g) <==> g == p || (IsHead(papers, g) && g != head)
  {
    hide PointsBack, HasOneHead;
    SupersededSnoc(papers, p);
    NewIdNotSuperseded(papers, p.id);
    hide Superseded;
    forall g | g in papers && g.id == head.id ensures g == head {
      SameIdSamePaper(papers, g, head);
    }
  }
}

/** Pairing each claim environment with its evidence environment, greedily and in document order. */
module EvidencePairing {
  import opened Wrappers
  import opened Text

  /** A TeX environment; an absent label is the empty string. */
  datatype Env = Env(name: string, labelText: string, offset: int)

  function LabelSuffix(labelText: string): Option<string> {
    if labelText == "" then None
    else match Find(labelText, ':')
      case None => Some(labelText)
      case Some(i) => Some(labelText[i + 1..])
  }

  /** The label ends in s behind its first colon, or is s itself. */
  ghost predicate HasSuffix(labelText: string, s: string) {
    || (exists kind :: ':' !in kind && labelText == kind + ":" + s)
    || (labelText == s && s != "" && ':' !in s)
  }

  lemma LabelSuffixMeans(labelText: string, s: string)
    ensures LabelSuffix(labelText) == Some(s) <==> HasSuffix(labelText, s)
    ensures LabelSuffix(labelText) == None <==> labelText == ""
  {
    if kind :| ':' !in kind && labelText == kind + ":" + s {
      FindIn(kind, ':', s);
      assert labelText[|kind| + 1..] == s;
    }
    if ':' in labelText && LabelSuffix(labelText) == Some(s) {
      var i := Find(labelText, ':').value;
      assert labelText == labelText[..i] + ":" + s;
    }
  }

  predicate IsClaim(envs: seq<Env>, i: nat) {
    i < |envs| && envs[i].name == "claim"
  }

  predicate IsEvidence(envs: seq<Env>, i: nat) {
    i < |envs| && envs[i].name == "evidence"
  }

  /** Evidence e carries the label suffix of claim c and does not come before it. */
  predicate SharesSuffix(envs: seq<Env>, c: nat, e: nat) {
    && IsClaim(envs, c) && IsEvidence(envs, e)
    && LabelSuffix(envs[c].labelText).Some? && LabelSuffix(envs[e].labelText) == LabelSuffix(envs[c].labelText)
    && envs[c].offset <= envs[e].offset
  }

  /** The first claim from index `from` on that starts behind claim c. */
  function NextClaim(envs: seq<Env>, c: nat, from: nat): Option<nat>
    requires c < |envs|
    decreases |envs| - from
  {
    if from >= |envs| then None
    else if IsClaim(envs, from) && envs[from].offset > envs[c].offset then Some(from)
    else NextClaim(envs, c, from + 1)
  }

  /** Evidence e lies strictly between claim c and the next claim. */
  predicate Between(envs: seq<Env>, c: nat, e: nat) {
    && IsClaim(envs, c) && IsEvidence(envs, e)
    && envs[c].offset < envs[e].offset
    && match NextClaim(envs, c, 0)
       case None => true
       case Some(n) => n < |envs| && envs[e].offset < envs[n].offset
  }

  function FirstSharing(envs: seq<Env>, c: nat, used: set<nat>, from: nat): (r: Option<nat>)
    ensures r.Some? ==> from <= r.value && SharesSuffix(envs, c, r.value) && r.value !in used
    ensures r.Some? ==> forall e :: from <= e < r.value && SharesSuffix(envs, c, e) ==> e in used
    ensures r.None? ==> forall e :: from <= e && SharesSuffix(envs, c, e) ==> e in used
    decreases |envs| - from
  {
    if from >= |envs| then None
    else if SharesSuffix(envs, c, from) && from !in used then Some(from)
    else FirstSharing(envs, c, used, from + 1)
  }

  function FirstBetween(envs: seq<Env>, c: nat, used: set<nat>, from: nat): (r: Option<nat>)
    ensures r.Some? ==> from <= r.value && Between(envs, c, r.value) && r.value !in used
    ensures r.Some? ==> forall e :: from <= e < r.value && Between(envs, c, e) ==> e in used
    ensures r.None? ==> forall e :: from <= e && Between(envs, c, e) ==> e in used
    decreases |envs| - from
  {
    if from >= |envs| then None
    else if Between(envs, c, from) && from !in used then Some(from)
    else FirstBetween(envs, c, used, from + 1)
  }

  function Choice(envs: seq<Env>, c: nat, used: set<nat>): Option<nat> {
    match FirstSharing(envs, c, used, 0)
    case Some(e) => Some(e)
    case None => FirstBetween(envs, c, used, 0)
  }

  /** The pairs after the first k environments have been looked at. */
  function PairsUpTo(envs: seq<Env>, k: nat): map<nat, nat> {
    if k == 0 then map[]
    else
      var m := PairsUpTo(envs, k - 1);
      if !IsClaim(envs, k - 1) then m
      else match Choice(envs, k - 1, m.Values)
        case None => m
        case Some(e) => m[k - 1 := e]
  }

  type Buckets = map<string, seq<nat>>

  /** In document order, the evidence among the first n environments whose label suffix is s. */
  function BucketOf(envs: seq<Env>, n: nat, s: string): seq<nat>
    requires n <= |envs|
  {
    if n == 0 then []
    else BucketOf(envs, n - 1, s)
         + if IsEvidence(envs, n - 1) && LabelSuffix(envs[n - 1].labelText) == Some(s) then [n - 1] else []
  }

  ghost predicate IsIndex(b: Buckets, envs: seq<Env>, n: nat)
    requires n <= |envs|
  {
    forall s :: BucketOf(envs, n, s) == if s in b then b[s] else []
  }

  lemma {:induction false} BucketMembers(envs: seq<Env>, n: nat, s: string)
    requires n <= |envs|
    ensures forall e: nat :: e in BucketOf(envs, n, s) <==>
              e < n && IsEvidence(envs, e) && LabelSuffix(envs[e].labelText) == Some(s)
    ensures forall i, j :: 0 <= i < j < |BucketOf(envs, n, s)| ==> BucketOf(envs, n, s)[i] < BucketOf(envs, n, s)[j]
  {
    if n > 0 {
      BucketMembers(envs, n - 1, s);
      var before := BucketOf(envs, n - 1, s);
      forall i | 0 <= i < |before| ensures before[i] < n - 1 {
        assert before[i] in before;
      }
    }
  }

  method IndexEvidence(envs: seq<Env>) returns (b: Buckets)
    ensures IsIndex(b, envs, |envs|)
  {
    hide LabelSuffix;
    b := map[];
    for i := 0 to |envs|
      invariant IsIndex(b, envs, i)
    {
      if envs[i].name == "evidence" {
        var suffix := LabelSuffix(envs[i].labelText);
        if suffix.Some? {
          var bucket := if suffix.value in b then b[suffix.value] else [];
          ghost var before := b;
          b := b[suffix.value := bucket + [i]];
          forall s ensures BucketOf(envs, i + 1, s) == if s in b then b[s] else [] {
            assert BucketOf(envs, i, s) == if s in before then before[s] else [];
          }
        }
      }
    }
  }

  method FindSharing(envs: seq<Env>, b: Buckets, c: nat, used: set<nat>) returns (r: Option<nat>)
    requires IsIndex(b, envs, |envs|) && IsClaim(envs, c)
    ensures r == FirstSharing(envs, c, used, 0)
  {
    hide BucketOf, FirstSharing, LabelSuffix;
    r := None;
    var suffix := LabelSuffix(envs[c].labelText);
    if suffix.None? || suffix.value !in b {
      BucketExhausted(envs, c, used, if suffix.None? then "" else suffix.value);
      return;
    }
    var bucket := b[suffix.value];
    BucketMembers(envs, |envs|, suffix.value);
    for i := 0 to |bucket|
      invariant forall j :: 0 <= j < i ==> Rejected(envs, c, used, bucket[j])
    {
      var candidate := bucket[i];
      assert candidate in bucket;
      if candidate in used {
        continue;
      }
      if envs[candidate].offset < envs[c].offset {
        continue;
      }
      BucketDecides(envs, c, used, suffix.value, i);
      return Some(candidate);
    }
    BucketExhausted(envs, c, used, suffix.value);
  }

  predicate Rejected(envs: seq<Env>, c: nat, used: set<nat>, e: nat) {
    e in used || !SharesSuffix(envs, c, e)
  }

  lemma BucketDecides(envs: seq<Env>, c: nat, used: set<nat>, s: string, i: nat)
    requires IsClaim(envs, c) && LabelSuffix(envs[c].labelText) == Some(s) && i < |BucketOf(envs, |envs|, s)|
    requires !Rejected(envs, c, used, BucketOf(envs, |envs|, s)[i])
    requires forall j :: 0 <= j < i ==> Rejected(envs, c, used, BucketOf(envs, |envs|, s)[j])
    ensures FirstSharing(envs, c, used, 0) == Some(BucketOf(envs, |envs|, s)[i])
  {
    hide BucketOf, LabelSuffix;
    var bucket := BucketOf(envs, |envs|, s);
    BucketMembers(envs, |envs|, s);
    forall e: nat | e < bucket[i] && SharesSuffix(envs, c, e) ensures e in used {
      assert e in bucket;
      var j :| 0 <= j < |bucket| && bucket[j] == e;
      assert j < i;
    }
    FirstSharingIs(envs, c, used, 0, bucket[i]);
  }

  lemma BucketExhausted(envs: seq<Env>, c: nat, used: set<nat>, s: string)
    requires IsClaim(envs, c) && (LabelSuffix(envs[c].labelText).Some? ==> LabelSuffix(envs[c].labelText).value == s)
    requires LabelSuffix(envs[c].labelText).Some? ==>
               forall j :: 0 <= j < |BucketOf(envs, |envs|, s)| ==> Rejected(envs, c, used, BucketOf(envs, |envs|, s)[j])
    ensures FirstSharing(envs, c, used, 0) == None
  {
    hide BucketOf, LabelSuffix;
    BucketMembers(envs, |envs|, s);
    forall e: nat | SharesSuffix(envs, c, e) ensures e in used {
      assert e in BucketOf(envs, |envs|, s);
    }
    NoneShares(envs, c, used, 0);
  }

  method FindBetween(envs: seq<Env>, c: nat, used: set<nat>) returns (r: Option<nat>)
    requires IsClaim(envs, c)
    ensures r == FirstBetween(envs, c, used, 0)
  {
    var next: Option<int> := None;
    for o := 0 to |envs|
      invariant next == None && NextClaim(envs, c, 0) == NextClaim(envs, c, o)
    {
      if envs[o].name == "claim" && o != c && envs[o].offset > envs[c].offset {
        next := Some(envs[o].offset);
        break;
      }
    }
    r := None;
    for i := 0 to |envs|
      invariant r == None && FirstBetween(envs, c, used, 0) == FirstBetween(envs, c, used, i)
    {
      if envs[i].name == "evidence" && i !in used && envs[i].offset > envs[c].offset
         && !(next.Some? && envs[i].offset >= next.value) {
        return Some(i);
      }
    }
  }

  method PairClaimsWithEvidence(envs: seq<Env>) returns (pairs: map<nat, nat>)
    ensures pairs == PairsUpTo(envs, |envs|)
  {
    pairs := map[];
    var evidenceBySuffix := IndexEvidence(envs);
    var used: set<nat> := {};
    for c := 0 to |envs|
      invariant pairs == PairsUpTo(envs, c) && used == pairs.Values
      invariant forall i :: i in pairs ==> i < c
    {
      if envs[c].name == "claim" {
        var chosen := FindSharing(envs, evidenceBySuffix, c, used);
        if chosen.None? {
          chosen := FindBetween(envs, c, used);
        }
        if chosen.Some? {
          ValuesOfUpdate(pairs, c, chosen.value);
          pairs := pairs[c := chosen.value];
          used := used + {chosen.value};
        }
      }
    }
  }

  lemma ValuesOfUpdate(m: map<nat, nat>, k: nat, v: nat)
    requires k !in m
    ensures m[k := v].Values == m.Values + {v}
  {
    assert k in m[k := v];
    forall x | x in m.Values ensures x in m[k := v].Values {
      var i :| i in m && m[i] == x;
      assert m[k := v][i] == x;
    }
  }

  lemma {:induction false} NoneShares(envs: seq<Env>, c: nat, used: set<nat>, from: nat)
    requires forall e :: from <= e && SharesSuffix(envs, c, e) ==> e in used
    ensures FirstSharing(envs, c, used, from) == None
    decreases |envs| - from
  {
    if from < |envs| {
      NoneShares(envs, c, used, from + 1);
    }
  }

  lemma {:induction false} FirstSharingIs(envs: seq<Env>, c: nat, used: set<nat>, from: nat, e: nat)
    requires from <= e && SharesSuffix(envs, c, e) && e !in used
    requires forall x :: from <= x < e && SharesSuffix(envs, c, x) ==> x in used
    ensures FirstSharing(envs, c, used, from) == Some(e)
    decreases e - from
  {
    if from < e {
      FirstSharingIs(envs, c, used, from + 1, e);
    }
  }

  /** Every pair joins a claim to evidence that shares its suffix or lies between it and the next claim; no
      evidence is given out twice. */
  lemma {:induction false} PairsAreSound(envs: seq<Env>, k: nat)
    ensures forall c :: c in PairsUpTo(envs, k) ==> c < k && IsClaim(envs, c)
    ensures forall c :: c in PairsUpTo(envs, k) ==>
              SharesSuffix(envs, c, PairsUpTo(envs, k)[c]) || Between(envs, c, PairsUpTo(envs, k)[c])
    ensures forall c, d :: c in PairsUpTo(envs, k) && d in PairsUpTo(envs, k) && c != d ==>
              PairsUpTo(envs, k)[c] != PairsUpTo(envs, k)[d]
  {
    if k > 0 {
      PairsAreSound(envs, k - 1);
      var m := PairsUpTo(envs, k - 1);
      forall d | d in m ensures m[d] in m.Values {
      }
    }
  }

  lemma PairsPointForward(envs: seq<Env>, c: nat)
    requires c in PairsUpTo(envs, |envs|)
    ensures c < |envs| && PairsUpTo(envs, |envs|)[c] < |envs|
    ensures envs[c].offset <= envs[PairsUpTo(envs, |envs|)[c]].offset
  {
    PairsAreSound(envs, |envs|);
  }

  /** Later environments never change a pair that was made. */
  lemma {:induction false} PairsPersist(envs: seq<Env>, k: nat, n: nat, c: nat)
    requires c < k <= n
    ensures c in PairsUpTo(envs, n) <==> c in PairsUpTo(envs, k)
    ensures c in PairsUpTo(envs, k) ==> PairsUpTo(envs, n)[c] == PairsUpTo(envs, k)[c]
    decreases n
  {
    if k < n {
      PairsPersist(envs, k, n - 1, c);
    }
  }

  ghost predicate InDocumentOrder(envs: seq<Env>) {
    forall i, j :: 0 <= i < j < |envs| ==> envs[i].offset < envs[j].offset
  }

  lemma {:induction false} NextClaimComesFirst(envs: seq<Env>, c: nat, d: nat, from: nat)
    requires InDocumentOrder(envs) && IsClaim(envs, c) && IsClaim(envs, d) && c < d && from <= d
    ensures NextClaim(envs, c, from).Some? && NextClaim(envs, c, from).value <= d
    decreases |envs| - from
  {
    if !(IsClaim(envs, from) && envs[from].offset > envs[c].offset) {
      NextClaimComesFirst(envs, c, d, from + 1);
    }
  }

  /** The positional fallback never takes evidence from behind a later claim. */
  lemma FallbackStaysBeforeNextClaim(envs: seq<Env>, c: nat, e: nat, d: nat)
    requires InDocumentOrder(envs) && Between(envs, c, e) && IsClaim(envs, d) && c < d
    ensures c < e < d
  {
    NextClaimComesFirst(envs, c, d, 0);
    var n := NextClaim(envs, c, 0).value;
    assert envs[e].offset < envs[n].offset;
    if n < d {
      assert envs[n].offset < envs[d].offset;
    }
  }

  /** A claim whose label suffix no other claim has gets the first later evidence with that suffix, whenever
      there is one: evidence labelled `ev:I.1` goes to the claim labelled `prop:I.1`. */
  lemma UniqueSuffixGetsFirstEvidence(envs: seq<Env>, c: nat, e: nat, s: string)
    requires InDocumentOrder(envs) && c < e < |envs|
    requires envs[c].name == "claim" && HasSuffix(envs[c].labelText, s)
    requires envs[e].name == "evidence" && HasSuffix(envs[e].labelText, s)
    requires forall d :: 0 <= d < |envs| && d != c && envs[d].name == "claim" ==> !HasSuffix(envs[d].labelText, s)
    requires forall x :: c < x < e && envs[x].name == "evidence" ==> !HasSuffix(envs[x].labelText, s)
    ensures c in PairsUpTo(envs, |envs|) && PairsUpTo(envs, |envs|)[c] == e
  {
    LabelSuffixMeans(envs[c].labelText, s);
    LabelSuffixMeans(envs[e].labelText, s);
    forall d: nat | IsClaim(envs, d) && d != c ensures LabelSuffix(envs[d].labelText) != LabelSuffix(envs[c].labelText) {
      LabelSuffixMeans(envs[d].labelText, s);
    }
    forall x: nat | x < e ensures !SharesSuffix(envs, c, x) {
      LabelSuffixMeans(envs[x].labelText, s);
      assert x < c ==> envs[x].offset < envs[c].offset;
    }
    hide LabelSuffix, HasSuffix;
    OnlyClaimWithSuffix(envs, c, e);
  }

  lemma OnlyClaimWithSuffix(envs: seq<Env>, c: nat, e: nat)
    requires InDocumentOrder(envs) && SharesSuffix(envs, c, e)
    requires forall d: nat :: IsClaim(envs, d) && d != c ==> LabelSuffix(envs[d].labelText) != LabelSuffix(envs[c].labelText)
    requires forall x: nat :: x < e ==> !SharesSuffix(envs, c, x)
    ensures c in PairsUpTo(envs, |envs|) && PairsUpTo(envs, |envs|)[c] == e
  {
    hide PairsUpTo, FirstSharing, LabelSuffix;
    NotStolen(envs, c, e);
    FirstSharingIs(envs, c, PairsUpTo(envs, c).Values, 0, e);
    ChoiceIsKept(envs, c, e);
  }

  lemma ChoiceIsMade(envs: seq<Env>, c: nat, e: nat)
    requires IsClaim(envs, c) && FirstSharing(envs, c, PairsUpTo(envs, c).Values, 0) == Some(e)
    ensures PairsUpTo(envs, c + 1) == PairsUpTo(envs, c)[c := e]
  {
    hide FirstSharing, FirstBetween;
  }

  lemma ChoiceIsKept(envs: seq<Env>, c: nat, e: nat)
    requires IsClaim(envs, c) && FirstSharing(envs, c, PairsUpTo(envs, c).Values, 0) == Some(e)
    ensures c in PairsUpTo(envs, |envs|) && PairsUpTo(envs, |envs|)[c] == e
  {
    ChoiceIsMade(envs, c, e);
    hide PairsUpTo;
    PairsPersist(envs, c + 1, |envs|, c);
  }

  /** No earlier claim can have taken evidence that only claim c shares its suffix with. */
  lemma NotStolen(envs: seq<Env>, c: nat, e: nat)
    requires InDocumentOrder(envs) && SharesSuffix(envs, c, e)
    requires forall d: nat :: IsClaim(envs, d) && d != c ==> LabelSuffix(envs[d].labelText) != LabelSuffix(envs[c].labelText)
    ensures e !in PairsUpTo(envs, c).Values
  {
    hide PairsUpTo, Between, NextClaim;
    var m := PairsUpTo(envs, c);
    PairsAreSound(envs, c);
    if e in m.Values {
      var d :| d in m && m[d] == e;
      assert !SharesSuffix(envs, d, e);
      FallbackStaysBeforeNextClaim(envs, d, e, c);
    }
  }

  /** A claim left without evidence had none to take: whatever shares its suffix behind it, and whatever lies
      between it and the next claim, is paired with another claim. */
  lemma UnpairedHadNoChoice(envs: seq<Env>, c: nat, e: nat)
    requires IsClaim(envs, c) && c !in PairsUpTo(envs, |envs|)
    requires SharesSuffix(envs, c, e) || Between(envs, c, e)
    ensures exists d :: d in PairsUpTo(envs, |envs|) && d < c && PairsUpTo(envs, |envs|)[d] == e
  {
    PairsPersist(envs, c + 1, |envs|, c);
    var m := PairsUpTo(envs, c);
    assert e in m.Values;
    var d :| d in m && m[d] == e;
    PairsAreSound(envs, c);
    PairsPersist(envs, c, |envs|, d);
  }

  // The documented fallback

  ghost predicate NoEvidenceIsLabelled(envs: seq<Env>) {
    forall e: nat :: IsEvidence(envs, e) ==> envs[e].labelText == ""
  }

  /** The last claim before index k without a pair. */
  function LatestUnpaired(envs: seq<Env>, pairs: map<nat, nat>, k: nat): (r: Option<nat>)
    ensures r.Some? ==> r.value < k && IsClaim(envs, r.value) && r.value !in pairs
    ensures r.Some? ==> forall c: nat :: r.value < c < k && IsClaim(envs, c) ==> c in pairs
    ensures r.None? ==> forall c: nat :: c < k && IsClaim(envs, c) ==> c in pairs
  {
    if k == 0 then None
    else if IsClaim(envs, k - 1) && k - 1 !in pairs then Some(k - 1)
    else LatestUnpaired(envs, pairs, k - 1)
  }

  /** The pairs as documented for evidence without labels: each one goes to the latest unpaired claim before it. */
  function DocumentedUpTo(envs: seq<Env>, k: nat): map<nat, nat> {
    if k == 0 then map[]
    else
      var m := DocumentedUpTo(envs, k - 1);
      if !IsEvidence(envs, k - 1) then m
      else match LatestUnpaired(envs, m, k - 1)
        case None => m
        case Some(c) => m[c := k - 1]
  }

  /** Evidence e stands behind claim c with neither claims nor evidence in between. */
  ghost predicate Follows(envs: seq<Env>, c: nat, e: nat) {
    && IsClaim(envs, c) && IsEvidence(envs, e) && c < e
    && forall i: nat :: c < i < e ==> !IsClaim(envs, i) && !IsEvidence(envs, i)
  }

  /** Some claim that no evidence follows comes before evidence that follows no claim. */
  ghost predicate LeavesOver(envs: seq<Env>, c: nat, e: nat) {
    && IsClaim(envs, c) && IsEvidence(envs, e) && c < e
    && (forall x: nat :: !Follows(envs, c, x)) && (forall d: nat :: !Follows(envs, d, e))
  }

  /** The pairs (c, e) with e < k where e follows c. */
  ghost predicate ArePairsThatFollow(envs: seq<Env>, pairs: map<nat, nat>, k: nat) {
    && (forall c :: c in pairs ==> Follows(envs, c, pairs[c]) && pairs[c] < k)
    && forall c: nat, e: nat :: e < k && Follows(envs, c, e) ==> c in pairs && pairs[c] == e
  }

  lemma {:induction false} NextClaimIsClaim(envs: seq<Env>, c: nat, from: nat)
    requires c < |envs| && NextClaim(envs, c, from).Some?
    ensures IsClaim(envs, NextClaim(envs, c, from).value)
    ensures envs[NextClaim(envs, c, from).value].offset > envs[c].offset
    decreases |envs| - from
  {
    if !(IsClaim(envs, from) && envs[from].offset > envs[c].offset) {
      NextClaimIsClaim(envs, c, from + 1);
    }
  }

  lemma BetweenInOrder(envs: seq<Env>, c: nat, e: nat)
    requires InDocumentOrder(envs)
    ensures Between(envs, c, e)
       <==> IsClaim(envs, c) && IsEvidence(envs, e) && c < e && forall d: nat :: c < d < e ==> !IsClaim(envs, d)
  {
    if IsClaim(envs, c) && IsEvidence(envs, e) && c < e {
      if NextClaim(envs, c, 0).Some? {
        NextClaimIsClaim(envs, c, 0);
      }
      forall d: nat | c < d < e && IsClaim(envs, d) ensures !Between(envs, c, e) {
        if Between(envs, c, e) {
          FallbackStaysBeforeNextClaim(envs, c, e, d);
        }
      }
    }
  }

  /** Without labels a claim is given the evidence that follows it. */
  lemma {:induction false} UnlabelledPairsFollow(envs: seq<Env>, k: nat)
    requires InDocumentOrder(envs) && NoEvidenceIsLabelled(envs)
    ensures forall c :: c in PairsUpTo(envs, k) ==> c < k && Follows(envs, c, PairsUpTo(envs, k)[c])
    ensures forall c: nat, e: nat :: c < k && Follows(envs, c, e) ==> c in PairsUpTo(envs, k) && PairsUpTo(envs, k)[c] == e
  {
    if k > 0 {
      UnlabelledPairsFollow(envs, k - 1);
      if IsClaim(envs, k - 1) {
        ChoiceFollows(envs, k - 1, PairsUpTo(envs, k - 1));
      }
      hide Follows, Choice, NoEvidenceIsLabelled, InDocumentOrder;
    }
  }

  lemma ChoiceFollows(envs: seq<Env>, c: nat, m: map<nat, nat>)
    requires InDocumentOrder(envs) && NoEvidenceIsLabelled(envs) && IsClaim(envs, c)
    requires forall d :: d in m ==> d < c && Follows(envs, d, m[d])
    ensures Choice(envs, c, m.Values).Some? ==> Follows(envs, c, Choice(envs, c, m.Values).value)
    ensures forall e: nat :: Follows(envs, c, e) ==> Choice(envs, c, m.Values) == Some(e)
  {
    assert forall e: nat :: !SharesSuffix(envs, c, e);
    forall e: nat ensures Between(envs, c, e) <==> IsEvidence(envs, e) && c < e && forall d: nat :: c < d < e ==> !IsClaim(envs, d) {
      BetweenInOrder(envs, c, e);
    }
    forall e | e in m.Values ensures e < c {
      var d :| d in m && m[d] == e;
      assert Follows(envs, d, e);
    }
    hide SharesSuffix, Between, InDocumentOrder, NoEvidenceIsLabelled;
    var r := FirstBetween(envs, c, m.Values, 0);
    assert Choice(envs, c, m.Values) == r;
    forall e: nat | Follows(envs, c, e) ensures r == Some(e) {
      assert Between(envs, c, e);
      assert r.Some? && r.value <= e;
    }
    if r.Some? {
      assert Follows(envs, c, r.value);
    }
  }

  /** As long as nothing is left over, the documented pairs are those of evidence that follows a claim. */
  lemma {:induction false} DocumentedPairsFollow(envs: seq<Env>, k: nat)
    requires forall c: nat, e: nat :: e < k ==> !LeavesOver(envs, c, e)
    ensures ArePairsThatFollow(envs, DocumentedUpTo(envs, k), k)
  {
    if k > 0 {
      DocumentedPairsFollow(envs, k - 1);
      hide ArePairsThatFollow, Follows, LeavesOver, LatestUnpaired;
      var e, m := k - 1, DocumentedUpTo(envs, k - 1);
      if c: nat :| Follows(envs, c, e) {
        FollowedIsTaken(envs, m, c, e);
      } else {
        NobodyIsTaken(envs, m, e);
      }
    }
  }

  lemma FollowedIsTaken(envs: seq<Env>, m: map<nat, nat>, c: nat, e: nat)
    requires ArePairsThatFollow(envs, m, e) && Follows(envs, c, e)
    ensures IsEvidence(envs, e) && LatestUnpaired(envs, m, e) == Some(c)
    ensures ArePairsThatFollow(envs, m[c := e], e + 1)
  {
    hide LatestUnpaired;
    assert c !in m;
  }

  lemma NobodyIsTaken(envs: seq<Env>, m: map<nat, nat>, e: nat)
    requires ArePairsThatFollow(envs, m, e)
    requires forall c: nat :: !Follows(envs, c, e) && !LeavesOver(envs, c, e)
    ensures IsEvidence(envs, e) ==> LatestUnpaired(envs, m, e) == None
    ensures ArePairsThatFollow(envs, m, e + 1)
  {
    hide LatestUnpaired;
    if IsEvidence(envs, e) {
      forall c: nat | c < e && IsClaim(envs, c) ensures c in m {
        assert !LeavesOver(envs, c, e);
        var x: nat :| Follows(envs, c, x);
        assert x < e;
      }
    }
  }

  lemma {:induction false} DocumentedPersists(envs: seq<Env>, k: nat, n: nat, c: nat)
    requires k <= n && c in DocumentedUpTo(envs, k)
    ensures c in DocumentedUpTo(envs, n) && DocumentedUpTo(envs, n)[c] == DocumentedUpTo(envs, k)[c]
    decreases n
  {
    if k < n {
      DocumentedPersists(envs, k, n - 1, c);
    }
  }

  lemma {:induction false} FirstLeftOver(envs: seq<Env>, c: nat, e: nat) returns (d: nat, x: nat)
    requires LeavesOver(envs, c, e)
    ensures LeavesOver(envs, d, x) && forall b: nat, y: nat :: y < x ==> !LeavesOver(envs, b, y)
    decreases e
  {
    hide LeavesOver;
    d, x := c, e;
    if b: nat, y: nat :| y < e && LeavesOver(envs, b, y) {
      d, x := FirstLeftOver(envs, b, y);
    }
  }

  lemma LeftOverIsPaired(envs: seq<Env>, c: nat, e: nat)
    requires LeavesOver(envs, c, e) && forall b: nat, y: nat :: y < e ==> !LeavesOver(envs, b, y)
    ensures exists d :: d in DocumentedUpTo(envs, |envs|) && DocumentedUpTo(envs, |envs|)[d] == e
  {
    var m := DocumentedUpTo(envs, e);
    DocumentedPairsFollow(envs, e);
    assert e < |envs| && IsEvidence(envs, e) && IsClaim(envs, c) && c < e && c !in m;
    hide *;
    var d := LatestUnpaired(envs, m, e).value;
    DocumentedNext(envs, e, d);
    DocumentedPersists(envs, e + 1, |envs|, d);
  }

  lemma DocumentedNext(envs: seq<Env>, e: nat, d: nat)
    requires IsEvidence(envs, e) && LatestUnpaired(envs, DocumentedUpTo(envs, e), e) == Some(d)
    ensures DocumentedUpTo(envs, e + 1) == DocumentedUpTo(envs, e)[d := e]
  {
    hide LatestUnpaired;
  }

  /** In documents that do not label their evidence, the pairs are the documented ones exactly when no claim that is not
      followed by evidence comes before evidence that does not follow a claim. */
  lemma DocumentedFallbackIff(envs: seq<Env>)
    requires InDocumentOrder(envs) && NoEvidenceIsLabelled(envs)
    ensures PairsUpTo(envs, |envs|) == DocumentedUpTo(envs, |envs|) <==> forall c: nat, e: nat :: !LeavesOver(envs, c, e)
  {
    var n := |envs|;
    UnlabelledPairsFollow(envs, n);
    if c: nat, e: nat :| LeavesOver(envs, c, e) {
      var d, x := FirstLeftOver(envs, c, e);
      LeftOverIsPaired(envs, d, x);
    } else {
      DocumentedPairsFollow(envs, n);
      PairsAreThose(envs, PairsUpTo(envs, n), DocumentedUpTo(envs, n), n);
    }
  }

  lemma PairsAreThose(envs: seq<Env>, p: map<nat, nat>, q: map<nat, nat>, n: nat)
    requires n == |envs| && ArePairsThatFollow(envs, q, n)
    requires forall c :: c in p ==> Follows(envs, c, p[c])
    requires forall c: nat, e: nat :: c < n && Follows(envs, c, e) ==> c in p && p[c] == e
    ensures p == q
  {
    forall c: nat, e: nat | Follows(envs, c, e) ensures c < n && e < n {}
    hide Follows;
  }

  /** Two claims and two proofs behind them: the second proof is given to nobody. */
  lemma SecondProofIsDropped()
    ensures var envs := [Env("claim", "", 0), Env("claim", "", 1), Env("evidence", "", 2), Env("evidence", "", 3)];
            && 3 !in PairsUpTo(envs, 4).Values && 0 !in PairsUpTo(envs, 4)
            && DocumentedUpTo(envs, 4) == map[1 := 2, 0 := 3]
  {
    var envs := [Env("claim", "", 0), Env("claim", "", 1), Env("evidence", "", 2), Env("evidence", "", 3)];
    assert InDocumentOrder(envs) && NoEvidenceIsLabelled(envs);
    assert IsClaim(envs, 0) && IsClaim(envs, 1) && IsEvidence(envs, 2) && IsEvidence(envs, 3);
    assert !IsEvidence(envs, 0) && !IsEvidence(envs, 1) && !IsClaim(envs, 2);
    hide *;
    UnlabelledPairsFollow(envs, 4);
    ProofsOfTwoClaims(envs);
  }

  lemma ProofsOfTwoClaims(envs: seq<Env>)
    requires IsClaim(envs, 0) && IsClaim(envs, 1) && IsEvidence(envs, 2) && IsEvidence(envs, 3)
    requires !IsEvidence(envs, 0) && !IsEvidence(envs, 1) && !IsClaim(envs, 2)
    ensures forall c: nat, e: nat :: Follows(envs, c, e) ==> e != 3 && c != 0
    ensures DocumentedUpTo(envs, 4) == map[1 := 2, 0 := 3]
  {
    assert LatestUnpaired(envs, map[], 2) == Some(1);
    var m: map<nat, nat> := map[1 := 2];
    assert LatestUnpaired(envs, m, 3) == Some(0);
    hide LatestUnpaired;
    assert DocumentedUpTo(envs, 1) == DocumentedUpTo(envs, 0) == map[];
    assert DocumentedUpTo(envs, 2) == map[];
    assert DocumentedUpTo(envs, 3) == m;
  }
}

/** When identities first wrote, and how many are active in each of the last eight weeks. */
module Cohorts {
  import opened Wrappers
  import opened IsoWeeks

  /** Kind ("orcid", "agent", ...) and identity string of whoever created a record. */
  type Identity = (string, string)

  /** A paper or annotation: its creator, if it names one, and its instant, if it has a readable one. */
  datatype Record = Record(creator: Option<Identity>, at: Option<nat>)

  predicate Counts(r: Record, exclude: set<string>) {
    && r.creator.Some? && r.creator.value.1 !in exclude
    && (r.creator.value.0 == "orcid" || r.creator.value.0 == "agent")
    && r.at.Some?
  }

  // What is counted

  /** Writes of researchers and agents count, if they are dated and not by an excluded identity. */
  lemma CountsMeans(r: Record, exclude: set<string>)
    ensures Counts(r, exclude) <==>
      exists kind, ident, t :: r == Record(Some((kind, ident)), Some(t)) && kind in {"orcid", "agent"} && ident !in exclude
  {
    if Counts(r, exclude) {
      assert r == Record(Some((r.creator.value.0, r.creator.value.1)), Some(r.at.value));
    }
  }

  ghost predicate IsEarliest(records: seq<Record>, exclude: set<string>, id: Identity, t: nat) {
    && (exists r :: r in records && Counts(r, exclude) && r.creator.value == id && r.at.value == t)
    && forall r :: r in records && Counts(r, exclude) && r.creator.value == id ==> t <= r.at.value
  }

  /** The earliest write of every identity, built up record by record. */
  function FirstSeen(records: seq<Record>, exclude: set<string>): map<Identity, nat> {
    if records == [] then map[]
    else
      var before, r := FirstSeen(records[..|records| - 1], exclude), records[|records| - 1];
      if !Counts(r, exclude) then before
      else if r.creator.value in before && before[r.creator.value] <= r.at.value then before
      else before[r.creator.value := r.at.value]
  }

  /** The distinct identities that are counted. */
  function Writers(records: seq<Record>, exclude: set<string>): set<Identity> {
    set r | r in records && Counts(r, exclude) :: r.creator.value
  }

  /** The writers of one kind with a record in the week. */
  function Active(records: seq<Record>, exclude: set<string>, kind: string, week: string): set<string> {
    set r | r in records && Counts(r, exclude) && r.creator.value.0 == kind && WeekKey(r.at.value) == week
      :: r.creator.value.1
  }

  function InWeek(firsts: map<Identity, nat>, ids: set<Identity>, week: string): set<Identity>
    requires ids <= firsts.Keys
  {
    set id | id in ids && WeekKey(firsts[id]) == week
  }

  /** The writers whose earliest write falls in the week. */
  function FirstWriters(records: seq<Record>, exclude: set<string>, week: string): set<Identity> {
    var firsts := FirstSeen(records, exclude);
    InWeek(firsts, firsts.Keys, week)
  }

  // The loops

  datatype Bucket = Bucket(orcid: set<string>, agent: set<string>)

  type Buckets = map<string, Bucket>

  function In(buckets: Buckets, kind: string, week: string): set<string> {
    if week !in buckets then {} else if kind == "orcid" then buckets[week].orcid else buckets[week].agent
  }

  /** The writers seen in a week so far, as far as the cutoff lets them be recorded. */
  function Recorded(records: seq<Record>, exclude: set<string>, cutoff: nat, kind: string, week: string): set<string> {
    set r | r in records && Counts(r, exclude) && r.creator.value.0 == kind && WeekKey(r.at.value) == week
      && r.at.value >= cutoff :: r.creator.value.1
  }

  lemma RecordedSnoc(records: seq<Record>, r: Record, exclude: set<string>, cutoff: nat, kind: string, week: string)
    ensures Recorded(records + [r], exclude, cutoff, kind, week)
         == Recorded(records, exclude, cutoff, kind, week)
          + if Counts(r, exclude) && r.creator.value.0 == kind && WeekKey(r.at.value) == week && r.at.value >= cutoff
            then {r.creator.value.1} else {}
  {
    hide WeekKey;
    var all := records + [r];
    forall x | x in Recorded(records, exclude, cutoff, kind, week) ensures x in Recorded(all, exclude, cutoff, kind, week) {
      var s :| s in records && Counts(s, exclude) && s.creator.value.0 == kind && WeekKey(s.at.value) == week
               && s.at.value >= cutoff && s.creator.value.1 == x;
      assert s in all;
    }
    assert r in all;
  }

  ghost predicate BucketsHold(buckets: Buckets, records: seq<Record>, exclude: set<string>, cutoff: nat) {
    forall week :: In(buckets, "orcid", week) == Recorded(records, exclude, cutoff, "orcid", week)
                && In(buckets, "agent", week) == Recorded(records, exclude, cutoff, "agent", week)
  }

  function Add(buckets: Buckets, kind: string, ident: string, week: string): Buckets {
    var b := if week in buckets then buckets[week] else Bucket({}, {});
    buckets[week := if kind == "orcid" then b.(orcid := b.orcid + {ident}) else b.(agent := b.agent + {ident})]
  }

  /** What one more record does to the buckets. */
  function Noted(buckets: Buckets, r: Record, exclude: set<string>, cutoff: nat): Buckets {
    if Counts(r, exclude) && r.at.value >= cutoff
    then Add(buckets, r.creator.value.0, r.creator.value.1, WeekKey(r.at.value))
    else buckets
  }

  lemma AddIn(buckets: Buckets, kind: string, ident: string, week: string, otherKind: string, otherWeek: string)
    requires kind == "orcid" || kind == "agent"
    requires otherKind == "orcid" || otherKind == "agent"
    ensures In(Add(buckets, kind, ident, week), otherKind, otherWeek)
         == In(buckets, otherKind, otherWeek) + if kind == otherKind && week == otherWeek then {ident} else {}
  {
  }

  lemma NotedIn(buckets: Buckets, records: seq<Record>, r: Record, exclude: set<string>, cutoff: nat, kind: string,
                week: string)
    requires kind == "orcid" || kind == "agent"
    requires In(buckets, kind, week) == Recorded(records, exclude, cutoff, kind, week)
    ensures In(Noted(buckets, r, exclude, cutoff), kind, week) == Recorded(records + [r], exclude, cutoff, kind, week)
  {
    hide WeekKey, Recorded, In, Add;
    RecordedSnoc(records, r, exclude, cutoff, kind, week);
    if Counts(r, exclude) && r.at.value >= cutoff {
      AddIn(buckets, r.creator.value.0, r.creator.value.1, WeekKey(r.at.value), kind, week);
    }
  }

  lemma NotedHolds(buckets: Buckets, records: seq<Record>, r: Record, exclude: set<string>, cutoff: nat)
    requires BucketsHold(buckets, records, exclude, cutoff)
    ensures BucketsHold(Noted(buckets, r, exclude, cutoff), records + [r], exclude, cutoff)
  {
    hide WeekKey, Recorded, In, Noted;
    var after := Noted(buckets, r, exclude, cutoff);
    forall week ensures In(after, "orcid", week) == Recorded(records + [r], exclude, cutoff, "orcid", week)
    ensures In(after, "agent", week) == Recorded(records + [r], exclude, cutoff, "agent", week) {
      NotedIn(buckets, records, r, exclude, cutoff, "orcid", week);
      NotedIn(buckets, records, r, exclude, cutoff, "agent", week);
    }
  }

  /** The pass over all records: earliest writes, and writers by week from the cutoff on. */
  method Collect(records: seq<Record>, exclude: set<string>, cutoff: nat)
    returns (firstSeen: map<Identity, nat>, weekActives: Buckets)
    ensures firstSeen == FirstSeen(records, exclude)
    ensures BucketsHold(weekActives, records, exclude, cutoff)
  {
    hide WeekKey, BucketsHold;
    firstSeen, weekActives := map[], map[];
    assert BucketsHold(weekActives, records[..0], exclude, cutoff) by {
      NothingRecorded(exclude, cutoff);
      assert records[..0] == [];
    }
    for i := 0 to |records|
      invariant firstSeen == FirstSeen(records[..i], exclude)
      invariant BucketsHold(weekActives, records[..i], exclude, cutoff)
    {
      assert records[..i + 1] == records[..i] + [records[i]];
      var record := records[i];
      NotedHolds(weekActives, records[..i], record, exclude, cutoff);
      if record.creator == None {
        continue;
      }
      var (kind, ident) := record.creator.value;
      if ident in exclude {
        continue;
      }
      if kind != "orcid" && kind != "agent" {
        continue;
      }
      if record.at == None {
        continue;
      }
      var ts := record.at.value;
      if (kind, ident) !in firstSeen || ts < firstSeen[(kind, ident)] {
        firstSeen := firstSeen[(kind, ident) := ts];
      }
      if ts >= cutoff {
        weekActives := Add(weekActives, kind, ident, WeekKey(ts));
      }
    }
    assert records[..|records|] == records;
  }

  lemma NothingRecorded(exclude: set<string>, cutoff: nat)
    ensures BucketsHold(map[], [], exclude, cutoff)
  {
  }

  // Counting

  lemma InWeekAdds(firsts: map<Identity, nat>, ids: set<Identity>, id: Identity, week: string)
    requires ids <= firsts.Keys && id in firsts && id !in ids
    ensures |InWeek(firsts, ids + {id}, week)| == |InWeek(firsts, ids, week)| + if WeekKey(firsts[id]) == week then 1 else 0
  {
    hide WeekKey;
    if WeekKey(firsts[id]) == week {
      assert InWeek(firsts, ids + {id}, week) == InWeek(firsts, ids, week) + {id};
    } else {
      assert InWeek(firsts, ids + {id}, week) == InWeek(firsts, ids, week);
    }
  }

  function CountOf(counts: map<string, nat>, week: string): nat {
    if week in counts then counts[week] else 0
  }

  lemma CountOneMore(firsts: map<Identity, nat>, done: set<Identity>, id: Identity, counts: map<string, nat>)
    requires done <= firsts.Keys && id in firsts && id !in done
    requires forall week :: CountOf(counts, week) == |InWeek(firsts, done, week)|
    ensures var key := WeekKey(firsts[id]);
            forall week :: CountOf(counts[key := CountOf(counts, key) + 1], week) == |InWeek(firsts, done + {id}, week)|
  {
    hide WeekKey, InWeek;
    var key := WeekKey(firsts[id]);
    var after := counts[key := CountOf(counts, key) + 1];
    forall week ensures CountOf(after, week) == |InWeek(firsts, done + {id}, week)| {
      InWeekAdds(firsts, done, id, week);
      assert CountOf(counts, week) == |InWeek(firsts, done, week)|;
    }
  }

  /** How many earliest writes fall in each week; weeks without any are left out. */
  method CountFirstWrites(firstSeen: map<Identity, nat>) returns (counts: map<string, nat>)
    ensures forall week :: CountOf(counts, week) == |InWeek(firstSeen, firstSeen.Keys, week)|
    ensures forall week :: week in counts ==> counts[week] > 0
  {
    hide WeekKey;
    counts := map[];
    var left := firstSeen.Keys;
    ghost var done: set<Identity> := {};
    while left != {}
      invariant left + done == firstSeen.Keys && left !! done
      invariant forall week :: CountOf(counts, week) == |InWeek(firstSeen, done, week)|
      invariant forall week :: week in counts ==> counts[week] > 0
      decreases |left|
    {
      var id :| id in left;
      left := left - {id};
      var key := WeekKey(firstSeen[id]);
      ghost var before := counts;
      counts := counts[key := CountOf(counts, key) + 1];
      CountOneMore(firstSeen, done, id, before);
      done := done + {id};
    }
    assert done == firstSeen.Keys;
  }

  // The displayed weeks

  /** The key of the week n weeks before now. */
  function WeeksAgo(now: nat, n: nat): string
    requires now >= n * WEEK
  {
    WeekKey(now - n * WEEK)
  }

  lemma WeekNumberBack(now: nat, n: nat)
    requires n <= 8 && now >= n * WEEK
    ensures WeekNumber(now - n * WEEK) == WeekNumber(now) - n
  {
    var q, r := now / WEEK, now % WEEK;
    assert now == q * WEEK + r;
    assert now - n * WEEK == (q - n) * WEEK + r;
    DivUnique(now - n * WEEK, WEEK, q - n, r);
  }

  lemma WeeksAgoDiffer(now: nat, m: nat, n: nat)
    requires m < n <= 8 && now >= 8 * WEEK
    ensures WeeksAgo(now, m) != WeeksAgo(now, n)
  {
    WeekNumberBack(now, m);
    WeekNumberBack(now, n);
    WeekKeyIsWeek(now - m * WEEK, now - n * WEEK);
  }

  /** The current week and the seven before it, oldest first. Removing duplicates finds none. */
  method DisplayedWeeks(now: nat) returns (weeks: seq<string>)
    requires now >= 8 * WEEK
    ensures |weeks| == 8 && forall j :: 0 <= j < 8 ==> weeks[j] == WeeksAgo(now, 7 - j)
    ensures forall i, j :: 0 <= i < j < 8 ==> weeks[i] != weeks[j]
  {
    hide WeekKey;
    var newestFirst: seq<string> := [];
    var cursor := now;
    for k := 0 to 8
      invariant |newestFirst| == k && cursor == now - k * WEEK
      invariant forall j :: 0 <= j < k ==> newestFirst[j] == WeeksAgo(now, j)
    {
      newestFirst := newestFirst + [WeekKey(cursor)];
      cursor := cursor - WEEK;
    }
    var order := seq(8, j requires 0 <= j < 8 => newestFirst[7 - j]);
    weeks := [];
    var seen: set<string> := {};
    for k := 0 to 8
      invariant weeks == order[..k]
      invariant forall w :: w in seen <==> w in order[..k]
      invariant forall i, j :: 0 <= i < j < k ==> order[i] != order[j]
    {
      var w := order[k];
      forall i | 0 <= i < k ensures order[i] != w {
        WeeksAgoDiffer(now, 7 - k, 7 - i);
      }
      if w in seen {
        continue;
      }
      seen := seen + {w};
      weeks := weeks + [w];
    }
  }

  /** A week among the displayed ones lies behind the cutoff as a whole, so the cutoff takes nothing from it. */
  lemma CutoffTruncatesNothing(records: seq<Record>, exclude: set<string>, now: nat, n: nat, kind: string)
    requires n <= 7 && now >= 8 * WEEK
    ensures Recorded(records, exclude, now - 8 * WEEK, kind, WeeksAgo(now, n))
         == Active(records, exclude, kind, WeeksAgo(now, n))
  {
    forall t: nat | WeekKey(t) == WeeksAgo(now, n) ensures t >= now - 8 * WEEK {
      BehindCutoff(t, now, n);
    }
    hide WeekKey, WeeksAgo, Counts;
  }

  lemma BehindCutoff(t: nat, now: nat, n: nat)
    requires n <= 7 && now >= 8 * WEEK
    ensures WeekKey(t) == WeeksAgo(now, n) ==> t >= now - 8 * WEEK
  {
    hide WeekKey, WeekNumber;
    if WeekKey(t) == WeeksAgo(now, n) {
      WeekKeyIsWeek(t, now - n * WEEK);
      WeekNumberBack(now, n);
      WeekNumberGap(t, now, n);
    }
  }

  lemma WeekNumberGap(t: nat, now: nat, n: nat)
    requires n <= 7 && WeekNumber(t) == WeekNumber(now) - n
    ensures t >= now - 8 * WEEK
  {
    FloorGap(t, now, WEEK, n);
  }

  lemma FloorGap(t: nat, now: nat, w: nat, n: nat)
    requires w > 0 && n <= 7 && t / w == now / w - n
    ensures t >= now - 8 * w
  {
    var q := now / w;
    assert now == q * w + now % w;
    assert t == (q - n) * w + t % w;
    WeeksBack(q, n, w);
  }

  lemma WeeksBack(q: int, n: nat, w: nat)
    requires n <= 7
    ensures (q - n) * w >= q * w - 7 * w
  {
    assert (q - n) * w - (q - 7) * w == (7 - n) * w >= 0;
  }

  ghost predicate ShowsActive(shown: seq<(string, nat)>, records: seq<Record>, exclude: set<string>, now: nat,
                              kind: string)
    requires now >= 8 * WEEK
  {
    && |shown| == 8
    && forall j :: 0 <= j < 8 ==>
      shown[j] == (WeeksAgo(now, 7 - j), |Active(records, exclude, kind, WeeksAgo(now, 7 - j))|)
  }

  /** First writes by week, and the distinct writers of each kind in each of the last eight weeks. */
  method ComputeCohorts(papers: seq<Record>, annotations: seq<Record>, now: nat, exclude: set<string>)
    returns (firstWrites: map<string, nat>, humans: seq<(string, nat)>, agents: seq<(string, nat)>)
    requires now >= 8 * WEEK
    ensures forall week :: CountOf(firstWrites, week) == |FirstWriters(papers + annotations, exclude, week)|
    ensures forall week :: week in firstWrites ==> firstWrites[week] > 0
    ensures ShowsActive(humans, papers + annotations, exclude, now, "orcid")
    ensures ShowsActive(agents, papers + annotations, exclude, now, "agent")
  {
    hide WeekKey, InWeek, FirstSeen, WeeksAgo, In;
    var records := papers + annotations;
    var cutoff := now - 8 * WEEK;
    var firstSeen, weekActives := Collect(records, exclude, cutoff);
    firstWrites := CountFirstWrites(firstSeen);
    var weeks := DisplayedWeeks(now);
    humans := ActiveCounts(weekActives, weeks, "orcid");
    agents := ActiveCounts(weekActives, weeks, "agent");
    forall j | 0 <= j < 8
      ensures humans[j] == (WeeksAgo(now, 7 - j), |Active(records, exclude, "orcid", WeeksAgo(now, 7 - j))|)
      ensures agents[j] == (WeeksAgo(now, 7 - j), |Active(records, exclude, "agent", WeeksAgo(now, 7 - j))|)
    {
      CutoffTruncatesNothing(records, exclude, now, 7 - j, "orcid");
      CutoffTruncatesNothing(records, exclude, now, 7 - j, "agent");
      assert In(weekActives, "orcid", weeks[j]) == Recorded(records, exclude, cutoff, "orcid", weeks[j]);
    }
  }

  method ActiveCounts(buckets: Buckets, weeks: seq<string>, kind: string) returns (shown: seq<(string, nat)>)
    ensures |shown| == |weeks|
    ensures forall j :: 0 <= j < |weeks| ==> shown[j] == (weeks[j], |In(buckets, kind, weeks[j])|)
  {
    shown := [];
    for j := 0 to |weeks|
      invariant |shown| == j
      invariant forall i :: 0 <= i < j ==> shown[i] == (weeks[i], |In(buckets, kind, weeks[i])|)
    {
      shown := shown + [(weeks[j], |In(buckets, kind, weeks[j])|)];
    }
  }

  // What the counts mean

  /** The map of first writes holds exactly the writers, each with its earliest write. */
  lemma {:induction false} FirstSeenIsEarliest(records: seq<Record>, exclude: set<string>, id: Identity)
    ensures id in FirstSeen(records, exclude) <==> id in Writers(records, exclude)
    ensures id in FirstSeen(records, exclude) ==> IsEarliest(records, exclude, id, FirstSeen(records, exclude)[id])
  {
    if records != [] {
      var front, r := records[..|records| - 1], records[|records| - 1];
      assert records == front + [r];
      FirstSeenIsEarliest(front, exclude, id);
      forall s | s in front ensures s in records {}
      assert r in records;
      assert forall s :: s in records ==> s in front || s == r;
    }
  }

  /** The order of the records changes none of the results. */
  lemma RecordOrderDoesNotMatter(a: seq<Record>, b: seq<Record>, exclude: set<string>, kind: string, week: string)
    requires forall r :: r in a <==> r in b
    ensures FirstSeen(a, exclude) == FirstSeen(b, exclude)
    ensures FirstWriters(a, exclude, week) == FirstWriters(b, exclude, week)
    ensures Active(a, exclude, kind, week) == Active(b, exclude, kind, week)
  {
    hide FirstSeen, WeekKey;
    assert Writers(a, exclude) == Writers(b, exclude);
    var f, g := FirstSeen(a, exclude), FirstSeen(b, exclude);
    forall id ensures id in f <==> id in g
    ensures id in f ==> f[id] == g[id] {
      FirstSeenIsEarliest(a, exclude, id);
      FirstSeenIsEarliest(b, exclude, id);
      hide Writers;
    }
    assert f == g;
  }

  function SumOver(counts: map<string, nat>, weeks: seq<string>): nat {
    if weeks == [] then 0 else SumOver(counts, weeks[..|weeks| - 1]) + CountOf(counts, weeks[|weeks| - 1])
  }

  function InWeeks(firsts: map<Identity, nat>, weeks: seq<string>): set<Identity> {
    set id | id in firsts && WeekKey(firsts[id]) in weeks
  }

  lemma {:induction false} SumCountsIdentities(counts: map<string, nat>, firsts: map<Identity, nat>, weeks: seq<string>)
    requires forall w :: CountOf(counts, w) == |InWeek(firsts, firsts.Keys, w)|
    requires forall i, j :: 0 <= i < j < |weeks| ==> weeks[i] != weeks[j]
    ensures SumOver(counts, weeks) == |InWeeks(firsts, weeks)|
  {
    hide WeekKey;
    if weeks == [] {
      assert InWeeks(firsts, weeks) == {};
    } else {
      var front, last := weeks[..|weeks| - 1], weeks[|weeks| - 1];
      assert weeks == front + [last] && last !in front;
      SumCountsIdentities(counts, firsts, front);
      OneWeekMore(firsts, front, last);
      hide InWeek, InWeeks;
    }
  }

  lemma OneWeekMore(firsts: map<Identity, nat>, weeks: seq<string>, week: string)
    requires week !in weeks
    ensures |InWeeks(firsts, weeks + [week])| == |InWeeks(firsts, weeks)| + |InWeek(firsts, firsts.Keys, week)|
  {
    hide WeekKey;
    var earlier, added := InWeeks(firsts, weeks), InWeek(firsts, firsts.Keys, week);
    assert InWeeks(firsts, weeks + [week]) == earlier + added;
    assert earlier !! added;
  }

  /** The first-write counts of all weeks add up to the number of distinct writers. */
  lemma FirstWritesAddUp(counts: map<string, nat>, records: seq<Record>, exclude: set<string>, weeks: seq<string>)
    requires forall w :: CountOf(counts, w) == |FirstWriters(records, exclude, w)|
    requires forall i, j :: 0 <= i < j < |weeks| ==> weeks[i] != weeks[j]
    requires forall w :: w in weeks <==> w in counts
    ensures SumOver(counts, weeks) == |Writers(records, exclude)|
  {
    hide FirstSeen, WeekKey, Writers;
    var firsts := FirstSeen(records, exclude);
    SumCountsIdentities(counts, firsts, weeks);
    forall id ensures id in InWeeks(firsts, weeks) <==> id in Writers(records, exclude) {
      FirstSeenIsEarliest(records, exclude, id);
      if id in firsts {
        var w := WeekKey(firsts[id]);
        assert id in InWeek(firsts, firsts.Keys, w);
        assert CountOf(counts, w) > 0;
      }
    }
    assert InWeeks(firsts, weeks) == Writers(records, exclude);
  }
}

/** The sliding-window rate limiter: one list of request times per token, and the admission decision. */
module RateLimiter {
  datatype Tier = Orcid | Agent | Anonymous

  datatype Settings = Settings(anonymousRead: int, orcidRead: int, orcidWrite: int, agentRead: int, agentWrite: int)

  function Upper(s: string): string {
    seq(|s|, i requires 0 <= i < |s| => if 'a' <= s[i] <= 'z' then s[i] - 'a' + 'A' else s[i])
  }

  function RpmFor(tier: Tier, verb: string, s: Settings): int {
    var isWrite := Upper(verb) != "GET" && Upper(verb) != "HEAD";
    match tier
    case Orcid => if isWrite then s.orcidWrite else s.orcidRead
    case Agent => if isWrite then s.agentWrite else s.agentRead
    case Anonymous => s.anonymousRead
  }

  /** Small letters go to the capital of their place in the alphabet, everything else stays. */
  lemma UpperMeans(s: string, i: nat, k: nat)
    requires i < |s| && k < 26
    ensures |Upper(s)| == |s|
    ensures s[i] == "abcdefghijklmnopqrstuvwxyz"[k] ==> Upper(s)[i] == "ABCDEFGHIJKLMNOPQRSTUVWXYZ"[k]
    ensures !('a' <= s[i] <= 'z') ==> Upper(s)[i] == s[i]
  {
    assert "ABCDEFGHIJKLMNOPQRSTUVWXYZ"[k] == 'A' + k as char;
    assert "abcdefghijklmnopqrstuvwxyz"[k] == 'a' + k as char;
  }

  /** Reads are GET and HEAD in any case. Named identities have limits of their own for reads and writes; anonymous ones
      have one limit. */
  lemma RpmForMeans(verb: string, s: Settings)
    ensures Upper(verb) in {"GET", "HEAD"} ==> RpmFor(Orcid, verb, s) == s.orcidRead && RpmFor(Agent, verb, s) == s.agentRead
    ensures Upper(verb) !in {"GET", "HEAD"} ==> RpmFor(Orcid, verb, s) == s.orcidWrite && RpmFor(Agent, verb, s) == s.agentWrite
    ensures RpmFor(Anonymous, verb, s) == s.anonymousRead
  {
  }

  /** One request as the log remembers it: whose it was, when, under which limit, and what became of it. */
  datatype Entry = Entry(token: string, time: int, limit: int, admitted: bool)

  function Times(log: seq<Entry>, token: string): seq<int> {
    if log == [] then []
    else
      var before := Times(log[..|log| - 1], token);
      if log[|log| - 1].token == token then before + [log[|log| - 1].time] else before
  }

  /** How many requests of the token, admitted or not, the log holds at or after the cutoff. */
  function CountSince(log: seq<Entry>, token: string, cutoff: int): nat {
    if log == [] then 0
    else CountSince(log[..|log| - 1], token, cutoff)
         + if log[|log| - 1].token == token && log[|log| - 1].time >= cutoff then 1 else 0
  }

  ghost predicate Chronological(log: seq<Entry>) {
    forall i, j :: 0 <= i < j < |log| ==> log[i].time <= log[j].time
  }

  function DropOld(ts: seq<int>, cutoff: int): seq<int> {
    if ts != [] && ts[0] < cutoff then DropOld(ts[1..], cutoff) else ts
  }

  ghost predicate Ascending(ts: seq<int>) {
    forall i, j :: 0 <= i < j < |ts| ==> ts[i] <= ts[j]
  }

  lemma {:induction false} TimesAscend(log: seq<Entry>, token: string)
    requires Chronological(log)
    ensures Ascending(Times(log, token))
    ensures forall t :: t in Times(log, token) ==> log != [] && t <= log[|log| - 1].time
  {
    if log != [] {
      TimesAscend(log[..|log| - 1], token);
      var before := Times(log[..|log| - 1], token);
      forall i | 0 <= i < |before| ensures before[i] <= log[|log| - 1].time {
        assert before[i] in before;
      }
    }
  }

  lemma {:induction false} DropOldCounts(log: seq<Entry>, token: string, cutoff: int)
    requires Chronological(log)
    ensures |DropOld(Times(log, token), cutoff)| == CountSince(log, token, cutoff)
  {
    if log != [] {
      var front := log[..|log| - 1];
      DropOldCounts(front, token, cutoff);
      TimesAscend(log, token);
      if log[|log| - 1].token == token {
        DropOldSnoc(Times(front, token), log[|log| - 1].time, cutoff);
      }
    }
  }

  lemma {:induction false} DropOldSnoc(ts: seq<int>, t: int, cutoff: int)
    requires Ascending(ts + [t])
    ensures DropOld(ts + [t], cutoff) == DropOld(ts, cutoff) + if t >= cutoff then [t] else []
  {
    if ts == [] {
      assert [] + [t] == [t];
    } else if ts[0] < cutoff {
      assert (ts + [t])[1..] == ts[1..] + [t];
      forall i, j | 0 <= i < j < |ts[1..] + [t]| ensures (ts[1..] + [t])[i] <= (ts[1..] + [t])[j] {
        assert (ts + [t])[i + 1] <= (ts + [t])[j + 1];
      }
      DropOldSnoc(ts[1..], t, cutoff);
    } else {
      assert (ts + [t])[0] <= (ts + [t])[|ts|];
    }
  }

  lemma {:induction false} DropTwice(ts: seq<int>, c: int, d: int)
    requires c <= d
    ensures DropOld(DropOld(ts, c), d) == DropOld(ts, d)
  {
    if ts != [] && ts[0] < c {
      DropTwice(ts[1..], c, d);
    }
  }

  /** Every decision in the log was made on the number of the token's requests in the 60 seconds up to it. */
  ghost predicate DecidedByCount(log: seq<Entry>) {
    forall i :: 0 <= i < |log| ==>
      (log[i].admitted <==> CountSince(log[..i + 1], log[i].token, log[i].time - 60) <= log[i].limit)
  }

  class RateWindows {
    var windows: map<string, seq<int>>
    ghost var log: seq<Entry>

    /** A token's list is what its last request left of its times. */
    ghost predicate Valid()
      reads this
    {
      && Chronological(log)
      && DecidedByCount(log)
      && forall token :: Window(token) == Kept(log, token)
    }

    ghost function Window(token: string): seq<int>
      reads this
    {
      if token in windows then windows[token] else []
    }

    constructor ()
      ensures Valid() && log == []
    {
      windows := map[];
      log := [];
    }

    /** The number returned counts the token's requests in the closed last 60 seconds, this one included. */
    method RecordRequest(token: string, now: int, ghost limit: int) returns (count: nat)
      requires Valid() && (log == [] || log[|log| - 1].time <= now)
      modifies this
      ensures Valid()
      ensures log == old(log) + [Entry(token, now, limit, count <= limit)]
      ensures count == CountSince(log, token, now - 60)
    {
      hide DropOld, Kept, Times, CountSince, Chronological, DecidedByCount;
      var window := if token in windows then windows[token] else [];
      var cutoff := now - 60;
      ghost var before := log;
      ghost var times := Times(log, token);
      KeptDropsMore(log, token, now);
      while window != [] && window[0] < cutoff
        invariant DropOld(window, cutoff) == DropOld(times, cutoff)
        invariant Valid() && log == before
        decreases |window|
      {
        DropOldUnfolds(window, cutoff);
        window := window[1..];
      }
      DropOldUnfolds(window, cutoff);
      window := window + [now];
      windows := windows[token := window];
      count := |window|;
      ghost var entry := Entry(token, now, limit, count <= limit);
      log := log + [entry];
      WindowAfter(before, entry);
      forall t ensures Window(t) == Kept(log, t) {
        if t != token {
          KeptElsewhere(before, entry, t);
        }
      }
      DecidedSnoc(before, entry);
    }

    /** The limiter of a request dependency: over the limit means rejected, and rejected requests count too. */
    method Admit(token: string, now: int, tier: Tier, verb: string, s: Settings) returns (ok: bool)
      requires Valid() && (log == [] || log[|log| - 1].time <= now)
      modifies this
      ensures Valid()
      ensures log == old(log) + [Entry(token, now, RpmFor(tier, verb, s), ok)]
      ensures ok <==> CountSince(log, token, now - 60) <= RpmFor(tier, verb, s)
    {
      var rpm := RpmFor(tier, verb, s);
      var count := RecordRequest(token, now, rpm);
      ok := !(count > rpm);
    }
  }

  /** The times a token's list holds after the log so far: those its last request found recent enough. */
  ghost function Kept(log: seq<Entry>, token: string): seq<int> {
    var ts := Times(log, token);
    if ts == [] then [] else DropOld(ts, ts[|ts| - 1] - 60)
  }

  lemma DropOldUnfolds(ts: seq<int>, cutoff: int)
    ensures DropOld(ts, cutoff) == if ts != [] && ts[0] < cutoff then DropOld(ts[1..], cutoff) else ts
  {
  }

  lemma KeptDropsMore(log: seq<Entry>, token: string, now: int)
    requires Chronological(log) && (log == [] || log[|log| - 1].time <= now)
    ensures DropOld(Kept(log, token), now - 60) == DropOld(Times(log, token), now - 60)
  {
    var ts := Times(log, token);
    if ts != [] {
      TimesAscend(log, token);
      assert ts[|ts| - 1] in ts;
      DropTwice(ts, ts[|ts| - 1] - 60, now - 60);
    }
  }

  lemma TimesSnoc(log: seq<Entry>, e: Entry, token: string)
    ensures Times(log + [e], token) == if token == e.token then Times(log, token) + [e.time] else Times(log, token)
  {
    assert (log + [e])[..|log|] == log;
  }

  lemma WindowAfter(log: seq<Entry>, e: Entry)
    requires Chronological(log) && (log == [] || log[|log| - 1].time <= e.time)
    ensures Chronological(log + [e])
    ensures Kept(log + [e], e.token) == DropOld(Times(log, e.token), e.time - 60) + [e.time]
    ensures |Kept(log + [e], e.token)| == CountSince(log + [e], e.token, e.time - 60)
  {
    hide Times, CountSince, DropOld, Kept;
    assert Chronological(log + [e]);
    hide Chronological;
    KeptAfter(log, e);
    DropOldCounts(log + [e], e.token, e.time - 60);
  }

  lemma KeptAfter(log: seq<Entry>, e: Entry)
    requires Chronological(log + [e])
    ensures Kept(log + [e], e.token) == DropOld(Times(log + [e], e.token), e.time - 60)
    ensures Kept(log + [e], e.token) == DropOld(Times(log, e.token), e.time - 60) + [e.time]
  {
    hide Times, DropOld;
    var ts := Times(log, e.token);
    TimesSnoc(log, e, e.token);
    assert (ts + [e.time])[|ts + [e.time]| - 1] == e.time;
    TimesAscend(log + [e], e.token);
    hide Ascending, Chronological;
    DropOldSnoc(ts, e.time, e.time - 60);
  }

  lemma KeptElsewhere(log: seq<Entry>, e: Entry, token: string)
    requires token != e.token
    ensures Kept(log + [e], token) == Kept(log, token)
  {
    TimesSnoc(log, e, token);
  }

  lemma DecidedSnoc(log: seq<Entry>, e: Entry)
    requires DecidedByCount(log)
    requires e.admitted <==> CountSince(log + [e], e.token, e.time - 60) <= e.limit
    ensures DecidedByCount(log + [e])
  {
    hide CountSince;
    var after := log + [e];
    forall i | 0 <= i < |after|
      ensures after[i].admitted <==> CountSince(after[..i + 1], after[i].token, after[i].time - 60) <= after[i].limit
    {
      if i < |log| {
        assert after[..i + 1] == log[..i + 1];
      } else {
        assert after[..i + 1] == after;
      }
    }
  }

  /** The admitted requests of a token under limit L with times in the closed interval from s to s + 60. */
  function AdmittedWithin(log: seq<Entry>, token: string, limit: int, s: int): nat {
    if log == [] then 0
    else
      var last := log[|log| - 1];
      AdmittedWithin(log[..|log| - 1], token, limit, s)
      + if last.token == token && last.limit == limit && last.admitted && s <= last.time <= s + 60 then 1 else 0
  }

  lemma {:induction false} AdmittedAreCounted(log: seq<Entry>, token: string, limit: int, s: int, cutoff: int)
    requires cutoff <= s
    ensures AdmittedWithin(log, token, limit, s) <= CountSince(log, token, cutoff)
  {
    if log != [] {
      AdmittedAreCounted(log[..|log| - 1], token, limit, s, cutoff);
    }
  }

  /** In every interval of 60 seconds, both ends included, no token gets more requests admitted under a limit
      than the limit says, however its reads, writes and rejected attempts are mixed. */
  lemma {:induction false} AtMostLimitAdmitted(log: seq<Entry>, token: string, limit: int, s: int)
    requires Chronological(log) && DecidedByCount(log)
    ensures AdmittedWithin(log, token, limit, s) <= if limit < 0 then 0 else limit
  {
    if log != [] {
      var front, last := log[..|log| - 1], log[|log| - 1];
      assert DecidedByCount(front) by {
        forall i | 0 <= i < |front|
          ensures front[i].admitted <==> CountSince(front[..i + 1], front[i].token, front[i].time - 60) <= front[i].limit
        {
          assert front[..i + 1] == log[..i + 1];
        }
      }
      AtMostLimitAdmitted(front, token, limit, s);
      if last.token == token && last.limit == limit && last.admitted && s <= last.time <= s + 60 {
        assert log[..|log|] == log;
        AdmittedAreCounted(log, token, limit, s, last.time - 60);
      }
    }
  }
}

/** The rule that turns counted replications into the status of a claim. */
module StatusRule {
  import opened Wrappers

  datatype Status = Untested | Partial | Replicated | Contradicted | Retracted

  /** Numbers of replications: all, by outcome, and supporting fresh ones. */
  datatype Tally = Tally(total: nat, supports: nat, contradicts: nat, partials: nat, independent: nat)

  const NOTHING := Tally(0, 0, 0, 0, 0)

  function One(b: bool): nat {
    if b then 1 else 0
  }

  function Sum(s: Tally, t: Tally): Tally {
    Tally(s.total + t.total, s.supports + t.supports, s.contradicts + t.contradicts, s.partials + t.partials,
          s.independent + t.independent)
  }

  /** The status of a claim that is not retracted; `authored` is the stored status when it is one of the five. */
  function Verdict(t: Tally, authored: Option<Status>, quorum: nat): Status {
    if t.total == 0 then (if authored.Some? then authored.value else Untested)
    else if t.contradicts > 0 && t.contradicts >= t.supports then Contradicted
    else if t.independent >= quorum then Replicated
    else if t.supports > 0 || t.partials > 0 then Partial
    else Untested
  }

  predicate InChain(s: Status) {
    s == Untested || s == Partial || s == Replicated
  }

  function Rank(s: Status): nat
    requires InChain(s)
  {
    match s
    case Untested => 0
    case Partial => 1
    case Replicated => 2
  }

  predicate Lowers(before: Status, after: Status) {
    InChain(before) && !(InChain(after) && Rank(after) >= Rank(before))
  }

  lemma SumAssociates(r: Tally, s: Tally, t: Tally)
    ensures Sum(Sum(r, s), t) == Sum(r, Sum(s, t))
    ensures Sum(Sum(r, s), t) == Sum(Sum(r, t), s)
  {
  }

  lemma SumNothing(t: Tally)
    ensures Sum(t, NOTHING) == t && Sum(NOTHING, t) == t
  {
  }

  /** One more supporting replication. */
  function Supported(t: Tally, isFresh: bool): Tally {
    Sum(t, Tally(1, 1, 0, 0, One(isFresh)))
  }

  function Contested(t: Tally): Tally {
    Sum(t, Tally(1, 0, 1, 0, 0))
  }

  lemma SupportKeepsRank(t: Tally, authored: Option<Status>, quorum: nat, isFresh: bool)
    requires t.total > 0
    ensures var before, after := Verdict(t, authored, quorum), Verdict(Supported(t, isFresh), authored, quorum);
            !Lowers(before, after) && (after == Contradicted ==> before == Contradicted)
    ensures Verdict(t, authored, quorum) != Retracted && Verdict(Supported(t, isFresh), authored, quorum) != Retracted
  {
  }

  lemma AfterFirstSupport(authored: Option<Status>, quorum: nat, isFresh: bool)
    ensures Verdict(Supported(NOTHING, isFresh), authored, quorum)
         == if One(isFresh) >= quorum then Replicated else Partial
  {
    hide One, Sum;
    SumNothing(Tally(1, 1, 0, 0, One(isFresh)));
  }

  lemma LowersWhat(before: Status, after: Status)
    requires after == Replicated || after == Partial
    ensures Lowers(before, after) <==> before == Replicated && after == Partial
  {
  }

  lemma Unreplicated(authored: Option<Status>, quorum: nat)
    ensures Verdict(NOTHING, authored, quorum) == if authored.Some? then authored.value else Untested
  {
  }

  lemma FirstSupport(authored: Option<Status>, quorum: nat, isFresh: bool)
    ensures Lowers(Verdict(NOTHING, authored, quorum), Verdict(Supported(NOTHING, isFresh), authored, quorum))
       <==> authored == Some(Replicated) && One(isFresh) < quorum
  {
    hide *;
    AfterFirstSupport(authored, quorum, isFresh);
    Unreplicated(authored, quorum);
    LowersWhat(Verdict(NOTHING, authored, quorum), Verdict(Supported(NOTHING, isFresh), authored, quorum));
  }

  lemma ContradictionKeepsOrContradicts(t: Tally, authored: Option<Status>, quorum: nat)
    requires t.total == 0 ==> t == NOTHING
    ensures var before, after := Verdict(t, authored, quorum), Verdict(Contested(t), authored, quorum);
            if t.supports <= t.contradicts + 1 then after == Contradicted else after == before != Contradicted
  {
  }
}

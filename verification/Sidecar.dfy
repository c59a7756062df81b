/** The line-oriented sidecar file: its markers, how they are parsed, and how the class file prints them. */
module Sidecars {
  import opened Wrappers
  import opened Text
  import Digits

  datatype Marker =
    | Meta(key: string, value: string)
    | Env(kind: string, index: string)
    | Edge(kind: string, source: string, target: string)
    | Author(number: int, fields: map<string, string>)

  predicate IsMetaKey(k: string) {
    k == "id" || k == "version" || k == "protocol" || k == "license" || k == "topics"
  }

  predicate IsEnvKind(k: string) {
    k == "claim" || k == "evidence" || k == "observation" || k == "scope" || k == "openquestion" || k == "remark"
  }

  predicate IsEdgeKind(k: string) {
    k == "depends_on" || k == "supports" || k == "contradicts" || k == "extends"
  }

  predicate IsAuthorKey(k: string) {
    k == "name" || k == "orcid" || k == "role" || k == "handle" || k == "is_agent" || k == "affiliation"
    || k == "email" || k == "model_name" || k == "model_vendor" || k == "model_family" || k == "model_series"
    || k == "model_version" || k == "model_release_pin" || k == "model_release_date" || k == "model_slug"
    || k == "inference_environment"
  }

  const PREFIX := "RRXIV:"
  const LEGACY := "RRVIX:"

  /** The numeral of an author line: white space around it and one sign in front are allowed. */
  function ParseInt(s: string): Option<int> {
    var t := Trim(s);
    var body := if t != "" && (t[0] == '+' || t[0] == '-') then t[1..] else t;
    match Digits.ParseNat(body)
    case None => None
    case Some(n) => Some(if t[0] == '-' then -(n as int) else n as int)
  }

  /** The first piece before c, and what follows if c occurs. */
  function Partition(s: string, c: char): (string, Option<string>) {
    match Find(s, c)
    case None => (s, None)
    case Some(i) => (s[..i], Some(s[i + 1..]))
  }

  function AddField(fields: map<string, string>, kv: string): map<string, string> {
    match Partition(kv, '=')
    case (_, None) => fields
    case (key, Some(value)) =>
      if IsAuthorKey(Trim(key)) && Trim(value) != "" then fields[Trim(key) := Trim(value)] else fields
  }

  function FieldsOf(kvs: seq<string>): map<string, string> {
    if kvs == [] then map[] else AddField(FieldsOf(kvs[..|kvs| - 1]), kvs[|kvs| - 1])
  }

  /** The rest of an author line behind "author:". */
  function ParseAuthor(suffix: string): Option<Marker> {
    var first := Split(suffix, ':')[0];
    match ParseInt(Partition(first, '|').0)
    case None => None
    case Some(n) =>
      match Partition(suffix, '|').1
      case None => None
      case Some(rest) =>
        var fields := FieldsOf(Split(rest, '|'));
        if fields == map[] then None else Some(Author(n, fields))
  }

  /** The v0.1 reading of a colon-joined edge: odd counts give the last token to the target, even ones split in
      the middle. */
  function LegacySplit(tokens: seq<string>): (string, string)
    requires |tokens| >= 1
  {
    if |tokens| % 2 != 0 then
      (if |tokens| == 1 then "" else Join(tokens[..|tokens| - 1], ':'), tokens[|tokens| - 1])
    else
      (Join(tokens[..|tokens| / 2], ':'), Join(tokens[|tokens| / 2..], ':'))
  }

  function ParseEdge(kind: string, suffix: string): (Option<Marker>, bool) {
    var (head, tail) := Partition(suffix, '|');
    var legacy := tail.None?;
    var (source, target) := if legacy then LegacySplit(Split(suffix, ':')) else (head, tail.value);
    (if source == "" || target == "" then None else Some(Edge(kind, source, target)), legacy)
  }

  datatype Effect = Effect(marker: Option<Marker>, legacyPrefix: bool, legacyEdge: bool)

  /** What one line contributes, its prefix taken off. The colon-separated parts of the line drive the choice. */
  function ParseBody(body: string): (Option<Marker>, bool) {
    var parts := Split(body, ':');
    var head := parts[0];
    if head == "meta" && |parts| >= 3 && IsMetaKey(parts[1]) then
      (Some(Meta(parts[1], Join(parts[2..], ':'))), false)
    else if head == "author" then
      (if |parts| < 2 then None else ParseAuthor(Join(parts[1..], ':')), false)
    else if head == "edge" && |parts| >= 3 && IsEdgeKind(parts[1]) then
      ParseEdge(parts[1], Join(parts[2..], ':'))
    else if IsEnvKind(head) && |parts| >= 2 then
      (Some(Env(head, Join(parts[1..], ':'))), false)
    else (None, false)
  }

  function ParseLine(raw: string): Effect {
    var line := Trim(raw);
    if PREFIX <= line then
      var (m, edge) := ParseBody(line[|PREFIX|..]);
      Effect(m, false, edge)
    else if LEGACY <= line then
      var (m, edge) := ParseBody(line[|LEGACY|..]);
      Effect(m, true, edge)
    else Effect(None, false, false)
  }

  /** The markers of a list of lines, in order. */
  function Markers(lines: seq<string>): seq<Marker> {
    if lines == [] then []
    else Markers(lines[..|lines| - 1]) + match ParseLine(lines[|lines| - 1]).marker
                                         case None => []
                                         case Some(m) => [m]
  }

  datatype Sidecar = Sidecar(metas: seq<Marker>, envs: seq<Marker>, edges: seq<Marker>, authors: seq<Marker>)

  datatype Tag = MetaTag | EnvTag | EdgeTag | AuthorTag

  function TagOf(m: Marker): Tag {
    match m
    case Meta(_, _) => MetaTag
    case Env(_, _) => EnvTag
    case Edge(_, _, _) => EdgeTag
    case Author(_, _) => AuthorTag
  }

  function Select(ms: seq<Marker>, tag: Tag): seq<Marker> {
    if ms == [] then []
    else Select(ms[..|ms| - 1], tag) + if TagOf(ms[|ms| - 1]) == tag then [ms[|ms| - 1]] else []
  }

  function Sorted(ms: seq<Marker>): Sidecar {
    Sidecar(Select(ms, MetaTag), Select(ms, EnvTag), Select(ms, EdgeTag), Select(ms, AuthorTag))
  }

  /** The line loop: four lists in file order and one warning latch for each legacy form. */
  method ParseSidecarText(text: string) returns (s: Sidecar, legacyPrefix: bool, legacyEdges: bool)
    ensures s == Sorted(Markers(Lines(text)))
    ensures legacyPrefix <==> AnyPrefix(Lines(text))
    ensures legacyEdges <==> AnyEdge(Lines(text))
  {
    hide ParseLine, Select, Markers, AnyPrefix, AnyEdge;
    var lines := Lines(text);
    var metas, envs, edges, authors: seq<Marker> := [], [], [], [];
    legacyPrefix, legacyEdges := false, false;
    NothingParsed();
    for i := 0 to |lines|
      invariant Sidecar(metas, envs, edges, authors) == Sorted(Markers(lines[..i]))
      invariant (legacyPrefix <==> AnyPrefix(lines[..i])) && (legacyEdges <==> AnyEdge(lines[..i]))
    {
      assert lines[..i + 1] == lines[..i] + [lines[i]];
      var effect := ParseLine(lines[i]);
      legacyPrefix := legacyPrefix || effect.legacyPrefix;
      legacyEdges := legacyEdges || effect.legacyEdge;
      MarkersSnoc(lines[..i], lines[i]);
      LatchSnoc(lines[..i], lines[i]);
      if effect.marker.Some? {
        var m := effect.marker.value;
        SelectSnoc(Markers(lines[..i]), m);
        match m {
          case Meta(_, _) => metas := metas + [m];
          case Env(_, _) => envs := envs + [m];
          case Edge(_, _, _) => edges := edges + [m];
          case Author(_, _) => authors := authors + [m];
        }
      }
    }
    assert lines[..|lines|] == lines;
    s := Sidecar(metas, envs, edges, authors);
  }

  ghost predicate AnyPrefix(lines: seq<string>) {
    exists l :: l in lines && ParseLine(l).legacyPrefix
  }

  ghost predicate AnyEdge(lines: seq<string>) {
    exists l :: l in lines && ParseLine(l).legacyEdge
  }

  lemma LatchSnoc(lines: seq<string>, l: string)
    ensures AnyPrefix(lines + [l]) <==> AnyPrefix(lines) || ParseLine(l).legacyPrefix
    ensures AnyEdge(lines + [l]) <==> AnyEdge(lines) || ParseLine(l).legacyEdge
  {
    hide ParseLine;
    assert l in lines + [l];
    assert forall k :: k in lines ==> k in lines + [l];
  }

  lemma NothingParsed()
    ensures !AnyPrefix([]) && !AnyEdge([])
    ensures Sorted(Markers([])) == Sidecar([], [], [], [])
  {
  }

  lemma MarkersSnoc(lines: seq<string>, l: string)
    ensures Markers(lines + [l]) == match ParseLine(l).marker
                                    case None => Markers(lines)
                                    case Some(m) => Markers(lines) + [m]
  {
    assert (lines + [l])[..|lines|] == lines;
  }

  lemma SelectSnoc(ms: seq<Marker>, m: Marker)
    ensures forall tag :: Select(ms + [m], tag) == if TagOf(m) == tag then Select(ms, tag) + [m] else Select(ms, tag)
  {
    assert (ms + [m])[..|ms|] == ms;
  }

  /** Parsing a file is parsing its pieces and putting the results one behind the other. */
  lemma {:induction false} MarkersDistribute(a: seq<string>, b: seq<string>)
    ensures Markers(a + b) == Markers(a) + Markers(b)
  {
    if b == [] {
      assert a + b == a;
    } else {
      assert (a + b)[..|a + b| - 1] == a + b[..|b| - 1];
      MarkersDistribute(a, b[..|b| - 1]);
    }
  }

  lemma FilesDistribute(a: string, b: string)
    requires a == "" || a[|a| - 1] == '\n'
    ensures Markers(Lines(a + b)) == Markers(Lines(a)) + Markers(Lines(b))
  {
    LinesConcat(a, b);
    MarkersDistribute(Lines(a), Lines(b));
  }

  /** Author entries as the class file writes them: known keys, and values with something in them, no white
      space around them and no pipe. */
  predicate PrintableEntries(es: seq<(string, string)>) {
    |es| >= 1 && forall e :: e in es ==> IsAuthorKey(e.0) && e.1 != "" && Trimmed(e.1) && '|' !in e.1
  }

  /** The dictionary a list of entries describes; later entries win. */
  function EntryMap(es: seq<(string, string)>): map<string, string> {
    if es == [] then map[] else EntryMap(es[..|es| - 1])[es[|es| - 1].0 := es[|es| - 1].1]
  }

  function EntryTexts(es: seq<(string, string)>): (r: seq<string>)
    ensures |r| == |es|
  {
    seq(|es|, i requires 0 <= i < |es| => es[i].0 + "=" + es[i].1)
  }

  function PrintAuthor(n: nat, es: seq<(string, string)>): string
    requires |es| >= 1
  {
    PREFIX + "author:" + Digits.Decimal(n) + "|" + Join(EntryTexts(es), '|')
  }

  /** The line is what the v0.2 class file prints for the marker; fields carry no white space at the end. */
  ghost predicate Prints(m: Marker, line: string) {
    match m
    case Meta(key, value) => IsMetaKey(key) && EndTrimmed(value) && line == PREFIX + "meta:" + key + ":" + value
    case Env(kind, index) => IsEnvKind(kind) && EndTrimmed(index) && line == PREFIX + kind + ":" + index
    case Edge(kind, source, target) =>
      IsEdgeKind(kind) && source != "" && '|' !in source && target != "" && EndTrimmed(target)
      && line == PREFIX + "edge:" + kind + ":" + source + "|" + target
    case Author(n, fields) =>
      n >= 0 && exists es :: PrintableEntries(es) && fields == EntryMap(es) && line == PrintAuthor(n, es)
  }

  lemma PrefixedLine(body: string)
    requires body != "" && EndTrimmed(body)
    ensures ParseLine(PREFIX + body) == Effect(ParseBody(body).0, false, ParseBody(body).1)
  {
    hide ParseBody;
    var line := PREFIX + body;
    assert line[0] == 'R' && line[|line| - 1] == body[|body| - 1];
    assert line[|PREFIX|..] == body;
  }

  lemma TwoHeads(a: string, b: string, rest: string)
    requires ':' !in a && ':' !in b
    ensures Split(a + ":" + b + ":" + rest, ':') == [a, b] + Split(rest, ':')
  {
    hide Split;
    assert a + ":" + b + ":" + rest == a + ":" + (b + ":" + rest);
    OneHead(a, b + ":" + rest);
    OneHead(b, rest);
  }

  lemma OneHead(a: string, rest: string)
    requires ':' !in a
    ensures Split(a + ":" + rest, ':') == [a] + Split(rest, ':')
  {
    hide Split;
    SplitOff(a, ':', rest);
    assert a + ":" + rest == a + [':'] + rest;
  }

  lemma MetaRoundTrip(key: string, value: string)
    requires IsMetaKey(key) && EndTrimmed(value)
    ensures ParseLine(PREFIX + "meta:" + key + ":" + value) == Effect(Some(Meta(key, value)), false, false)
  {
    hide Split, Join, Find, ParseLine;
    var body := "meta" + ":" + key + ":" + value;
    assert PREFIX + body == PREFIX + "meta:" + key + ":" + value;
    assert value == "" ==> body[|body| - 1] == ':';
    assert value != "" ==> body[|body| - 1] == value[|value| - 1];
    PrefixedLine(body);
    TwoHeads("meta", key, value);
    JoinOfSplit(value, ':');
    var parts := Split(body, ':');
    assert parts[2..] == Split(value, ':');
  }

  lemma EnvRoundTrip(kind: string, index: string)
    requires IsEnvKind(kind) && EndTrimmed(index)
    ensures ParseLine(PREFIX + kind + ":" + index) == Effect(Some(Env(kind, index)), false, false)
  {
    hide Split, Join, Find, ParseLine;
    var body := kind + ":" + index;
    assert PREFIX + body == PREFIX + kind + ":" + index;
    assert EndTrimmed(body) by {
      if index == "" {
        assert body[|body| - 1] == ':';
      } else {
        assert body[|body| - 1] == index[|index| - 1];
      }
    }
    PrefixedLine(body);
    assert ':' !in kind;
    OneHead(kind, index);
    JoinOfSplit(index, ':');
    EnvParts(kind, Split(body, ':'), body);
    assert Split(body, ':')[1..] == Split(index, ':');
  }

  lemma EnvParts(kind: string, parts: seq<string>, body: string)
    requires IsEnvKind(kind) && parts == Split(body, ':') && |parts| >= 2 && parts[0] == kind
    ensures ParseBody(body) == (Some(Env(kind, Join(parts[1..], ':'))), false)
  {
    hide Split, Join;
  }

  function EdgeText(kind: string, suffix: string): string {
    PREFIX + "edge:" + kind + ":" + suffix
  }

  /** The parse of an edge line is decided by what follows the second colon. */
  lemma EdgeLine(kind: string, suffix: string)
    requires IsEdgeKind(kind) && suffix != "" && EndTrimmed(suffix)
    ensures ParseLine(EdgeText(kind, suffix))
         == Effect(ParseEdge(kind, suffix).0, false, ParseEdge(kind, suffix).1)
  {
    hide Split, Join, Find, ParseLine;
    hide ParseEdge;
    var body := "edge" + ":" + kind + ":" + suffix;
    assert PREFIX + body == EdgeText(kind, suffix);
    assert body[|body| - 1] == suffix[|suffix| - 1];
    PrefixedLine(body);
    TwoHeads("edge", kind, suffix);
    JoinOfSplit(suffix, ':');
    var parts := Split(body, ':');
    assert parts[2..] == Split(suffix, ':');
  }

  lemma EdgeRoundTrip(kind: string, source: string, target: string)
    requires IsEdgeKind(kind) && source != "" && '|' !in source && target != "" && EndTrimmed(target)
    ensures ParseLine(PREFIX + "edge:" + kind + ":" + source + "|" + target)
         == Effect(Some(Edge(kind, source, target)), false, false)
  {
    var suffix := source + ['|'] + target;
    assert EdgeText(kind, suffix) == PREFIX + "edge:" + kind + ":" + source + "|" + target;
    assert suffix[|suffix| - 1] == target[|target| - 1];
    EdgeLine(kind, suffix);
    FindIn(source, '|', target);
    assert suffix[..|source|] == source && suffix[|source| + 1..] == target;
  }

  lemma {:induction false} FieldsOfEntries(es: seq<(string, string)>)
    requires forall e :: e in es ==> IsAuthorKey(e.0) && e.1 != "" && Trimmed(e.1)
    ensures FieldsOf(EntryTexts(es)) == EntryMap(es)
  {
    if es != [] {
      var front, e := es[..|es| - 1], es[|es| - 1];
      assert EntryTexts(es)[..|es| - 1] == EntryTexts(front);
      FieldsOfEntries(front);
      AddsEntry(EntryMap(front), e.0, e.1);
    }
  }

  lemma AuthorKeyIsPlain(k: string)
    requires IsAuthorKey(k)
    ensures '=' !in k && Trimmed(k)
  {
  }

  lemma AddsEntry(fields: map<string, string>, k: string, v: string)
    requires IsAuthorKey(k) && v != "" && Trimmed(v)
    ensures AddField(fields, k + "=" + v) == fields[k := v]
  {
    AuthorKeyIsPlain(k);
    hide TrimLeft, TrimRight, Find, IsAuthorKey, Trimmed;
    FindIn(k, '=', v);
    assert k + "=" + v == k + ['='] + v;
    assert (k + "=" + v)[..|k|] == k && (k + "=" + v)[|k| + 1..] == v;
    TrimKeeps(k);
    TrimKeeps(v);
  }

  lemma NumeralParses(n: nat)
    ensures ParseInt(Digits.Decimal(n)) == Some(n as int)
    ensures ':' !in Digits.Decimal(n) && '|' !in Digits.Decimal(n)
  {
    Digits.DecimalIsNumeral(n);
    var d := Digits.Decimal(n);
    assert Digits.IsDigit(d[0]) && Digits.IsDigit(d[|d| - 1]);
    TrimKeeps(d);
    Digits.ParseOfDecimal(n);
  }

  /** The number in front of the first pipe survives the cut at the first colon behind it. */
  lemma NumberInFront(d: string, rest: string)
    requires ':' !in d && '|' !in d
    ensures Partition(Split(d + ['|'] + rest, ':')[0], '|').0 == d
  {
    var s := d + ['|'] + rest;
    var first := Split(s, ':')[0];
    assert |first| > |d| by {
      if Find(s, ':').Some? {
        var i := Find(s, ':').value;
        assert s[..|d|] == d && s[|d|] == '|';
      }
    }
    assert first == s[..|first|];
    var tail := first[|d| + 1..];
    assert first == d + ['|'] + tail;
    FindIn(d, '|', tail);
  }

  lemma AuthorRoundTrip(n: nat, es: seq<(string, string)>)
    requires PrintableEntries(es)
    ensures ParseLine(PrintAuthor(n, es)) == Effect(Some(Author(n, EntryMap(es))), false, false)
  {
    hide Split, Join, Find, ParseLine, ParseAuthor, Digits.Decimal, EntryMap;
    var d, rest := Digits.Decimal(n), Join(EntryTexts(es), '|');
    var suffix := d + ['|'] + rest;
    var body := "author" + ":" + suffix;
    assert PrintAuthor(n, es) == PREFIX + body;
    JoinEndsLike(EntryTexts(es), '|');
    var last := es[|es| - 1];
    assert EntryTexts(es)[|es| - 1] == last.0 + "=" + last.1;
    assert last in es;
    assert body[|body| - 1] == rest[|rest| - 1] == last.1[|last.1| - 1];
    PrefixedLine(body);
    OneHead("author", suffix);
    JoinOfSplit(suffix, ':');
    assert Split(body, ':')[1..] == Split(suffix, ':');
    SuffixParses(n, es);
  }

  lemma SuffixParses(n: nat, es: seq<(string, string)>)
    requires PrintableEntries(es)
    ensures ParseAuthor(Digits.Decimal(n) + ['|'] + Join(EntryTexts(es), '|')) == Some(Author(n, EntryMap(es)))
  {
    var d, rest := Digits.Decimal(n), Join(EntryTexts(es), '|');
    var suffix := d + ['|'] + rest;
    NumeralParses(n);
    NumberInFront(d, rest);
    FindIn(d, '|', rest);
    assert suffix[|d| + 1..] == rest;
    forall t | t in EntryTexts(es) ensures '|' !in t {
      var i :| 0 <= i < |es| && EntryTexts(es)[i] == t;
      assert es[i] in es;
      AuthorKeyHasNoPipe(es[i].0);
    }
    SplitOfJoin(EntryTexts(es), '|');
    FieldsOfEntries(es);
    assert es[|es| - 1].0 in EntryMap(es);
  }

  lemma AuthorKeyHasNoPipe(k: string)
    requires IsAuthorKey(k)
    ensures '|' !in k
  {
  }

  lemma {:induction false} JoinEndsLike(ps: seq<string>, c: char)
    requires |ps| >= 1 && ps[|ps| - 1] != ""
    ensures Join(ps, c) != "" && Join(ps, c)[|Join(ps, c)| - 1] == ps[|ps| - 1][|ps[|ps| - 1]| - 1]
  {
    if |ps| > 1 {
      JoinEndsLike(ps[1..], c);
    }
  }

  lemma PrintedLineParses(m: Marker, line: string)
    requires Prints(m, line)
    ensures ParseLine(line) == Effect(Some(m), false, false)
  {
    match m
    case Meta(key, value) => MetaRoundTrip(key, value);
    case Env(kind, index) => EnvRoundTrip(kind, index);
    case Edge(kind, source, target) => EdgeRoundTrip(kind, source, target);
    case Author(n, fields) =>
      var es :| PrintableEntries(es) && fields == EntryMap(es) && line == PrintAuthor(n, es);
      AuthorRoundTrip(n, es);
  }

  lemma {:induction false} PrintedMarkers(ms: seq<Marker>, lines: seq<string>)
    requires |ms| == |lines| && forall i :: 0 <= i < |ms| ==> Prints(ms[i], lines[i])
    ensures Markers(lines) == ms
  {
    hide ParseLine, Prints;
    if ms != [] {
      PrintedMarkers(ms[..|ms| - 1], lines[..|ms| - 1]);
      PrintedLineParses(ms[|ms| - 1], lines[|ms| - 1]);
    }
  }

  /** Parsing what the v0.2 class file printed gives back the same markers in order, and no warning. */
  lemma PrintedFileParses(ms: seq<Marker>, lines: seq<string>)
    requires |ms| == |lines| && forall i :: 0 <= i < |ms| ==> Prints(ms[i], lines[i])
    requires forall l :: l in lines ==> '\n' !in l
    ensures Sorted(Markers(Lines(Unlines(lines)))) == Sorted(ms)
    ensures !AnyPrefix(Lines(Unlines(lines))) && !AnyEdge(Lines(Unlines(lines)))
  {
    LinesOfUnlines(lines);
    PrintedMarkers(ms, lines);
    forall l | l in lines ensures !ParseLine(l).legacyPrefix && !ParseLine(l).legacyEdge {
      var i :| 0 <= i < |lines| && lines[i] == l;
      PrintedLineParses(ms[i], l);
    }
  }

  /** Tokens of an id: neither of the two separators occurs in them. */
  predicate CleanTokens(ts: seq<string>) {
    |ts| >= 1 && forall t :: t in ts ==> ':' !in t && '|' !in t
  }

  lemma JoinInjective(a: seq<string>, b: seq<string>, c: char)
    requires |a| >= 1 && |b| >= 1 && (forall t :: t in a ==> c !in t) && (forall t :: t in b ==> c !in t)
    requires Join(a, c) == Join(b, c)
    ensures a == b
  {
    SplitOfJoin(a, c);
    SplitOfJoin(b, c);
  }

  lemma {:induction false} JoinHasNo(ps: seq<string>, c: char, x: char)
    requires |ps| >= 1 && x != c && forall t :: t in ps ==> x !in t
    ensures x !in Join(ps, c)
  {
    if |ps| > 1 {
      JoinHasNo(ps[1..], c, x);
    }
  }

  /** The colon-joined v0.1 edge of a source of p tokens and a target of q tokens is read back correctly if and
      only if p = q, or p + q is odd and q = 1. */
  lemma LegacyEdgeRecovered(kind: string, src: seq<string>, dst: seq<string>)
    requires IsEdgeKind(kind) && CleanTokens(src) && CleanTokens(dst)
    requires Join(src, ':') != "" && Join(dst, ':') != "" && EndTrimmed(Join(dst, ':'))
    ensures ParseLine(EdgeText(kind, Join(src, ':') + ":" + Join(dst, ':'))).marker
            == Some(Edge(kind, Join(src, ':'), Join(dst, ':')))
       <==> |src| == |dst| || ((|src| + |dst|) % 2 != 0 && |dst| == 1)
    ensures ParseLine(EdgeText(kind, Join(src, ':') + ":" + Join(dst, ':'))).legacyEdge
  {
    hide *;
    TokensAreClean(src, dst);
    var tokens := src + dst;
    var suffix := Join(tokens, ':');
    JoinOfAppend(src, dst, ':');
    var s, d := Join(src, ':'), Join(dst, ':');
    assert suffix == s + ":" + d;
    EndOfSuffix(s, d);
    EdgeLine(kind, suffix);
    JoinHasNo(tokens, ':', '|');
    SplitOfJoin(tokens, ':');
    SplitRecovers(src, dst);
    LegacyEdge(kind, suffix, tokens);
  }

  lemma EndOfSuffix(s: string, d: string)
    requires d != "" && EndTrimmed(d)
    ensures s + ":" + d != "" && EndTrimmed(s + ":" + d)
  {
    assert (s + ":" + d)[|s + ":" + d| - 1] == d[|d| - 1];
  }

  lemma TokensAreClean(src: seq<string>, dst: seq<string>)
    requires CleanTokens(src) && CleanTokens(dst)
    ensures |src| >= 1 && |dst| >= 1 && forall t :: t in src + dst ==> ':' !in t && '|' !in t
  {
  }

  lemma LegacyEdge(kind: string, suffix: string, tokens: seq<string>)
    requires '|' !in suffix && Split(suffix, ':') == tokens
    ensures ParseEdge(kind, suffix).1
    ensures forall s, d :: s != "" && d != "" ==>
              (ParseEdge(kind, suffix).0 == Some(Edge(kind, s, d)) <==> LegacySplit(tokens) == (s, d))
  {
    hide Split, LegacySplit;
  }

  /** Where the v0.1 reading cuts a list of n tokens. */
  function Cut(n: nat): (k: nat)
    requires n >= 2
    ensures 1 <= k < n
  {
    if n % 2 != 0 then n - 1 else n / 2
  }

  lemma CutHits(p: nat, q: nat)
    requires p >= 1 && q >= 1
    ensures Cut(p + q) == p <==> p == q || ((p + q) % 2 != 0 && q == 1)
  {
  }

  lemma LegacySplitCuts(tokens: seq<string>)
    requires |tokens| >= 2
    ensures LegacySplit(tokens) == (Join(tokens[..Cut(|tokens|)], ':'), Join(tokens[Cut(|tokens|)..], ':'))
  {
    if |tokens| % 2 != 0 {
      assert tokens[|tokens| - 1..] == [tokens[|tokens| - 1]];
    }
  }

  lemma SplitRecovers(src: seq<string>, dst: seq<string>)
    requires CleanTokens(src) && CleanTokens(dst)
    ensures LegacySplit(src + dst) == (Join(src, ':'), Join(dst, ':'))
       <==> |src| == |dst| || ((|src| + |dst|) % 2 != 0 && |dst| == 1)
  {
    hide *;
    TokensAreClean(src, dst);
    LegacySplitCuts(src + dst);
    CutHits(|src|, |dst|);
    CutAt(src, dst, Cut(|src + dst|));
  }

  lemma CutAt(src: seq<string>, dst: seq<string>, cut: nat)
    requires CleanTokens(src) && CleanTokens(dst) && 1 <= cut < |src + dst|
    ensures Join((src + dst)[..cut], ':') == Join(src, ':') && Join((src + dst)[cut..], ':') == Join(dst, ':')
       <==> cut == |src|
  {
    hide Join;
    var head := (src + dst)[..cut];
    if cut == |src| {
      assert head == src && (src + dst)[cut..] == dst;
    } else if Join(head, ':') == Join(src, ':') {
      JoinInjective(head, src, ':');
      assert false;
    }
  }

  // Vocabulary and skipped lines, spelled out

  lemma VocabularyMeans(k: string)
    ensures IsMetaKey(k) <==> k in {"id", "version", "protocol", "license", "topics"}
    ensures IsEnvKind(k) <==> k in {"claim", "evidence", "observation", "scope", "openquestion", "remark"}
    ensures IsEdgeKind(k) <==> k in {"depends_on", "supports", "contradicts", "extends"}
    ensures IsAuthorKey(k) <==>
      k in {"name", "orcid", "role", "handle", "is_agent", "affiliation", "email", "inference_environment"}
      || k in {"model_name", "model_vendor", "model_family", "model_series", "model_version", "model_release_pin",
               "model_release_date", "model_slug"}
  {
  }

  /** Both prefixes lead to the same marker, the old one with a warning; lines with neither are skipped. */
  lemma ParseLineMeans(v: string, body: string, w: string, raw: string)
    requires Blank(v) && Blank(w) && EndTrimmed(body)
    ensures ParseLine(v + ("RRXIV:" + body) + w) == Effect(ParseBody(body).0, false, ParseBody(body).1)
    ensures ParseLine(v + ("RRVIX:" + body) + w) == Effect(ParseBody(body).0, true, ParseBody(body).1)
    ensures !("RRXIV:" <= Trim(raw)) && !("RRVIX:" <= Trim(raw)) ==> ParseLine(raw) == Effect(None, false, false)
  {
    LineBehindBlank(v, PREFIX, body, w);
    LineBehindBlank(v, LEGACY, body, w);
    hide Trim, ParseBody;
    assert LEGACY[2] == 'V' && PREFIX[2] == 'X';
    assert (LEGACY + body)[2] == 'V';
  }

  lemma LineBehindBlank(v: string, prefix: string, body: string, w: string)
    requires Blank(v) && Blank(w) && EndTrimmed(body) && |prefix| == 6 && prefix[0] == 'R' && prefix[5] == ':'
    ensures Trim(v + (prefix + body) + w) == prefix + body && (prefix + body)[6..] == body && prefix <= prefix + body
  {
    TrimIsUnique(v, prefix + body, w);
  }

  /** A line is skipped when its first word is unknown or stands alone. */
  lemma UnknownHeadIsSkipped(head: string, rest: string)
    requires ':' !in head
    ensures ParseBody(head) == (None, false)
    ensures head !in {"meta", "author", "edge", "claim", "evidence", "observation", "scope", "openquestion", "remark"} ==>
              ParseBody(head + ":" + rest) == (None, false)
  {
    VocabularyMeans(head);
    SplitOff(head, ':', rest);
    NothingToSplit(head, ':');
    assert head + ":" + rest == head + [':'] + rest;
    hide Split, Join, IsMetaKey, IsEnvKind, IsEdgeKind, ParseEdge, ParseAuthor;
  }

  /** So is one with an unknown word behind `meta` or `edge`, or with nothing behind that. */
  lemma UnknownMetaIsSkipped(key: string, rest: string)
    requires ':' !in key
    ensures ParseBody("meta" + ":" + key) == (None, false)
    ensures key !in {"id", "version", "protocol", "license", "topics"} ==>
              ParseBody("meta" + ":" + (key + ":" + rest)) == (None, false)
  {
    hide *;
    VocabularyMeans(key);
    VocabularyMeans("meta");
    TwoWords("meta", key, rest);
    TwoWordsAreSkipped("meta" + ":" + key, "meta", key, []);
    TwoWordsAreSkipped("meta" + ":" + (key + ":" + rest), "meta", key, Split(rest, ':'));
  }

  lemma UnknownEdgeIsSkipped(key: string, rest: string)
    requires ':' !in key
    ensures ParseBody("edge" + ":" + key) == (None, false)
    ensures key !in {"depends_on", "supports", "contradicts", "extends"} ==>
              ParseBody("edge" + ":" + (key + ":" + rest)) == (None, false)
  {
    hide *;
    VocabularyMeans(key);
    VocabularyMeans("edge");
    TwoWords("edge", key, rest);
    TwoWordsAreSkipped("edge" + ":" + key, "edge", key, []);
    TwoWordsAreSkipped("edge" + ":" + (key + ":" + rest), "edge", key, Split(rest, ':'));
  }

  lemma TwoWordsAreSkipped(body: string, head: string, key: string, more: seq<string>)
    requires Split(body, ':') == [head, key] + more && !IsEnvKind(head) && head != "author"
    ensures more == [] || (!(head == "meta" && IsMetaKey(key)) && !(head == "edge" && IsEdgeKind(key))) ==>
              ParseBody(body) == (None, false)
  {
    hide Split, Join, IsMetaKey, IsEnvKind, IsEdgeKind, ParseEdge, ParseAuthor;
  }

  lemma TwoWords(head: string, key: string, rest: string)
    requires ':' !in head && ':' !in key
    ensures Split(head + ":" + key, ':') == [head, key]
    ensures Split(head + ":" + (key + ":" + rest), ':') == [head, key] + Split(rest, ':')
  {
    hide *;
    NothingToSplit(key, ':');
    SplitOff(key, ':', rest);
    SplitOff(head, ':', key + ":" + rest);
    SplitOff(head, ':', key);
    assert [head] + [key] == [head, key];
    assert [head] + ([key] + Split(rest, ':')) == [head, key] + Split(rest, ':');
  }

  /** A sign and a numeral, white space around them. */
  lemma ParseIntMeans(v: string, digits: string, w: string)
    requires Blank(v) && Blank(w) && digits != "" && Digits.AllDigits(digits)
    ensures ParseInt(v + digits + w) == Some(Digits.Value(digits))
    ensures ParseInt(v + ("+" + digits) + w) == Some(Digits.Value(digits))
    ensures ParseInt(v + ("-" + digits) + w) == Some(0 - (Digits.Value(digits) as int))
  {
    TrimmedNumber(v, "", digits, w);
    TrimmedNumber(v, "+", digits, w);
    TrimmedNumber(v, "-", digits, w);
    assert "" + digits == digits;
    SignedNumber(v + digits + w, "", digits);
    SignedNumber(v + ("+" + digits) + w, "+", digits);
    SignedNumber(v + ("-" + digits) + w, "-", digits);
    hide *;
  }

  lemma SignedNumber(s: string, sign: string, digits: string)
    requires Trim(s) == sign + digits && sign in {"", "+", "-"} && digits != "" && Digits.AllDigits(digits)
    ensures ParseInt(s) == Some(if sign == "-" then 0 - (Digits.Value(digits) as int) else Digits.Value(digits) as int)
  {
    hide Trim, Digits.Value;
    assert Digits.IsDigit(digits[0]);
    assert Digits.ParseNat(digits) == Some(Digits.Value(digits));
    if sign == "" {
      assert Trim(s) == digits;
    } else {
      assert Trim(s)[0] == sign[0] && Trim(s)[1..] == digits;
    }
  }

  lemma TrimmedNumber(v: string, sign: string, digits: string, w: string)
    requires Blank(v) && Blank(w) && digits != "" && Digits.AllDigits(digits) && sign in {"", "+", "-"}
    ensures Trim(v + (sign + digits) + w) == sign + digits
  {
    assert Digits.IsDigit(digits[0]) && Digits.IsDigit(digits[|digits| - 1]);
    assert Trimmed(sign + digits);
    TrimIsUnique(v, sign + digits, w);
  }

  /** Anything else in front of the first bar is no number. */
  lemma ParseIntFails(s: string)
    ensures ParseInt(s) == None <==>
      var t := Trim(s);
      var body := if t != "" && t[0] in ['+', '-'] then t[1..] else t;
      body == "" || exists c :: c in body && !('0' <= c <= '9')
  {
    var t := Trim(s);
    var body := if t != "" && t[0] in ['+', '-'] then t[1..] else t;
    hide Trim, Digits.Value;
    if !Digits.AllDigits(body) {
      var i :| 0 <= i < |body| && !Digits.IsDigit(body[i]);
      assert body[i] in body;
    }
  }

  /** An author line needs a number, a bar, and at least one known key with a value; a later value of a key replaces an
      earlier one. */
  lemma ParseAuthorMeans(number: string, rest: string)
    requires ':' !in number && '|' !in number
    ensures ParseAuthor(number) == None
    ensures ParseAuthor(number + "|" + rest)
         == if ParseInt(number).None? || FieldsOf(Split(rest, '|')) == map[] then None
            else Some(Author(ParseInt(number).value, FieldsOf(Split(rest, '|'))))
  {
    FindIn(number, '|', rest);
    NumberComesFirst(number, rest);
    NothingToSplit(number, ':');
    var s := number + "|" + rest;
    assert s[..|number|] == number && s[|number| + 1..] == rest;
    hide Split, ParseInt, FieldsOf;
  }

  lemma NumberComesFirst(number: string, rest: string)
    requires ':' !in number && '|' !in number
    ensures Partition(Split(number + "|" + rest, ':')[0], '|').0 == number
  {
    var s := number + "|" + rest;
    if ':' in s {
      var i := Find(s, ':').value;
      assert i > |number|;
      var first, tail := s[..i], s[|number| + 1..i];
      FirstPiece(s, i);
      hide Split;
      assert first == number + ['|'] + tail;
      FindIn(number, '|', tail);
      assert first[..|number|] == number;
    } else {
      NothingToSplit(s, ':');
      FindIn(number, '|', rest);
      assert s[..|number|] == number;
    }
  }

  lemma FirstPiece(s: string, i: nat)
    requires Find(s, ':') == Some(i)
    ensures Split(s, ':')[0] == s[..i]
  {
  }

  lemma FieldsOfMeans(kvs: seq<string>, a: string, b: string)
    ensures FieldsOf([]) == map[]
    ensures '=' !in a ==> FieldsOf(kvs + [a]) == FieldsOf(kvs)
    ensures '=' !in a ==>
              FieldsOf(kvs + [a + "=" + b])
              == if IsAuthorKey(Trim(a)) && !Blank(b) then FieldsOf(kvs)[Trim(a) := Trim(b)] else FieldsOf(kvs)
  {
    assert (kvs + [a])[..|kvs|] == kvs && (kvs + [a + "=" + b])[..|kvs|] == kvs;
    BlankTrimsToNothing(b);
    if '=' !in a {
      FindIn(a, '=', b);
      var s := a + "=" + b;
      assert s[..|a|] == a && s[|a| + 1..] == b;
    }
    hide Trim, Blank, IsAuthorKey;
  }

  /** Each kind of marker has its list, in the order of the file. */
  lemma SortedMeans(m: Marker, a: seq<Marker>, b: seq<Marker>)
    ensures m.Meta? ==> Sorted([m]) == Sidecar([m], [], [], [])
    ensures m.Env? ==> Sorted([m]) == Sidecar([], [m], [], [])
    ensures m.Edge? ==> Sorted([m]) == Sidecar([], [], [m], [])
    ensures m.Author? ==> Sorted([m]) == Sidecar([], [], [], [m])
    ensures var s, t, u := Sorted(a), Sorted(b), Sorted(a + b);
            && u.metas == s.metas + t.metas && u.envs == s.envs + t.envs
            && u.edges == s.edges + t.edges && u.authors == s.authors + t.authors
  {
    SelectOne(m, MetaTag);
    SelectOne(m, EnvTag);
    SelectOne(m, EdgeTag);
    SelectOne(m, AuthorTag);
    SelectConcat(a, b, MetaTag);
    SelectConcat(a, b, EnvTag);
    SelectConcat(a, b, EdgeTag);
    SelectConcat(a, b, AuthorTag);
    hide Select;
  }

  lemma SelectOne(m: Marker, tag: Tag)
    ensures Select([m], tag) == if TagOf(m) == tag then [m] else []
  {
    assert [m][..0] == [];
    hide TagOf;
  }

  lemma {:induction false} SelectConcat(a: seq<Marker>, b: seq<Marker>, tag: Tag)
    ensures Select(a + b, tag) == Select(a, tag) + Select(b, tag)
  {
    if b == [] {
      assert a + b == a;
    } else {
      var front := b[..|b| - 1];
      assert (a + b)[..|a + b| - 1] == a + front;
      SelectConcat(a, front, tag);
      hide TagOf;
    }
  }

  /** An edge is cut at its first bar and needs both ends; without a bar it is one of the old format, and a single token
      of that is no edge. */
  lemma ParseEdgeMeans(kind: string, source: string, target: string, token: string)
    requires '|' !in source && '|' !in token && ':' !in token
    ensures ParseEdge(kind, source + "|" + target)
         == (if source != "" && target != "" then Some(Edge(kind, source, target)) else None, false)
    ensures ParseEdge(kind, token) == (None, true)
  {
    FindIn(source, '|', target);
    var s := source + "|" + target;
    assert s[..|source|] == source && s[|source| + 1..] == target;
    NothingToSplit(token, ':');
    hide Split;
  }
}

/** The key=value list in the optional argument of a claim environment. */
module ClaimKeys {
  import opened Wrappers
  import opened Text

  /** Brace depth behind a character; a closing brace at depth 0 is ignored. */
  function Step(depth: nat, c: char): nat {
    if c == '{' then depth + 1 else if c == '}' && depth > 0 then depth - 1 else depth
  }

  /** The pieces between the commas at depth 0, read from the given depth on. */
  function Pieces(s: string, depth: nat): (ps: seq<string>)
    ensures |ps| >= 1
  {
    if s == "" then [""]
    else
      var d := Step(depth, s[0]);
      var ps := Pieces(s[1..], d);
      if s[0] == ',' && d == 0 then [""] + ps else [[s[0]] + ps[0]] + ps[1..]
  }

  method SplitDepth0(raw: string) returns (parts: seq<string>)
    ensures parts == Pieces(raw, 0)
  {
    parts := [];
    var cur := "";
    var depth: nat := 0;
    assert raw[0..] == raw;
    StartPieces(Pieces(raw, 0));
    for i := 0 to |raw|
      invariant Pieces(raw, 0) == Onto(parts, cur, Pieces(raw[i..], depth))
    {
      var ch := raw[i];
      assert raw[i..][0] == ch && raw[i..][1..] == raw[i + 1..];
      ghost var rest := Pieces(raw[i + 1..], Step(depth, ch));
      if ch == '{' {
        depth := depth + 1;
      } else if ch == '}' {
        depth := if depth > 0 then depth - 1 else 0;
      }
      if ch == ',' && depth == 0 {
        OntoComma(parts, cur, rest);
        parts := parts + [cur];
        cur := "";
      } else {
        OntoChar(parts, cur, ch, rest);
        cur := cur + [ch];
      }
    }
    assert cur + "" == cur;
    parts := parts + [cur];
  }

  /** Finished pieces, then an open one continued by the first of the remaining pieces, then the others. */
  function Onto(parts: seq<string>, cur: string, rest: seq<string>): seq<string>
    requires |rest| >= 1
  {
    parts + [cur + rest[0]] + rest[1..]
  }

  lemma StartPieces(ps: seq<string>)
    requires |ps| >= 1
    ensures Onto([], "", ps) == ps
  {
    assert "" + ps[0] == ps[0];
  }

  lemma OntoComma(parts: seq<string>, cur: string, rest: seq<string>)
    requires |rest| >= 1
    ensures Onto(parts, cur, [""] + rest) == Onto(parts + [cur], "", rest)
  {
    assert cur + "" == cur && "" + rest[0] == rest[0];
    assert ([""] + rest)[1..] == rest == [rest[0]] + rest[1..];
  }

  lemma OntoChar(parts: seq<string>, cur: string, ch: char, rest: seq<string>)
    requires |rest| >= 1
    ensures Onto(parts, cur, [[ch] + rest[0]] + rest[1..]) == Onto(parts, cur + [ch], rest)
  {
    assert cur + ([ch] + rest[0]) == cur + [ch] + rest[0];
    assert ([[ch] + rest[0]] + rest[1..])[1..] == rest[1..];
  }

  /** Reading s from the given depth on, no comma is met at depth 0. */
  predicate NoTopComma(s: string, depth: nat) {
    s == "" || (!(s[0] == ',' && depth == 0) && NoTopComma(s[1..], Step(depth, s[0])))
  }

  /** The pieces joined with commas are the input, and none of them holds a comma at depth 0. */
  lemma {:induction false} PiecesRejoin(s: string, depth: nat)
    ensures Join(Pieces(s, depth), ',') == s
    ensures NoTopComma(Pieces(s, depth)[0], depth)
    ensures forall i :: 1 <= i < |Pieces(s, depth)| ==> NoTopComma(Pieces(s, depth)[i], 0)
  {
    if s != "" {
      var d := Step(depth, s[0]);
      var ps := Pieces(s[1..], d);
      PiecesRejoin(s[1..], d);
      assert s == [s[0]] + s[1..];
      if s[0] == ',' && d == 0 {
        JoinCons("", ps, ',');
        assert Pieces(s, depth) == [""] + ps;
        assert "" + [','] + Join(ps, ',') == s;
      } else {
        JoinHead(s[0], ps, ',');
        var first := [s[0]] + ps[0];
        assert first[1..] == ps[0];
      }
    }
  }

  lemma JoinHead(c: char, ps: seq<string>, sep: char)
    requires |ps| >= 1
    ensures Join([[c] + ps[0]] + ps[1..], sep) == [c] + Join(ps, sep)
  {
    var qs := [[c] + ps[0]] + ps[1..];
    if |ps| > 1 {
      assert qs[1..] == ps[1..];
      assert [c] + ps[0] + [sep] + Join(ps[1..], sep) == [c] + (ps[0] + [sep] + Join(ps[1..], sep));
    }
  }

  /** The depth behind s, or None if a closing brace comes without an opening one. */
  function DepthAfter(s: string, depth: nat): Option<nat> {
    if s == "" then Some(depth)
    else if s[0] == '}' && depth == 0 then None
    else DepthAfter(s[1..], Step(depth, s[0]))
  }

  predicate Balanced(s: string) {
    DepthAfter(s, 0) == Some(0)
  }

  /** A text without a top-level comma stays in one piece with whatever follows it up to the next comma. */
  lemma {:induction false} PieceContinues(s: string, depth: nat, rest: string)
    requires NoTopComma(s, depth) && DepthAfter(s, depth).Some?
    ensures Pieces(s + rest, depth) == Onto([], s, Pieces(rest, DepthAfter(s, depth).value))
  {
    if s == "" {
      assert s + rest == rest;
      StartPieces(Pieces(rest, depth));
    } else {
      var d := Step(depth, s[0]);
      assert (s + rest)[1..] == s[1..] + rest;
      PieceContinues(s[1..], d, rest);
      var after := Pieces(rest, DepthAfter(s, depth).value);
      var ps := Pieces(s[1..] + rest, d);
      assert Pieces(s + rest, depth) == [[s[0]] + ps[0]] + ps[1..];
      hide *;
      PrependChar(s, after, ps);
    }
  }

  lemma PrependChar(s: string, after: seq<string>, ps: seq<string>)
    requires s != "" && |after| >= 1 && ps == Onto([], s[1..], after)
    ensures |ps| >= 1 && [[s[0]] + ps[0]] + ps[1..] == Onto([], s, after)
  {
    assert [s[0]] + (s[1..] + after[0]) == s + after[0];
    assert ps == [s[1..] + after[0]] + after[1..];
  }

  /** Texts that are balanced and hold no top-level comma come back as the pieces of their comma-joined list. */
  lemma {:induction false} PiecesOfJoin(ps: seq<string>)
    requires |ps| >= 1 && forall p :: p in ps ==> Balanced(p) && NoTopComma(p, 0)
    ensures Pieces(Join(ps, ','), 0) == ps
  {
    var p := ps[0];
    if |ps| == 1 {
      PieceContinues(p, 0, "");
      assert p + "" == p;
    } else {
      var rest := Join(ps[1..], ',');
      PiecesOfJoin(ps[1..]);
      PieceContinues(p, 0, [','] + rest);
      assert ([','] + rest)[1..] == rest;
      assert Pieces([','] + rest, 0) == [""] + Pieces(rest, 0);
      assert p + [','] + rest == p + ([','] + rest);
      assert p + "" == p;
      assert ([""] + Pieces(rest, 0))[1..] == Pieces(rest, 0);
    }
  }

  /** Is there an equals sign at depth 0? */
  predicate TopEquals(s: string, depth: nat) {
    s != "" && ((s[0] == '=' && depth == 0) || TopEquals(s[1..], Step(depth, s[0])))
  }

  method HasTopEquals(raw: string) returns (found: bool)
    ensures found == TopEquals(raw, 0)
  {
    found := false;
    var depth: nat := 0;
    assert raw[0..] == raw;
    for i := 0 to |raw|
      invariant !found && TopEquals(raw, 0) == TopEquals(raw[i..], depth)
    {
      var ch := raw[i];
      assert raw[i..][0] == ch && raw[i..][1..] == raw[i + 1..];
      if ch == '{' {
        depth := depth + 1;
      } else if ch == '}' {
        depth := if depth > 0 then depth - 1 else 0;
      } else if ch == '=' && depth == 0 {
        return true;
      }
    }
  }

  function StripBraces(value: string): string {
    var v := Trim(value);
    if |v| >= 1 && v[0] == '{' && v[|v| - 1] == '}' then Trim(v[1..|v| - 1]) else v
  }

  datatype Val = Text(text: string) | Items(items: seq<string>) | Number(number: real)

  datatype Error = NotKeyValue | UnknownKey | NotANumber | OutOfRange | BadClaimType | BadEvidenceType

  predicate IsListKey(k: string) {
    k == "labels" || k == "models" || k == "datasets" || k == "regimes" || k == "assumptions"
  }

  predicate IsFloatKey(k: string) {
    k == "confidence" || k == "confidence-low" || k == "confidence-high"
  }

  predicate IsTextKey(k: string) {
    k == "title" || k == "type" || k == "evidence" || k == "rationale"
  }

  predicate IsClaimType(t: string) {
    t == "empirical" || t == "theoretical" || t == "definitional" || t == "methodological" || t == "computational"
  }

  predicate IsEvidenceType(t: string) {
    t == "proof" || t == "experiment" || t == "simulation" || t == "observation" || t == "argument"
    || t == "definition" || t == "convention"
  }

  /** Reading and printing numbers, which this model does not look into. */
  datatype Floats = Floats(parse: string -> Option<real>, show: real -> string)

  function NonEmptyTrimmed(ps: seq<string>): seq<string> {
    if ps == [] then []
    else NonEmptyTrimmed(ps[..|ps| - 1]) + if Trim(ps[|ps| - 1]) != "" then [Trim(ps[|ps| - 1])] else []
  }

  function ParseValue(fl: Floats, key: string, value: string): Result<Val, Error> {
    if IsFloatKey(key) then
      match fl.parse(value)
      case None => Err(NotANumber)
      case Some(n) => if 0.0 <= n <= 1.0 then Ok(Number(n)) else Err(OutOfRange)
    else if IsListKey(key) then Ok(Items(NonEmptyTrimmed(Pieces(value, 0))))
    else Ok(Text(value))
  }

  type Keys = map<string, Val>

  function AddPart(fl: Floats, out: Keys, part: string): Result<Keys, Error> {
    var p := Trim(part);
    if p == "" then Ok(out)
    else
      match Find(p, '=')
      case None => Err(NotKeyValue)
      case Some(i) =>
        var key := Trim(p[..i]);
        if !(IsTextKey(key) || IsListKey(key) || IsFloatKey(key)) then Err(UnknownKey)
        else
          match ParseValue(fl, key, StripBraces(p[i + 1..]))
          case Err(e) => Err(e)
          case Ok(v) => Ok(out[key := v])
  }

  function AddParts(fl: Floats, parts: seq<string>): Result<Keys, Error> {
    if parts == [] then Ok(map[])
    else
      match AddParts(fl, parts[..|parts| - 1])
      case Err(e) => Err(e)
      case Ok(out) => AddPart(fl, out, parts[|parts| - 1])
  }

  function CheckTypes(out: Keys): Result<Keys, Error> {
    if "type" in out && !(out["type"].Text? && IsClaimType(out["type"].text)) then Err(BadClaimType)
    else if "evidence" in out && !(out["evidence"].Text? && IsEvidenceType(out["evidence"].text)) then Err(BadEvidenceType)
    else Ok(out)
  }

  /** None for an absent argument or a plain title; otherwise the parsed keys or the error that fails the parse. */
  function ParsedKeys(fl: Floats, raw: Option<string>): Result<Option<Keys>, Error> {
    if raw.None? || raw.value == "" || !TopEquals(raw.value, 0) then Ok(None)
    else
      match AddParts(fl, Pieces(raw.value, 0))
      case Err(e) => Err(e)
      case Ok(out) =>
        match CheckTypes(out)
        case Err(e) => Err(e)
        case Ok(checked) => Ok(Some(checked))
  }

  method ParseClaimKeys(fl: Floats, raw: Option<string>) returns (r: Result<Option<Keys>, Error>)
    ensures r == ParsedKeys(fl, raw)
  {
    if raw.None? || raw.value == "" {
      return Ok(None);
    }
    var hasEq := HasTopEquals(raw.value);
    if !hasEq {
      return Ok(None);
    }
    var parts := SplitDepth0(raw.value);
    var out: Keys := map[];
    for i := 0 to |parts|
      invariant AddParts(fl, parts[..i]) == Ok(out)
    {
      assert parts[..i + 1][..i] == parts[..i];
      match AddPart(fl, out, parts[i]) {
        case Err(e) =>
          FirstErrorStays(fl, parts, i + 1);
          return Err(e);
        case Ok(next) => out := next;
      }
    }
    assert parts[..|parts|] == parts;
    match CheckTypes(out) {
      case Err(e) => return Err(e);
      case Ok(checked) => return Ok(Some(checked));
    }
  }

  lemma {:induction false} FirstErrorStays(fl: Floats, parts: seq<string>, k: nat)
    requires k <= |parts| && AddParts(fl, parts[..k]).Err?
    ensures AddParts(fl, parts) == AddParts(fl, parts[..k])
    decreases |parts| - k
  {
    if k == |parts| {
      assert parts[..k] == parts;
    } else {
      assert parts[..k + 1][..k] == parts[..k];
      FirstErrorStays(fl, parts, k + 1);
    }
  }

  /** Entries as an author writes them: a known key and a balanced, trimmed value. */
  predicate PrintableEntry(e: (string, string)) {
    (IsTextKey(e.0) || IsListKey(e.0) || IsFloatKey(e.0)) && Balanced(e.1) && Trimmed(e.1)
  }

  function EntryText(e: (string, string)): string {
    e.0 + "={" + e.1 + "}"
  }

  function EntryTexts(es: seq<(string, string)>): (r: seq<string>)
    ensures |r| == |es|
  {
    seq(|es|, i requires 0 <= i < |es| => EntryText(es[i]))
  }

  /** What a list of entries means: each value interpreted for its key, later entries winning, the first bad
      value failing the whole list. */
  function Meaning(fl: Floats, es: seq<(string, string)>): Result<Keys, Error> {
    if es == [] then Ok(map[])
    else
      match Meaning(fl, es[..|es| - 1])
      case Err(x) => Err(x)
      case Ok(out) =>
        match ParseValue(fl, es[|es| - 1].0, es[|es| - 1].1)
        case Err(x) => Err(x)
        case Ok(v) => Ok(out[es[|es| - 1].0 := v])
  }

  predicate NoBraces(s: string) {
    '{' !in s && '}' !in s
  }

  lemma {:induction false} PlainText(s: string, depth: nat)
    requires NoBraces(s) && ',' !in s
    ensures DepthAfter(s, depth) == Some(depth) && NoTopComma(s, depth)
  {
    if s != "" {
      PlainText(s[1..], depth);
    }
  }

  lemma {:induction false} OneDeeper(s: string, depth: nat)
    requires DepthAfter(s, depth).Some?
    ensures DepthAfter(s, depth + 1) == Some(DepthAfter(s, depth).value + 1) && NoTopComma(s, depth + 1)
  {
    if s != "" {
      OneDeeper(s[1..], Step(depth, s[0]));
    }
  }

  lemma {:induction false} DepthOfConcat(s: string, t: string, depth: nat)
    requires DepthAfter(s, depth).Some?
    ensures DepthAfter(s + t, depth) == DepthAfter(t, DepthAfter(s, depth).value)
    ensures NoTopComma(s + t, depth) <==> NoTopComma(s, depth) && NoTopComma(t, DepthAfter(s, depth).value)
  {
    if s == "" {
      assert s + t == t;
    } else {
      assert (s + t)[1..] == s[1..] + t;
      DepthOfConcat(s[1..], t, Step(depth, s[0]));
    }
  }

  lemma {:induction false} EqualsOfConcat(s: string, t: string, depth: nat)
    requires DepthAfter(s, depth).Some?
    ensures TopEquals(s + t, depth) == (TopEquals(s, depth) || TopEquals(t, DepthAfter(s, depth).value))
  {
    if s == "" {
      assert s + t == t;
    } else {
      assert (s + t)[1..] == s[1..] + t;
      EqualsOfConcat(s[1..], t, Step(depth, s[0]));
    }
  }

  predicate PlainKey(k: string) {
    NoBraces(k) && ',' !in k && '=' !in k && Trimmed(k) && k != "" && !IsSpace(k[0])
  }

  lemma KnownKeysArePlain(k: string)
    requires IsTextKey(k) || IsListKey(k) || IsFloatKey(k)
    ensures PlainKey(k)
  {
    if IsTextKey(k) {
      TextKeysArePlain(k);
    } else if IsListKey(k) {
      ListKeysArePlain(k);
    }
  }

  lemma TextKeysArePlain(k: string)
    requires IsTextKey(k)
    ensures PlainKey(k)
  {
  }

  lemma ListKeysArePlain(k: string)
    requires IsListKey(k)
    ensures PlainKey(k)
  {
  }

  /** A braced value opens at depth 0, stays below it, and closes at depth 0. */
  lemma BracedValue(value: string)
    requires Balanced(value)
    ensures Balanced("{" + value + "}") && NoTopComma("{" + value + "}", 0)
  {
    var s := "{" + value + "}";
    OneDeeper(value, 0);
    assert s[1..] == value + "}";
    DepthOfConcat(value, "}", 1);
    assert DepthAfter("}", 1) == Some(0) by {
      assert "}"[1..] == "";
    }
    assert NoTopComma("}", 1) by {
      assert "}"[1..] == "";
    }
  }

  lemma EntryTextShape(e: (string, string))
    requires PrintableEntry(e)
    ensures Balanced(EntryText(e)) && NoTopComma(EntryText(e), 0) && TopEquals(EntryText(e), 0)
  {
    var k, braced := e.0, "{" + e.1 + "}";
    KnownKeysArePlain(k);
    PlainText(k, 0);
    BracedValue(e.1);
    assert EntryText(e) == k + ("=" + braced);
    assert ("=" + braced)[1..] == braced;
    DepthOfConcat(k, "=" + braced, 0);
    EqualsOfConcat(k, "=" + braced, 0);
  }

  lemma StripOneBrace(value: string)
    requires Trimmed(value)
    ensures StripBraces("{" + value + "}") == value
  {
    var v := "{" + value + "}";
    TrimKeeps(v);
    assert v[1..|v| - 1] == value;
    TrimKeeps(value);
  }

  lemma AddPrintedEntry(fl: Floats, out: Keys, e: (string, string))
    requires PrintableEntry(e)
    ensures AddPart(fl, out, EntryText(e)) == match ParseValue(fl, e.0, e.1)
                                              case Err(x) => Err(x)
                                              case Ok(v) => Ok(out[e.0 := v])
  {
    hide ParseValue, StripBraces, Balanced;
    var k, braced := e.0, "{" + e.1 + "}";
    var p := EntryText(e);
    KnownKeysArePlain(k);
    assert p == k + ['='] + braced;
    assert p[0] == k[0] && p[|p| - 1] == '}';
    TrimKeeps(p);
    FindIn(k, '=', braced);
    assert p[..|k|] == k && p[|k| + 1..] == braced;
    TrimKeeps(k);
    StripOneBrace(e.1);
    hide Trim, IsTextKey, IsListKey, IsFloatKey, Find;
  }

  lemma {:induction false} AddPrintedEntries(fl: Floats, es: seq<(string, string)>)
    requires forall e :: e in es ==> PrintableEntry(e)
    ensures AddParts(fl, EntryTexts(es)) == Meaning(fl, es)
  {
    if es != [] {
      var front, e := es[..|es| - 1], es[|es| - 1];
      assert EntryTexts(es)[..|es| - 1] == EntryTexts(front);
      AddPrintedEntries(fl, front);
      hide AddPart, ParseValue;
      match Meaning(fl, front)
      case Err(_) =>
      case Ok(out) => AddPrintedEntry(fl, out, e);
    }
  }

  /** Parsing a printed key list gives back what its entries mean, and fails exactly when they do. */
  lemma PrintedListParses(fl: Floats, es: seq<(string, string)>)
    requires |es| >= 1 && forall e :: e in es ==> PrintableEntry(e)
    ensures ParsedKeys(fl, Some(Join(EntryTexts(es), ',')))
         == match Meaning(fl, es)
            case Err(x) => Err(x)
            case Ok(out) => (match CheckTypes(out) case Err(x) => Err(x) case Ok(checked) => Ok(Some(checked)))
  {
    hide CheckTypes, Meaning, AddParts, EntryText;
    var texts := EntryTexts(es);
    forall t | t in texts ensures Balanced(t) && NoTopComma(t, 0) && TopEquals(t, 0) {
      var i :| 0 <= i < |es| && texts[i] == t;
      assert es[i] in es;
      EntryTextShape(es[i]);
    }
    PiecesOfJoin(texts);
    AddPrintedEntries(fl, es);
    ListHasEquals(texts);
  }

  lemma ListHasEquals(texts: seq<string>)
    requires |texts| >= 1 && Balanced(texts[0]) && TopEquals(texts[0], 0)
    ensures Join(texts, ',') != "" && TopEquals(Join(texts, ','), 0)
  {
    if |texts| > 1 {
      var rest := [','] + Join(texts[1..], ',');
      assert Join(texts, ',') == texts[0] + rest;
      EqualsOfConcat(texts[0], rest, 0);
    }
  }

  /** A list value: items that are balanced, trimmed, not empty and free of top-level commas. */
  predicate PrintableItems(items: seq<string>) {
    forall i :: 0 <= i < |items| ==>
      items[i] != "" && Trimmed(items[i]) && Balanced(items[i]) && NoTopComma(items[i], 0)
  }

  function PrintItems(items: seq<string>): string {
    if items == [] then "" else Join(items, ',')
  }

  lemma {:induction false} TrimmedItemsStay(items: seq<string>)
    requires PrintableItems(items)
    ensures NonEmptyTrimmed(items) == items
  {
    if items != [] {
      TrimmedItemsStay(items[..|items| - 1]);
      TrimKeeps(items[|items| - 1]);
      hide Trim, Balanced;
    }
  }

  lemma {:induction false} ItemsBalanced(items: seq<string>)
    requires |items| >= 1 && PrintableItems(items)
    ensures Balanced(Join(items, ',')) && Trimmed(Join(items, ','))
    ensures Join(items, ',') != "" && items[0] != "" && Join(items, ',')[0] == items[0][0]
  {
    assert items[0] != "" && Balanced(items[0]);
    if |items| > 1 {
      ItemsBalanced(items[1..]);
      var rest := Join(items[1..], ',');
      assert Join(items, ',') == items[0] + ([','] + rest);
      DepthOfConcat(items[0], [','] + rest, 0);
      assert ([','] + rest)[1..] == rest;
      assert Join(items, ',')[|Join(items, ',')| - 1] == rest[|rest| - 1];
    }
  }

  /** The printed form of a list is a legal entry value and is read back as the same list. */
  lemma ListValueRoundTrip(fl: Floats, key: string, items: seq<string>)
    requires IsListKey(key) && PrintableItems(items)
    ensures PrintableEntry((key, PrintItems(items)))
    ensures ParseValue(fl, key, PrintItems(items)) == Ok(Items(items))
  {
    assert !IsFloatKey(key);
    if items == [] {
      assert Pieces("", 0) == [""];
      assert NonEmptyTrimmed([""]) == [];
    } else {
      ItemsBalanced(items);
      forall t | t in items ensures Balanced(t) && NoTopComma(t, 0) {
        var i :| 0 <= i < |items| && items[i] == t;
      }
      PiecesOfJoin(items);
      TrimmedItemsStay(items);
    }
  }

  // Entries as values

  /** The number prints as a numeral that reads back as the same number and needs no care in a list. */
  predicate PrintableNumber(fl: Floats, n: real) {
    0.0 <= n <= 1.0 && fl.parse(fl.show(n)) == Some(n) && Balanced(fl.show(n)) && Trimmed(fl.show(n))
  }

  /** A key with a value of its kind that can be printed. */
  predicate PrintableValue(fl: Floats, e: (string, Val)) {
    match e.1
    case Text(t) =>
      && IsTextKey(e.0) && Balanced(t) && Trimmed(t)
      && (e.0 == "type" ==> IsClaimType(t)) && (e.0 == "evidence" ==> IsEvidenceType(t))
    case Items(items) => IsListKey(e.0) && PrintableItems(items)
    case Number(n) => IsFloatKey(e.0) && PrintableNumber(fl, n)
  }

  function PrintValue(fl: Floats, v: Val): string {
    match v
    case Text(t) => t
    case Items(items) => PrintItems(items)
    case Number(n) => fl.show(n)
  }

  function PrintValues(fl: Floats, es: seq<(string, Val)>): seq<(string, string)> {
    seq(|es|, i requires 0 <= i < |es| => (es[i].0, PrintValue(fl, es[i].1)))
  }

  /** The entries as a map, later ones winning. */
  function MapOf(es: seq<(string, Val)>): Keys {
    if es == [] then map[] else MapOf(es[..|es| - 1])[es[|es| - 1].0 := es[|es| - 1].1]
  }

  lemma ValueRoundTrip(fl: Floats, e: (string, Val))
    requires PrintableValue(fl, e)
    ensures PrintableEntry((e.0, PrintValue(fl, e.1))) && ParseValue(fl, e.0, PrintValue(fl, e.1)) == Ok(e.1)
  {
    match e.1
    case Text(t) => TextKeysAreNoOthers(e.0);
    case Items(items) => ListValueRoundTrip(fl, e.0, items);
    case Number(n) =>
  }

  lemma TextKeysAreNoOthers(k: string)
    requires IsTextKey(k)
    ensures !IsListKey(k) && !IsFloatKey(k)
  {
  }

  lemma {:induction false} MeaningOfValues(fl: Floats, es: seq<(string, Val)>)
    requires forall e :: e in es ==> PrintableValue(fl, e)
    ensures Meaning(fl, PrintValues(fl, es)) == Ok(MapOf(es))
  {
    hide PrintableValue, ParseValue, PrintValue;
    if es != [] {
      var front, e := es[..|es| - 1], es[|es| - 1];
      MeaningOfValues(fl, front);
      ValueRoundTrip(fl, e);
      var printed := PrintValues(fl, es);
      assert printed[..|printed| - 1] == PrintValues(fl, front);
    }
  }

  lemma {:induction false} MapOfIsTyped(fl: Floats, es: seq<(string, Val)>)
    requires forall e :: e in es ==> PrintableValue(fl, e)
    ensures forall k :: k in MapOf(es) ==> PrintableValue(fl, (k, MapOf(es)[k]))
  {
    hide PrintableValue;
    if es != [] {
      var front, e := es[..|es| - 1], es[|es| - 1];
      MapOfIsTyped(fl, front);
      assert e == (e.0, e.1) && e in es;
    }
  }

  lemma TypesPass(fl: Floats, m: Keys)
    requires forall k :: k in m ==> PrintableValue(fl, (k, m[k]))
    ensures CheckTypes(m) == Ok(m)
  {
    assert "type" in m ==> PrintableValue(fl, ("type", m["type"]));
    assert "evidence" in m ==> PrintableValue(fl, ("evidence", m["evidence"]));
  }

  /** Parsing the printed form of a list of keys with values gives back exactly these values. */
  lemma ValuesRoundTrip(fl: Floats, es: seq<(string, Val)>)
    requires |es| >= 1 && forall e :: e in es ==> PrintableValue(fl, e)
    ensures ParsedKeys(fl, Some(Join(EntryTexts(PrintValues(fl, es)), ','))) == Ok(Some(MapOf(es)))
  {
    var printed := PrintValues(fl, es);
    forall p | p in printed ensures PrintableEntry(p) {
      var i :| 0 <= i < |es| && printed[i] == p;
      assert es[i] in es;
      ValueRoundTrip(fl, es[i]);
    }
    hide *;
    assert |printed| >= 1;
    PrintedListParses(fl, printed);
    MeaningOfValues(fl, es);
    MapOfIsTyped(fl, es);
    TypesPass(fl, MapOf(es));
  }

  // Every entry, spelled out

  /** A value in braces loses them, with white space on both sides of each; any other value is trimmed. */
  lemma StripBracesMeans(v: string, value: string, w: string)
    requires Blank(v) && Blank(w)
    ensures StripBraces(v + "{" + value + "}" + w) == Trim(value)
    ensures Trimmed(value) && (value == "" || value[0] != '{' || value[|value| - 1] != '}') ==> StripBraces(v + value + w) == value
  {
    var braced := "{" + value + "}";
    assert v + "{" + value + "}" + w == v + braced + w;
    TrimIsUnique(v, braced, w);
    assert braced[1..|braced| - 1] == value;
    if Trimmed(value) {
      TrimIsUnique(v, value, w);
    }
  }

  /** What an entry of a key list does: white space alone nothing; without an equals sign, or with an unknown key before
      the first one, it fails the list; otherwise what is behind it is the value of the key. */
  lemma AddPartMeans(fl: Floats, out: Keys, v: string, a: string, b: string, w: string)
    requires Blank(v) && Blank(w)
    ensures AddPart(fl, out, v) == Ok(out)
    ensures '=' !in a && Trimmed(a) && a != "" ==> AddPart(fl, out, v + a + w) == Err(NotKeyValue)
    ensures '=' !in a && Trimmed(a + "=" + b) ==>
              AddPart(fl, out, v + (a + "=" + b) + w)
              == if Trim(a) !in {"title", "type", "evidence", "rationale", "labels", "models", "datasets", "regimes",
                                 "assumptions", "confidence", "confidence-low", "confidence-high"} then Err(UnknownKey)
                 else match ParseValue(fl, Trim(a), StripBraces(b))
                      case Err(e) => Err(e)
                      case Ok(x) => Ok(out[Trim(a) := x])
  {
    BlankTrimsToNothing(v);
    if '=' !in a && Trimmed(a) && a != "" {
      TrimIsUnique(v, a, w);
    }
    if '=' !in a && Trimmed(a + "=" + b) {
      var p := a + "=" + b;
      TrimIsUnique(v, p, w);
      FindIn(a, '=', b);
      assert p[..|a|] == a && p[|a| + 1..] == b;
      hide Trim, StripBraces, ParseValue;
      KnownKeysMean(Trim(a));
      hide IsTextKey, IsListKey, IsFloatKey;
    }
  }

  lemma KnownKeysMean(k: string)
    ensures IsTextKey(k) || IsListKey(k) || IsFloatKey(k) <==>
      k in {"title", "type", "evidence", "rationale", "labels", "models", "datasets", "regimes", "assumptions",
            "confidence", "confidence-low", "confidence-high"}
  {
  }

  /** Numbers from 0 to 1 for the three confidences, lists for the five keys that take them, texts for the others. */
  lemma ParseValueMeans(fl: Floats, key: string, value: string)
    ensures key in {"confidence", "confidence-low", "confidence-high"} ==>
              ParseValue(fl, key, value) == match fl.parse(value)
                                            case None => Err(NotANumber)
                                            case Some(n) => if n < 0.0 || n > 1.0 then Err(OutOfRange) else Ok(Number(n))
    ensures key in {"labels", "models", "datasets", "regimes", "assumptions"} ==>
              ParseValue(fl, key, value) == Ok(Items(NonEmptyTrimmed(Pieces(value, 0))))
    ensures key in {"title", "type", "evidence", "rationale"} ==> ParseValue(fl, key, value) == Ok(Text(value))
  {
  }

  /** Items are trimmed, and empty ones are left out. */
  lemma {:induction false} NonEmptyTrimmedMeans(ps: seq<string>, qs: seq<string>)
    ensures NonEmptyTrimmed([]) == []
    ensures |ps| == 1 ==> NonEmptyTrimmed(ps) == if Blank(ps[0]) then [] else [Trim(ps[0])]
    ensures NonEmptyTrimmed(ps + qs) == NonEmptyTrimmed(ps) + NonEmptyTrimmed(qs)
    decreases |qs|
  {
    if |ps| == 1 {
      BlankTrimsToNothing(ps[0]);
      assert ps[..0] == [];
    }
    if qs == [] {
      assert ps + qs == ps;
    } else {
      var front := qs[..|qs| - 1];
      assert (ps + qs)[..|ps + qs| - 1] == ps + front;
      NonEmptyTrimmedMeans(ps, front);
      hide Trim, Blank;
    }
  }

  /** A type or kind of evidence has to be one of those the schema knows. */
  lemma CheckTypesMeans(out: Keys)
    ensures CheckTypes(out) == Err(BadClaimType) <==>
      "type" in out && out["type"] !in {Text("empirical"), Text("theoretical"), Text("definitional"),
                                        Text("methodological"), Text("computational")}
    ensures CheckTypes(out) == Ok(out) <==>
      && ("type" in out ==> out["type"] in {Text("empirical"), Text("theoretical"), Text("definitional"),
                                            Text("methodological"), Text("computational")})
      && ("evidence" in out ==> out["evidence"] in {Text("proof"), Text("experiment"), Text("simulation"),
                                                    Text("observation"), Text("argument"), Text("definition"),
                                                    Text("convention")})
    ensures CheckTypes(out) == Ok(out) || CheckTypes(out) == Err(BadClaimType) || CheckTypes(out) == Err(BadEvidenceType)
  {
  }

  /** The depth behind a text; a closing brace too many changes nothing. */
  function DepthBehind(s: string, depth: nat): nat {
    if s == "" then depth
    else DepthBehind(s[1..], if s[0] == '{' then depth + 1 else if s[0] == '}' && depth > 0 then depth - 1 else depth)
  }

  lemma {:induction false} TopEqualsMeans(s: string, depth: nat)
    ensures TopEquals(s, depth) <==> exists a, b :: s == a + "=" + b && DepthBehind(a, depth) == 0
  {
    if s != "" {
      TopEqualsMeans(s[1..], Step(depth, s[0]));
      if a, b :| s[1..] == a + "=" + b && DepthBehind(a, Step(depth, s[0])) == 0 {
        var a' := [s[0]] + a;
        assert s == a' + "=" + b && a'[1..] == a;
        assert DepthBehind(a', depth) == 0;
      }
      if s[0] == '=' && depth == 0 {
        assert s == "" + "=" + s[1..];
        assert DepthBehind("", depth) == 0;
      }
      if a, b :| s == a + "=" + b && DepthBehind(a, depth) == 0 {
        if a != "" {
          assert s[1..] == a[1..] + "=" + b && a[0] == s[0];
        }
      }
    }
  }

  /** An argument is no key list if it is absent or has no equals sign outside braces; a plain title stays a title. */
  lemma ParsedKeysNoneIff(fl: Floats, raw: Option<string>)
    ensures ParsedKeys(fl, raw) == Ok(None) <==>
      raw.None? || forall a, b :: raw.value == a + "=" + b ==> DepthBehind(a, 0) > 0
  {
    if raw.Some? {
      TopEqualsMeans(raw.value, 0);
    }
    hide AddParts, CheckTypes, TopEquals, DepthBehind, Pieces;
  }
}

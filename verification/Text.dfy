/** Strings as the parser sees them: lines, white space, trimming, splitting at a character. */
module Text {
  import opened Wrappers

  predicate IsSpace(c: char) {
    c == ' ' || '\t' <= c <= '\r' || '\U{1c}' <= c <= '\U{1f}'
  }

  function TrimLeft(s: string): string {
    if s != "" && IsSpace(s[0]) then TrimLeft(s[1..]) else s
  }

  function TrimRight(s: string): string {
    if s != "" && IsSpace(s[|s| - 1]) then TrimRight(s[..|s| - 1]) else s
  }

  function Trim(s: string): string {
    TrimRight(TrimLeft(s))
  }

  /** White space only: blanks, tabs, line breaks and the other ASCII characters that count as space. */
  ghost predicate Blank(s: string) {
    forall c :: c in s ==> c in " \t\n\U{0b}\U{0c}\r\U{1c}\U{1d}\U{1e}\U{1f}"
  }

  lemma SpaceIsBlank(c: char)
    ensures IsSpace(c) <==> Blank([c])
  {
    assert c in [c];
  }

  lemma BlankConcat(s: string, t: string)
    ensures Blank(s + t) <==> Blank(s) && Blank(t)
  {
    assert forall c :: c in s + t <==> c in s || c in t;
  }

  lemma {:induction false} TrimLeftMeans(s: string) returns (w: string)
    ensures Blank(w) && s == w + TrimLeft(s)
    ensures TrimLeft(s) == "" || !IsSpace(TrimLeft(s)[0])
  {
    w := "";
    if s != "" && IsSpace(s[0]) {
      var v := TrimLeftMeans(s[1..]);
      SpaceIsBlank(s[0]);
      BlankConcat([s[0]], v);
      w := [s[0]] + v;
    }
  }

  lemma {:induction false} TrimRightMeans(s: string) returns (w: string)
    ensures Blank(w) && s == TrimRight(s) + w
    ensures TrimRight(s) == "" || !IsSpace(TrimRight(s)[|TrimRight(s)| - 1])
  {
    w := "";
    if s != "" && IsSpace(s[|s| - 1]) {
      var v := TrimRightMeans(s[..|s| - 1]);
      SpaceIsBlank(s[|s| - 1]);
      BlankConcat(v, [s[|s| - 1]]);
      w := v + [s[|s| - 1]];
    }
  }

  /** Trimming takes white space away at both ends and nothing else. */
  lemma TrimMeans(s: string) returns (v: string, w: string)
    ensures Blank(v) && Blank(w) && s == v + Trim(s) + w && Trimmed(Trim(s))
  {
    v := TrimLeftMeans(s);
    w := TrimRightMeans(TrimLeft(s));
    hide TrimLeft, TrimRight, Blank;
    assert s == v + (Trim(s) + w);
    if Trim(s) != "" {
      assert TrimLeft(s)[0] == Trim(s)[0];
    }
  }

  /** Text that starts with x behind white space. */
  lemma {:induction false} StartsBehindBlank(s: string, x: string)
    requires x != "" && !IsSpace(x[0])
    ensures x <= TrimLeft(s) <==> exists w, rest :: Blank(w) && s == w + x + rest
  {
    if x <= TrimLeft(s) {
      var w := TrimLeftMeans(s);
      assert s == w + x + TrimLeft(s)[|x|..];
    }
    if w, rest :| Blank(w) && s == w + x + rest {
      TrimBlank(w, x + rest);
      assert s == w + (x + rest);
    }
  }

  lemma {:induction false} TrimBlank(w: string, s: string)
    requires Blank(w) && s != "" && !IsSpace(s[0])
    ensures TrimLeft(w + s) == s
  {
    if w == "" {
      assert w + s == s;
    } else {
      SpaceIsBlank(w[0]);
      assert w[0] in w;
      assert (w + s)[1..] == w[1..] + s;
      assert forall c :: c in w[1..] ==> c in w;
      TrimBlank(w[1..], s);
    }
  }

  lemma {:induction false} TrimRightBlank(s: string, w: string)
    requires Blank(w) && s != "" && !IsSpace(s[|s| - 1])
    ensures TrimRight(s + w) == s
  {
    if w == "" {
      assert s + w == s;
    } else {
      var v := w[..|w| - 1];
      assert w == v + [w[|w| - 1]];
      BlankConcat(v, [w[|w| - 1]]);
      SpaceIsBlank(w[|w| - 1]);
      assert (s + w)[..|s + w| - 1] == s + v;
      TrimRightBlank(s, v);
    }
  }

  lemma {:induction false} BlankTrimsToNothing(s: string)
    ensures Trim(s) == "" <==> Blank(s)
  {
    var v, w := TrimMeans(s);
    if Trim(s) == "" {
      assert s == v + w;
      BlankConcat(v, w);
    } else {
      var t := Trim(s);
      SpaceIsBlank(t[0]);
      assert s[|v|] == t[0] && s[|v|] in s;
      assert t[0] in [t[0]];
    }
  }

  /** There is only one way to trim. */
  lemma TrimIsUnique(v: string, t: string, w: string)
    requires Blank(v) && Blank(w) && Trimmed(t)
    ensures Trim(v + t + w) == t
  {
    if t == "" {
      BlankConcat(v, w);
      assert v + t + w == v + w;
      BlankTrimsToNothing(v + w);
    } else {
      assert v + t + w == v + (t + w);
      TrimBlank(v, t + w);
      TrimRightBlank(t, w);
    }
  }

  /** Nothing to trim at either end. */
  predicate Trimmed(s: string) {
    s == "" || (!IsSpace(s[0]) && !IsSpace(s[|s| - 1]))
  }

  /** Lower case of ASCII letters. */
  function LowerChar(c: char): char {
    if 'A' <= c <= 'Z' then (c as int + 32) as char else c
  }

  function Lower(s: string): string {
    seq(|s|, i requires 0 <= i < |s| => LowerChar(s[i]))
  }

  /** Capital letters go to the small letter of their place in the alphabet, everything else stays. */
  lemma LowerMeans(s: string, i: nat, k: nat)
    requires i < |s| && k < 26
    ensures |Lower(s)| == |s|
    ensures s[i] == "ABCDEFGHIJKLMNOPQRSTUVWXYZ"[k] ==> Lower(s)[i] == "abcdefghijklmnopqrstuvwxyz"[k]
    ensures !('A' <= s[i] <= 'Z') ==> Lower(s)[i] == s[i]
  {
    assert "ABCDEFGHIJKLMNOPQRSTUVWXYZ"[k] == 'A' + k as char;
    assert "abcdefghijklmnopqrstuvwxyz"[k] == 'a' + k as char;
  }

  function Newlines(t: string): nat {
    if t == "" then 0 else (if t[0] == '\n' then 1 else 0) + Newlines(t[1..])
  }

  lemma {:induction false} NewlinesConcat(s: string, t: string)
    ensures Newlines(s + t) == Newlines(s) + Newlines(t)
  {
    if s == "" {
      assert s + t == t;
    } else {
      assert (s + t)[1..] == s[1..] + t;
      NewlinesConcat(s[1..], t);
    }
  }

  lemma {:induction false} NoNewlines(s: string)
    requires '\n' !in s
    ensures Newlines(s) == 0
  {
    if s != "" {
      NoNewlines(s[1..]);
    }
  }

  /** The index of the first occurrence of c. */
  function Find(s: string, c: char): (i: Option<nat>)
    ensures i.Some? ==> i.value < |s| && s[i.value] == c && c !in s[..i.value]
    ensures i.None? <==> c !in s
  {
    if s == "" then None
    else if s[0] == c then Some(0)
    else match Find(s[1..], c)
      case None => None
      case Some(k) => Some(k + 1)
  }

  /** A text cut into lines at '\n'; a final line break does not open another line. */
  function Lines(t: string): seq<string>
    decreases |t|
  {
    if t == "" then []
    else match Find(t, '\n')
      case None => [t]
      case Some(i) => [t[..i]] + Lines(t[i + 1..])
  }

  function Unlines(ls: seq<string>): string {
    if ls == [] then "" else ls[0] + "\n" + Unlines(ls[1..])
  }

  lemma FindIn(s: string, c: char, t: string)
    requires c !in s
    ensures Find(s + [c] + t, c) == Some(|s|)
  {
    var u := s + [c] + t;
    assert u[|s|] == c && u[..|s|] == s;
  }

  lemma {:induction false} LinesOfUnlines(ls: seq<string>)
    requires forall l :: l in ls ==> '\n' !in l
    ensures Lines(Unlines(ls)) == ls
  {
    if ls != [] {
      var rest := Unlines(ls[1..]);
      assert Unlines(ls) == ls[0] + ['\n'] + rest;
      FindIn(ls[0], '\n', rest);
      assert Unlines(ls)[..|ls[0]|] == ls[0];
      assert Unlines(ls)[|ls[0]| + 1..] == rest;
      LinesOfUnlines(ls[1..]);
    }
  }

  /** Text behind the last line break is one more line. */
  lemma {:induction false} LinesOfOpenEnd(ls: seq<string>, last: string)
    requires (forall l :: l in ls ==> '\n' !in l) && '\n' !in last && last != ""
    ensures Lines(Unlines(ls) + last) == ls + [last]
  {
    if ls == [] {
      assert Unlines(ls) + last == last;
    } else {
      LinesOfOpenEnd(ls[1..], last);
      assert Unlines(ls) + last == ls[0] + ['\n'] + (Unlines(ls[1..]) + last);
      LinesStep(ls[0], Unlines(ls[1..]) + last);
    }
  }

  lemma {:induction false} NewlinesOfUnlines(ls: seq<string>)
    requires forall l :: l in ls ==> '\n' !in l
    ensures Newlines(Unlines(ls)) == |ls|
  {
    if ls != [] {
      NewlinesOfUnlines(ls[1..]);
      NoNewlines(ls[0]);
      NewlinesConcat(ls[0] + "\n", Unlines(ls[1..]));
      NewlinesConcat(ls[0], "\n");
      assert Newlines("\n") == 1 + Newlines("\n"[1..]);
    }
  }

  /** The pieces between the occurrences of c; there is always at least one. */
  function Split(s: string, c: char): (ps: seq<string>)
    ensures |ps| >= 1
    decreases |s|
  {
    match Find(s, c)
    case None => [s]
    case Some(i) => [s[..i]] + Split(s[i + 1..], c)
  }

  function Join(ps: seq<string>, c: char): string
    requires |ps| >= 1
  {
    if |ps| == 1 then ps[0] else ps[0] + [c] + Join(ps[1..], c)
  }

  lemma JoinCons(a: string, ps: seq<string>, c: char)
    requires |ps| >= 1
    ensures Join([a] + ps, c) == a + [c] + Join(ps, c)
  {
    assert ([a] + ps)[1..] == ps;
  }

  lemma {:induction false} JoinOfSplit(s: string, c: char)
    ensures Join(Split(s, c), c) == s
    decreases |s|
  {
    hide *;
    var i := Find(s, c);
    if i.Some? {
      var a, rest := s[..i.value], s[i.value + 1..];
      assert s == a + [c] + rest;
      SplitOff(a, c, rest);
      JoinOfSplit(rest, c);
      JoinCons(a, Split(rest, c), c);
    } else {
      NothingToSplit(s, c);
    }
  }

  lemma NothingToSplit(s: string, c: char)
    requires c !in s
    ensures Split(s, c) == [s] && Join([s], c) == s
  {
  }

  lemma SplitOff(a: string, c: char, rest: string)
    requires c !in a
    ensures Split(a + [c] + rest, c) == [a] + Split(rest, c)
  {
    FindIn(a, c, rest);
    assert (a + [c] + rest)[..|a|] == a && (a + [c] + rest)[|a| + 1..] == rest;
  }

  lemma {:induction false} SplitOfJoin(ps: seq<string>, c: char)
    requires |ps| >= 1 && forall p :: p in ps ==> c !in p
    ensures Split(Join(ps, c), c) == ps
  {
    if |ps| > 1 {
      SplitOff(ps[0], c, Join(ps[1..], c));
      SplitOfJoin(ps[1..], c);
    }
  }

  lemma {:induction false} JoinOfAppend(ps: seq<string>, qs: seq<string>, c: char)
    requires |ps| >= 1 && |qs| >= 1
    ensures Join(ps + qs, c) == Join(ps, c) + [c] + Join(qs, c)
  {
    if |ps| == 1 {
      assert (ps + qs)[1..] == qs;
    } else {
      assert (ps + qs)[1..] == ps[1..] + qs;
      JoinOfAppend(ps[1..], qs, c);
    }
  }

  /** No white space at the end. */
  predicate EndTrimmed(s: string) {
    s == "" || !IsSpace(s[|s| - 1])
  }

  lemma TrimKeeps(s: string)
    requires Trimmed(s)
    ensures Trim(s) == s
  {
  }

  lemma LinesStep(line: string, rest: string)
    requires '\n' !in line
    ensures Lines(line + ['\n'] + rest) == [line] + Lines(rest)
  {
    var t := line + ['\n'] + rest;
    FindIn(line, '\n', rest);
    hide Find;
    assert t[..|line|] == line && t[|line| + 1..] == rest;
  }

  /** Cutting a text behind a line break cuts its lines in the same place. */
  lemma {:induction false} LinesConcat(a: string, b: string)
    requires a == "" || a[|a| - 1] == '\n'
    ensures Lines(a + b) == Lines(a) + Lines(b)
    decreases |a|
  {
    if a == "" {
      assert a + b == b;
    } else {
      assert a[|a| - 1] in a;
      var i := Find(a, '\n').value;
      var head, rest := a[..i], a[i + 1..];
      assert a == head + ['\n'] + rest;
      LinesConcat(rest, b);
      LinesConcatStep(head, rest, b);
    }
  }

  lemma LinesConcatStep(line: string, rest: string, b: string)
    requires '\n' !in line && Lines(rest + b) == Lines(rest) + Lines(b)
    ensures Lines(line + ['\n'] + rest + b) == Lines(line + ['\n'] + rest) + Lines(b)
  {
    hide *;
    LinesStep(line, rest);
    LinesStep(line, rest + b);
    assert line + ['\n'] + rest + b == line + ['\n'] + (rest + b);
    assert [line] + Lines(rest) + Lines(b) == [line] + (Lines(rest) + Lines(b));
  }
}

/** Inlining the files a TeX source includes. */
module Includes {
  import opened Wrappers
  import opened Text

  // Finding the directives of a text

  /** A text is cut into include directives and the characters between them. */
  datatype Piece = Plain(c: char) | Directive(raw: string, argument: string)

  function SpaceRun(s: string): nat {
    if s != "" && IsSpace(s[0]) then 1 + SpaceRun(s[1..]) else 0
  }

  lemma {:induction false} SpaceRunBound(s: string)
    ensures SpaceRun(s) <= |s|
  {
    if s != "" {
      SpaceRunBound(s[1..]);
    }
  }

  /** The command name a text starts with. */
  function CommandLength(s: string): nat {
    if "\\input" <= s then 6 else if "\\include" <= s then 8 else 0
  }

  /** A braced argument with at least one character. */
  function BracedArgument(s: string): Option<nat> {
    if s == "" || s[0] != '{' then None
    else match Find(s[1..], '}')
      case None => None
      case Some(n) => if n == 0 then None else Some(n)
  }

  /** The directive a text starts with: command, white space, braced argument. */
  function DirectiveAt(s: string): (r: Option<Piece>)
    ensures r.Some? ==> r.value.Directive? && r.value.raw <= s && |r.value.raw| > 0
  {
    var k := CommandLength(s);
    if k == 0 then None
    else
      SpaceRunBound(s[k..]);
      var i := k + SpaceRun(s[k..]);
      match BracedArgument(s[i..])
      case None => None
      case Some(n) => Some(Directive(s[..i + n + 2], s[i + 1..i + 1 + n]))
  }

  function Pieces(s: string): seq<Piece>
    decreases |s|
  {
    if s == "" then []
    else match DirectiveAt(s)
      case None => [Plain(s[0])] + Pieces(s[1..])
      case Some(d) => [d] + Pieces(s[|d.raw|..])
  }

  function RawText(pieces: seq<Piece>): string {
    if pieces == [] then ""
    else (if pieces[0].Plain? then [pieces[0].c] else pieces[0].raw) + RawText(pieces[1..])
  }

  /** Cutting loses nothing: the pieces make up the text. */
  lemma {:induction false} PiecesMakeUpText(s: string)
    ensures RawText(Pieces(s)) == s
    decreases |s|
  {
    if s != "" {
      hide DirectiveAt;
      match DirectiveAt(s)
      case None => PiecesMakeUpText(s[1..]);
      case Some(d) => PiecesMakeUpText(s[|d.raw|..]);
    }
  }

  function Plains(s: string): seq<Piece> {
    seq(|s|, i requires 0 <= i < |s| => Plain(s[i]))
  }

  /** The first directive behind a stretch without backslashes is found, whatever follows it. */
  lemma {:induction false} DirectiveIsFound(before: string, command: string, gap: string, argument: string,
                                            rest: string)
    requires '\\' !in before && command in {"\\input", "\\include"}
    requires (forall i :: 0 <= i < |gap| ==> IsSpace(gap[i])) && argument != "" && '}' !in argument
    ensures var raw := command + gap + "{" + argument + "}";
            Pieces(before + raw + rest) == Plains(before) + [Directive(raw, argument)] + Pieces(rest)
  {
    var raw := command + gap + "{" + argument + "}";
    var s := before + raw + rest;
    hide *;
    if before == "" {
      assert s == raw + rest;
      NoPlains();
      DirectiveStarts(command, gap, argument, rest);
      DirectiveComesFirst(s, Directive(raw, argument));
      assert s[|raw|..] == rest;
    } else {
      assert s[0] == before[0] && before[0] in before;
      var s' := before[1..] + raw + rest;
      assert s[1..] == s';
      PlainComesFirst(s);
      DirectiveIsFound(before[1..], command, gap, argument, rest);
      PlainsStep(before);
      assert [Plain(before[0])] + (Plains(before[1..]) + [Directive(raw, argument)] + Pieces(rest))
          == [Plain(before[0])] + Plains(before[1..]) + [Directive(raw, argument)] + Pieces(rest);
    }
  }

  lemma DirectiveComesFirst(s: string, d: Piece)
    requires DirectiveAt(s) == Some(d)
    ensures Pieces(s) == [d] + Pieces(s[|d.raw|..])
  {
    hide DirectiveAt;
  }

  lemma PlainComesFirst(s: string)
    requires s != "" && s[0] != '\\'
    ensures Pieces(s) == [Plain(s[0])] + Pieces(s[1..])
  {
    assert CommandLength(s) == 0 by {
      assert "\\input"[0] == '\\' && "\\include"[0] == '\\';
    }
    assert DirectiveAt(s) == None;
    hide DirectiveAt, CommandLength;
  }

  lemma PlainsStep(s: string)
    requires s != ""
    ensures Plains(s) == [Plain(s[0])] + Plains(s[1..])
  {
  }

  lemma NoPlains()
    ensures Plains("") == []
  {
  }

  lemma DirectiveStarts(command: string, gap: string, argument: string, rest: string)
    requires command in {"\\input", "\\include"}
    requires (forall i :: 0 <= i < |gap| ==> IsSpace(gap[i])) && argument != "" && '}' !in argument
    ensures var raw := command + gap + "{" + argument + "}";
            DirectiveAt(raw + rest) == Some(Directive(raw, argument))
  {
    var tail := "{" + argument + "}" + rest;
    var raw := command + gap + "{" + argument + "}";
    var s := raw + rest;
    hide *;
    DirectiveSlices(command, gap, argument, rest);
    CommandStarts(command, gap + tail);
    SpaceRunOf(gap, tail);
    BracedArgumentStarts(argument, rest);
    DirectiveFrom(s, |command|, |gap|, |argument|);
  }

  /** A command, white space, and an argument in braces which is not empty and goes up to the first closing one. */
  ghost predicate IsDirective(s: string, raw: string, argument: string) {
    exists command, gap ::
      && command in {"\\input", "\\include"} && Blank(gap) && argument != "" && '}' !in argument
      && raw == command + gap + "{" + argument + "}" && raw <= s
  }

  /** Nothing else is taken for a directive. */
  lemma DirectiveAtMeans(s: string, raw: string, argument: string)
    ensures DirectiveAt(s) == Some(Directive(raw, argument)) <==> IsDirective(s, raw, argument)
  {
    if IsDirective(s, raw, argument) {
      var command, gap :|
        && command in {"\\input", "\\include"} && Blank(gap) && argument != "" && '}' !in argument
        && raw == command + gap + "{" + argument + "}" && raw <= s;
      forall i | 0 <= i < |gap| ensures IsSpace(gap[i]) {
        SpaceIsBlank(gap[i]);
      }
      DirectiveStarts(command, gap, argument, s[|raw|..]);
      assert s == raw + s[|raw|..];
    }
    if DirectiveAt(s) == Some(Directive(raw, argument)) {
      DirectiveHasShape(s);
    }
  }

  lemma DirectiveHasShape(s: string)
    requires DirectiveAt(s).Some?
    ensures IsDirective(s, DirectiveAt(s).value.raw, DirectiveAt(s).value.argument)
  {
    hide *;
    var k, m, n := DirectiveParts(s);
    SpaceRunIsBlank(s[k..]);
    BracedArgumentMeans(s[k + m..]);
    PartsMakeDirective(s, k, m, n);
  }

  lemma DirectiveParts(s: string) returns (k: nat, m: nat, n: nat)
    requires DirectiveAt(s).Some?
    ensures k <= |s| && s[..k] in {"\\input", "\\include"} && SpaceRun(s[k..]) == m && k + m <= |s|
    ensures BracedArgument(s[k + m..]) == Some(n) && k + m + n + 2 <= |s|
    ensures DirectiveAt(s) == Some(Directive(s[..k + m + n + 2], s[k + m + 1..k + m + 1 + n]))
  {
    hide *;
    CommandLengthMeans(s);
    k := CommandLength(s);
    SpaceRunBound(s[k..]);
    m := SpaceRun(s[k..]);
    DirectiveNeeds(s);
    n := BracedArgument(s[k + m..]).value;
    BracedArgumentMeans(s[k + m..]);
    assert |s[k + m..]| == |s| - k - m;
    DirectiveFrom(s, k, m, n);
  }

  lemma CommandLengthMeans(s: string)
    ensures CommandLength(s) <= |s|
    ensures CommandLength(s) > 0 ==> s[..CommandLength(s)] in {"\\input", "\\include"}
  {
    if "\\input" <= s {
      assert s[..6] == "\\input";
    } else if "\\include" <= s {
      assert s[..8] == "\\include";
    }
  }

  lemma DirectiveNeeds(s: string)
    requires DirectiveAt(s).Some? && CommandLength(s) <= |s| && SpaceRun(s[CommandLength(s)..]) <= |s| - CommandLength(s)
    ensures CommandLength(s) > 0
    ensures BracedArgument(s[CommandLength(s) + SpaceRun(s[CommandLength(s)..])..]).Some?
  {
    hide CommandLength, SpaceRun, BracedArgument;
  }

  lemma PartsMakeDirective(s: string, k: nat, m: nat, n: nat)
    requires 0 < n && k + m + n + 2 <= |s|
    requires s[..k] in {"\\input", "\\include"} && Blank(s[k..][..m]) && '}' !in s[k + m..][1..1 + n]
    requires s[k + m..][..n + 2] == "{" + s[k + m..][1..1 + n] + "}"
    ensures IsDirective(s, s[..k + m + n + 2], s[k + m + 1..k + m + 1 + n])
  {
    var command, gap, argument := s[..k], s[k..][..m], s[k + m..][1..1 + n];
    assert argument == s[k + m + 1..k + m + 1 + n];
    assert s[..k + m + n + 2] == command + gap + s[k + m..][..n + 2];
    assert s[..k + m + n + 2] == command + gap + "{" + argument + "}";
    hide Blank;
  }

  lemma {:induction false} SpaceRunIsBlank(s: string)
    ensures SpaceRun(s) <= |s| && Blank(s[..SpaceRun(s)])
  {
    if s != "" && IsSpace(s[0]) {
      SpaceRunIsBlank(s[1..]);
      SpaceIsBlank(s[0]);
      assert s[..SpaceRun(s)] == [s[0]] + s[1..][..SpaceRun(s[1..])];
      BlankConcat([s[0]], s[1..][..SpaceRun(s[1..])]);
    }
  }

  lemma BracedArgumentMeans(s: string)
    requires BracedArgument(s).Some?
    ensures var n := BracedArgument(s).value;
            n + 2 <= |s| && n > 0 && '}' !in s[1..1 + n] && s[..n + 2] == "{" + s[1..1 + n] + "}"
  {
    var n := BracedArgument(s).value;
    assert s[1..][..n] == s[1..1 + n] && s[1..][n] == s[n + 1];
  }

  lemma DirectiveFrom(s: string, k: nat, gap: nat, n: nat)
    requires 0 < k <= |s| && CommandLength(s) == k
    requires SpaceRun(s[k..]) == gap && k + gap <= |s| && BracedArgument(s[k + gap..]) == Some(n)
    requires k + gap + n + 2 <= |s|
    ensures DirectiveAt(s) == Some(Directive(s[..k + gap + n + 2], s[k + gap + 1..k + gap + 1 + n]))
  {
    hide Find, SpaceRun, CommandLength, BracedArgument;
  }

  lemma DirectiveSlices(command: string, gap: string, argument: string, rest: string)
    ensures var tail, raw := "{" + argument + "}" + rest, command + gap + "{" + argument + "}";
            var s, i := raw + rest, |command| + |gap|;
            && s == command + (gap + tail) && s[|command|..] == gap + tail && s[i..] == tail
            && |raw| == i + |argument| + 2 && |s| == |raw| + |rest| && s[..i + |argument| + 2] == raw
            && s[i + 1..i + 1 + |argument|] == argument
  {
  }

  lemma BracedArgumentStarts(argument: string, rest: string)
    requires argument != "" && '}' !in argument
    ensures BracedArgument("{" + argument + "}" + rest) == Some(|argument|)
  {
    var tail := "{" + argument + "}" + rest;
    FindIn(argument, '}', rest);
    assert tail[1..] == argument + ['}'] + rest;
  }

  lemma CommandStarts(command: string, rest: string)
    requires command in {"\\input", "\\include"}
    ensures CommandLength(command + rest) == |command|
  {
    if command == "\\include" {
      assert (command + rest)[3] == 'c' && "\\input"[3] == 'p';
    }
  }

  lemma {:induction false} SpaceRunOf(gap: string, tail: string)
    requires (forall i :: 0 <= i < |gap| ==> IsSpace(gap[i])) && tail != "" && tail[0] == '{'
    ensures SpaceRun(gap + tail) == |gap|
  {
    if gap == "" {
      assert gap + tail == tail;
    } else {
      assert (gap + tail)[1..] == gap[1..] + tail;
      SpaceRunOf(gap[1..], tail);
    }
  }

  // Expansion

  type Path = string

  /** What the file system answers: the text of a file, and the file an argument names when it occurs in a given
      file. Neither need have an answer. */
  datatype Files = Files(read: Path -> Option<string>, find: (Path, string) -> Option<Path>)

  /** The expanded source, with the markers the expansion writes kept apart from the text. */
  datatype Chunk = Literal(text: string) | Skipped(path: Path) | Unreadable(path: Path) | NotFound(target: string)

  const MAX_DEPTH: nat := 16

  predicate IsFigure(target: string) {
    "figures/" <= target || "fig/" <= target
  }

  /** The file a piece of p includes; None for plain text, figures, and targets that are not found. */
  function IncludedBy(fs: Files, p: Path, piece: Piece): Option<Path> {
    if piece.Plain? || IsFigure(Trim(piece.argument)) then None else fs.find(p, Trim(piece.argument))
  }

  /** What stands for a piece that includes no file. */
  function Leaf(piece: Piece): Chunk {
    if piece.Plain? then Literal([piece.c])
    else if IsFigure(Trim(piece.argument)) then Literal(piece.raw)
    else NotFound(Trim(piece.argument))
  }

  function Read(fs: Files, max: nat, p: Path, depth: nat, seen: set<Path>): seq<Chunk>
    requires depth <= max + 1
    decreases max + 1 - depth, 1, 0
  {
    if depth > max || p in seen then [Skipped(p)]
    else match fs.read(p)
      case None => [Unreadable(p)]
      case Some(text) => Expand(fs, max, p, depth, seen, Pieces(text))
  }

  function Expand(fs: Files, max: nat, p: Path, depth: nat, seen: set<Path>, pieces: seq<Piece>): seq<Chunk>
    requires depth <= max
    decreases max + 1 - depth, 0, |pieces|
  {
    if pieces == [] then []
    else
      var rest := Expand(fs, max, p, depth, seen, pieces[1..]);
      match IncludedBy(fs, p, pieces[0])
      case None => [Leaf(pieces[0])] + rest
      case Some(q) => Read(fs, max, q, depth + 1, seen + {p}) + rest
  }

  function Show(c: Chunk, name: Path -> string): string {
    match c
    case Literal(text) => text
    case Skipped(p) => "% rrxiv-parser: skipped " + name(p) + " (cycle or depth>16)\n"
    case Unreadable(p) => "% rrxiv-parser: missing " + name(p) + "\n"
    case NotFound(target) => "% rrxiv-parser: missing \\input{" + target + "}\n"
  }

  function Render(chunks: seq<Chunk>, name: Path -> string): string {
    if chunks == [] then "" else Show(chunks[0], name) + Render(chunks[1..], name)
  }

  function ReadTexResolvingInputs(fs: Files, root: Path, name: Path -> string): string {
    Render(Read(fs, MAX_DEPTH, root, 0, {}), name)
  }

  // Chains of includes

  ghost predicate Includes(fs: Files, p: Path, q: Path) {
    fs.read(p).Some? && exists i :: 0 <= i < |Pieces(fs.read(p).value)| && IncludedBy(fs, p, Pieces(fs.read(p).value)[i]) == Some(q)
  }

  /** Files each of which includes the next, the first one being p. */
  ghost predicate IsChain(fs: Files, p: Path, chain: seq<Path>) {
    && chain != [] && chain[0] == p
    && forall i :: 0 < i < |chain| ==> Includes(fs, chain[i - 1], chain[i])
  }

  ghost predicate NoRepeats(chain: seq<Path>) {
    forall i, j :: 0 <= i < j < |chain| ==> chain[i] != chain[j]
  }

  ghost predicate HasNoSkips(chunks: seq<Chunk>) {
    forall c :: c in chunks ==> !c.Skipped?
  }

  /** A chain that can be followed at the given depth below the files already seen. */
  ghost predicate Fits(chain: seq<Path>, max: nat, depth: nat, seen: set<Path>) {
    && depth + |chain| <= max + 1 && NoRepeats(chain)
    && forall i :: 0 <= i < |chain| ==> chain[i] !in seen
  }

  ghost predicate AllFit(fs: Files, max: nat, p: Path, depth: nat, seen: set<Path>) {
    forall chain :: IsChain(fs, p, chain) ==> Fits(chain, max, depth, seen)
  }

  lemma NoSkipsConcat(a: seq<Chunk>, b: seq<Chunk>)
    ensures HasNoSkips(a + b) <==> HasNoSkips(a) && HasNoSkips(b)
  {
    forall c | c in a ensures c in a + b {}
    forall c | c in b ensures c in a + b {}
  }

  lemma {:induction false} NoSkipsInPieces(fs: Files, max: nat, p: Path, depth: nat, seen: set<Path>,
                                           pieces: seq<Piece>)
    requires depth <= max
    ensures HasNoSkips(Expand(fs, max, p, depth, seen, pieces)) <==>
      forall i :: 0 <= i < |pieces| && IncludedBy(fs, p, pieces[i]).Some? ==>
        HasNoSkips(Read(fs, max, IncludedBy(fs, p, pieces[i]).value, depth + 1, seen + {p}))
  {
    if pieces != [] {
      var rest := pieces[1..];
      NoSkipsInPieces(fs, max, p, depth, seen, rest);
      var first := IncludedBy(fs, p, pieces[0]);
      var chunks := if first.Some? then Read(fs, max, first.value, depth + 1, seen + {p}) else [Leaf(pieces[0])];
      NoSkipsConcat(chunks, Expand(fs, max, p, depth, seen, rest));
      hide Read, IncludedBy;
      assert forall i :: 1 <= i < |pieces| ==> pieces[i] == rest[i - 1];
      assert forall i :: 0 <= i < |rest| ==> rest[i] == pieces[i + 1];
    }
  }

  lemma ChainExtends(fs: Files, p: Path, q: Path, chain: seq<Path>)
    requires Includes(fs, p, q) && IsChain(fs, q, chain)
    ensures IsChain(fs, p, [p] + chain)
  {
    hide Includes;
  }

  lemma ChainTail(fs: Files, p: Path, chain: seq<Path>)
    requires IsChain(fs, p, chain) && |chain| > 1
    ensures Includes(fs, p, chain[1]) && IsChain(fs, chain[1], chain[1..])
  {
    hide Includes;
    var tail := chain[1..];
    forall i | 0 < i < |tail| ensures Includes(fs, tail[i - 1], tail[i]) {
      assert tail[i - 1] == chain[i] && tail[i] == chain[i + 1];
    }
  }

  lemma FitsStep(p: Path, chain: seq<Path>, max: nat, depth: nat, seen: set<Path>)
    requires depth <= max && p !in seen
    ensures Fits([p] + chain, max, depth, seen) <==> Fits(chain, max, depth + 1, seen + {p})
  {
    var longer := [p] + chain;
    assert longer[1..] == chain;
    if Fits(longer, max, depth, seen) {
      forall i | 0 <= i < |chain| ensures chain[i] !in seen + {p} {
        assert chain[i] == longer[i + 1] && longer[0] == p;
      }
      forall i, j | 0 <= i < j < |chain| ensures chain[i] != chain[j] {
        assert chain[i] == longer[i + 1] && chain[j] == longer[j + 1];
      }
    }
  }

  /** No skip marker is written below a file exactly when every chain of includes starting there fits. */
  lemma {:induction false} NoSkipsIffChainsFit(fs: Files, max: nat, p: Path, depth: nat, seen: set<Path>)
    requires depth <= max + 1
    ensures HasNoSkips(Read(fs, max, p, depth, seen)) <==> AllFit(fs, max, p, depth, seen)
    decreases max + 1 - depth
  {
    hide Includes, Fits, IncludedBy;
    if depth > max || p in seen {
      SkippedHere(fs, max, p, depth, seen);
      assert IsChain(fs, p, [p]);
      assert !Fits([p], max, depth, seen) by { SingleFits(p, max, depth, seen); }
    } else {
      forall q | Includes(fs, p, q)
        ensures HasNoSkips(Read(fs, max, q, depth + 1, seen + {p})) <==> AllFit(fs, max, q, depth + 1, seen + {p})
      {
        NoSkipsIffChainsFit(fs, max, q, depth + 1, seen + {p});
      }
      ChildrenDecide(fs, max, p, depth, seen);
      ChainsThroughChildren(fs, max, p, depth, seen);
    }
  }

  lemma SingleFits(p: Path, max: nat, depth: nat, seen: set<Path>)
    ensures Fits([p], max, depth, seen) <==> depth <= max && p !in seen
  {
    assert [p][0] == p;
  }

  lemma ChildrenDecide(fs: Files, max: nat, p: Path, depth: nat, seen: set<Path>)
    requires depth <= max && p !in seen
    ensures HasNoSkips(Read(fs, max, p, depth, seen)) <==>
      forall q :: Includes(fs, p, q) ==> HasNoSkips(Read(fs, max, q, depth + 1, seen + {p}))
  {
    hide IncludedBy, Pieces, HasNoSkips;
    if fs.read(p).Some? {
      var pieces := Pieces(fs.read(p).value);
      NoSkipsInPieces(fs, max, p, depth, seen, pieces);
      forall i | 0 <= i < |pieces| && IncludedBy(fs, p, pieces[i]).Some?
        ensures Includes(fs, p, IncludedBy(fs, p, pieces[i]).value) {}
    } else {
      assert HasNoSkips([Unreadable(p)]) by { UnreadableIsNoSkip(p); }
    }
  }

  lemma UnreadableIsNoSkip(p: Path)
    ensures HasNoSkips([Unreadable(p)])
  {
  }

  lemma ChainsThroughChildren(fs: Files, max: nat, p: Path, depth: nat, seen: set<Path>)
    requires depth <= max && p !in seen
    ensures AllFit(fs, max, p, depth, seen) <==>
      forall q :: Includes(fs, p, q) ==> AllFit(fs, max, q, depth + 1, seen + {p})
  {
    hide Includes, Fits;
    if AllFit(fs, max, p, depth, seen) {
      forall q, chain | Includes(fs, p, q) && IsChain(fs, q, chain) ensures Fits(chain, max, depth + 1, seen + {p}) {
        ChainExtends(fs, p, q, chain);
        FitsStep(p, chain, max, depth, seen);
      }
    }
    if forall q :: Includes(fs, p, q) ==> AllFit(fs, max, q, depth + 1, seen + {p}) {
      forall chain | IsChain(fs, p, chain) ensures Fits(chain, max, depth, seen) {
        if |chain| == 1 {
          assert chain == [p];
          SingleFits(p, max, depth, seen);
        } else {
          ChainTail(fs, p, chain);
          assert chain == [p] + chain[1..];
          FitsStep(p, chain[1..], max, depth, seen);
        }
      }
    }
  }

  /** A source is expanded without skip markers exactly when no chain of includes from it repeats a file or has
      more than 16 steps. */
  lemma SkipsIffCyclicOrDeep(fs: Files, root: Path)
    ensures HasNoSkips(Read(fs, MAX_DEPTH, root, 0, {})) <==>
      forall chain :: IsChain(fs, root, chain) ==> NoRepeats(chain) && |chain| <= 17
  {
    NoSkipsIffChainsFit(fs, MAX_DEPTH, root, 0, {});
    hide IsChain, NoRepeats, Read;
  }

  // The unbounded expansion

  /** The includes below a file are acyclic: along every chain from it the rank falls. What the file never reaches may
      be cyclic. */
  ghost predicate Ranked(fs: Files, rank: Path -> nat, p: Path) {
    forall chain :: IsChain(fs, p, chain) ==> forall i :: 0 < i < |chain| ==> rank(chain[i]) < rank(chain[i - 1])
  }

  lemma RankedBelow(fs: Files, rank: Path -> nat, p: Path, q: Path)
    requires Ranked(fs, rank, p) && Includes(fs, p, q)
    ensures rank(q) < rank(p) && Ranked(fs, rank, q)
  {
    hide Includes;
    assert IsChain(fs, p, [p, q]) && [p, q][1] == q && [p, q][0] == p;
    forall chain, i | IsChain(fs, q, chain) && 0 < i < |chain| ensures rank(chain[i]) < rank(chain[i - 1]) {
      ChainExtends(fs, p, q, chain);
      var longer := [p] + chain;
      assert longer[i + 1] == chain[i] && longer[i] == chain[i - 1];
    }
  }

  ghost function Full(fs: Files, rank: Path -> nat, p: Path): seq<Chunk>
    requires Ranked(fs, rank, p)
    decreases rank(p), 1, 0
  {
    match fs.read(p)
    case None => [Unreadable(p)]
    case Some(text) => FullFrom(fs, rank, p, 0)
  }

  ghost function FullFrom(fs: Files, rank: Path -> nat, p: Path, i: nat): seq<Chunk>
    requires Ranked(fs, rank, p) && fs.read(p).Some? && i <= |Pieces(fs.read(p).value)|
    decreases rank(p), 0, |Pieces(fs.read(p).value)| - i
  {
    var pieces := Pieces(fs.read(p).value);
    if i == |pieces| then []
    else
      var rest := FullFrom(fs, rank, p, i + 1);
      match IncludedBy(fs, p, pieces[i])
      case None => [Leaf(pieces[i])] + rest
      case Some(q) =>
        assert Includes(fs, p, q);
        RankedBelow(fs, rank, p, q);
        Full(fs, rank, q) + rest
  }

  lemma SkippedHere(fs: Files, max: nat, p: Path, depth: nat, seen: set<Path>)
    requires depth <= max + 1 && (depth > max || p in seen)
    ensures !HasNoSkips(Read(fs, max, p, depth, seen))
  {
    assert Skipped(p) in Read(fs, max, p, depth, seen);
  }

  /** Where nothing is skipped, the expansion is the unbounded one. */
  lemma {:induction false} UnskippedIsFull(fs: Files, rank: Path -> nat, max: nat, p: Path, depth: nat,
                                           seen: set<Path>)
    requires Ranked(fs, rank, p) && depth <= max + 1
    requires HasNoSkips(Read(fs, max, p, depth, seen))
    ensures Read(fs, max, p, depth, seen) == Full(fs, rank, p)
    decreases max + 1 - depth, 1, 0
  {
    hide Pieces, Ranked;
    if depth > max || p in seen {
      SkippedHere(fs, max, p, depth, seen);
    } else if fs.read(p).Some? {
      var pieces := Pieces(fs.read(p).value);
      assert pieces[0..] == pieces;
      UnskippedFrom(fs, rank, max, p, depth, seen, 0);
    }
  }

  lemma {:induction false} UnskippedFrom(fs: Files, rank: Path -> nat, max: nat, p: Path, depth: nat,
                                         seen: set<Path>, i: nat)
    requires Ranked(fs, rank, p) && depth <= max && fs.read(p).Some? && i <= |Pieces(fs.read(p).value)|
    requires HasNoSkips(Expand(fs, max, p, depth, seen, Pieces(fs.read(p).value)[i..]))
    ensures Expand(fs, max, p, depth, seen, Pieces(fs.read(p).value)[i..]) == FullFrom(fs, rank, p, i)
    decreases max + 1 - depth, 0, |Pieces(fs.read(p).value)| - i
  {
    hide Pieces, IncludedBy, Ranked, HasNoSkips;
    var pieces := Pieces(fs.read(p).value);
    if i < |pieces| {
      assert pieces[i..][1..] == pieces[i + 1..] && pieces[i..][0] == pieces[i];
      var rest := Expand(fs, max, p, depth, seen, pieces[i + 1..]);
      match IncludedBy(fs, p, pieces[i]) {
        case None =>
          NoSkipsConcat([Leaf(pieces[i])], rest);
        case Some(q) =>
          NoSkipsConcat(Read(fs, max, q, depth + 1, seen + {p}), rest);
          assert Includes(fs, p, q);
          RankedBelow(fs, rank, p, q);
          UnskippedIsFull(fs, rank, max, q, depth + 1, seen + {p});
      }
      UnskippedFrom(fs, rank, max, p, depth, seen, i + 1);
    }
  }

  lemma {:induction false} RanksFall(fs: Files, rank: Path -> nat, p: Path, chain: seq<Path>, i: nat, j: nat)
    requires Ranked(fs, rank, p) && IsChain(fs, p, chain) && i < j < |chain|
    ensures rank(chain[j]) < rank(chain[i])
  {
    assert rank(chain[j]) < rank(chain[j - 1]);
    if i < j - 1 {
      RanksFall(fs, rank, p, chain, i, j - 1);
    }
  }

  lemma {:induction false} FullHasNoSkips(fs: Files, rank: Path -> nat, p: Path)
    requires Ranked(fs, rank, p)
    ensures HasNoSkips(Full(fs, rank, p))
    decreases rank(p), 1, 0
  {
    hide Pieces, IncludedBy;
    if fs.read(p).Some? {
      FullFromHasNoSkips(fs, rank, p, 0);
    }
  }

  lemma {:induction false} FullFromHasNoSkips(fs: Files, rank: Path -> nat, p: Path, i: nat)
    requires Ranked(fs, rank, p) && fs.read(p).Some? && i <= |Pieces(fs.read(p).value)|
    ensures HasNoSkips(FullFrom(fs, rank, p, i))
    decreases rank(p), 0, |Pieces(fs.read(p).value)| - i
  {
    hide Pieces, IncludedBy;
    var pieces := Pieces(fs.read(p).value);
    if i < |pieces| {
      FullFromHasNoSkips(fs, rank, p, i + 1);
      match IncludedBy(fs, p, pieces[i]) {
        case None =>
        case Some(q) =>
          assert Includes(fs, p, q);
          RankedBelow(fs, rank, p, q);
          FullHasNoSkips(fs, rank, q);
          NoSkipsConcat(Full(fs, rank, q), FullFrom(fs, rank, p, i + 1));
      }
    }
  }

  /** Where the includes below the source are acyclic, the result is the unbounded expansion exactly when no chain of
      includes is longer than the bound. */
  lemma FullExpansionIff(fs: Files, rank: Path -> nat, root: Path)
    requires Ranked(fs, rank, root)
    ensures Read(fs, MAX_DEPTH, root, 0, {}) == Full(fs, rank, root) <==>
      forall chain :: IsChain(fs, root, chain) ==> |chain| <= 17
  {
    SkipsIffCyclicOrDeep(fs, root);
    FullHasNoSkips(fs, rank, root);
    forall chain | IsChain(fs, root, chain) ensures NoRepeats(chain) {
      forall i, j | 0 <= i < j < |chain| ensures chain[i] != chain[j] {
        RanksFall(fs, rank, root, chain, i, j);
      }
    }
    hide IsChain, NoRepeats, Read, Full, Ranked;
    if HasNoSkips(Read(fs, MAX_DEPTH, root, 0, {})) {
      UnskippedIsFull(fs, rank, MAX_DEPTH, root, 0, {});
    }
  }

  // What stands for a directive, spelled out

  /** A path below one of the two figure directories. */
  ghost predicate NamesFigure(target: string) {
    (exists rest :: target == "figures/" + rest) || (exists rest :: target == "fig/" + rest)
  }

  /** A directive that names a figure stays as it is; any other includes what the file system finds under its trimmed
      argument, or leaves a comment. */
  lemma DirectiveMeans(fs: Files, p: Path, raw: string, argument: string, name: Path -> string)
    ensures var d, target := Directive(raw, argument), Trim(argument);
            && (NamesFigure(target) ==> IncludedBy(fs, p, d) == None && Show(Leaf(d), name) == raw)
            && (!NamesFigure(target) ==> IncludedBy(fs, p, d) == fs.find(p, target))
            && (!NamesFigure(target) ==> Show(Leaf(d), name) == "% rrxiv-parser: missing \\input{" + target + "}\n")
  {
    var target := Trim(argument);
    if "figures/" <= target {
      assert target == "figures/" + target[8..];
    }
    if "fig/" <= target {
      assert target == "fig/" + target[4..];
    }
    hide Trim;
  }

  /** A file that cannot be read, or is skipped, leaves a comment with its name. */
  lemma CommentsAreShown(fs: Files, root: Path, name: Path -> string)
    ensures fs.read(root).None? ==> ReadTexResolvingInputs(fs, root, name) == "% rrxiv-parser: missing " + name(root) + "\n"
    ensures forall p :: Show(Skipped(p), name) == "% rrxiv-parser: skipped " + name(p) + " (cycle or depth>16)\n"
  {
    assert [Unreadable(root)][1..] == [];
    assert Render([], name) == "";
  }

  // Figures

  predicate OnlyFigures(pieces: seq<Piece>) {
    forall i :: 0 <= i < |pieces| && pieces[i].Directive? ==> IsFigure(Trim(pieces[i].argument))
  }

  lemma {:induction false} FiguresVerbatim(fs: Files, max: nat, p: Path, depth: nat, seen: set<Path>,
                                           pieces: seq<Piece>, name: Path -> string)
    requires depth <= max && OnlyFigures(pieces)
    ensures Render(Expand(fs, max, p, depth, seen, pieces), name) == RawText(pieces)
  {
    if pieces != [] {
      FiguresVerbatim(fs, max, p, depth, seen, pieces[1..], name);
      hide Pieces, IsFigure;
    }
  }

  /** A source whose directives all name figures comes out as it is. */
  lemma FigureSourceIsUnchanged(fs: Files, root: Path, name: Path -> string)
    requires fs.read(root).Some? && OnlyFigures(Pieces(fs.read(root).value))
    ensures ReadTexResolvingInputs(fs, root, name) == fs.read(root).value
  {
    var text := fs.read(root).value;
    FiguresVerbatim(fs, MAX_DEPTH, root, 0, {}, Pieces(text), name);
    PiecesMakeUpText(text);
    hide Pieces, RawText, Expand, Render;
  }
}

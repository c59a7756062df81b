/** Word-level text diffs: tokens, edit scripts and the hunk stream shown to readers. */
module WordDiff {
  import opened Text

  function RunOf(s: string, space: bool): (n: nat)
    ensures n <= |s|
    ensures forall i :: 0 <= i < n ==> IsSpace(s[i]) == space
    ensures n < |s| ==> IsSpace(s[n]) != space
  {
    if s != "" && IsSpace(s[0]) == space then 1 + RunOf(s[1..], space) else 0
  }

  /** The length of the first token: a word with the white space behind it, or leading white space. */
  function TokenLength(s: string): (n: nat)
    requires s != ""
    ensures 1 <= n <= |s|
  {
    var word := RunOf(s, false);
    word + RunOf(s[word..], true)
  }

  function Tokenise(s: string): seq<string>
    decreases |s|
  {
    if s == "" then [] else [s[..TokenLength(s)]] + Tokenise(s[TokenLength(s)..])
  }

  function Concat(tokens: seq<string>): string {
    if tokens == [] then "" else tokens[0] + Concat(tokens[1..])
  }

  /** Tokens lose nothing. */
  lemma {:induction false} TokensRejoin(s: string)
    ensures Concat(Tokenise(s)) == s
    decreases |s|
  {
    if s != "" {
      var n := TokenLength(s);
      hide TokenLength;
      assert s == s[..n] + s[n..];
      TokensRejoin(s[n..]);
    }
  }

  predicate StartsWord(t: string) {
    t != "" && !IsSpace(t[0])
  }

  /** What is left behind a token starts a new word. */
  lemma TokenEndsBeforeWord(s: string)
    requires s != "" && TokenLength(s) < |s|
    ensures StartsWord(s[TokenLength(s)..])
  {
    var word := RunOf(s, false);
    var space := RunOf(s[word..], true);
    assert s[word..][space] == s[word + space];
  }

  /** No token is empty, and every token but the first starts a word. */
  lemma {:induction false} TokensStartWords(s: string)
    ensures forall i :: 0 <= i < |Tokenise(s)| ==> Tokenise(s)[i] != "" && (i > 0 || StartsWord(s) ==> StartsWord(Tokenise(s)[i]))
    decreases |s|
  {
    if s != "" {
      var n := TokenLength(s);
      if n < |s| {
        TokenEndsBeforeWord(s);
      }
      hide TokenLength;
      TokensStartWords(s[n..]);
      assert s[..n][0] == s[0];
    }
  }

  /** One word, which may be missing, and the white space behind it. */
  ghost predicate IsToken(t: string) {
    exists word, gap :: t == word + gap && Blank(gap) && forall c :: c in word ==> !Blank([c])
  }

  lemma FirstTokenMeans(s: string)
    requires s != ""
    ensures IsToken(s[..TokenLength(s)])
  {
    var n := RunOf(s, false);
    var m := RunOf(s[n..], true);
    var word, gap := s[..n], s[n..][..m];
    assert s[..n + m] == word + gap;
    forall c | c in word ensures !Blank([c]) {
      SpaceIsBlank(c);
    }
    SpacesAreBlank(gap);
    hide Blank;
  }

  lemma {:induction false} SpacesAreBlank(gap: string)
    requires forall i :: 0 <= i < |gap| ==> IsSpace(gap[i])
    ensures Blank(gap)
  {
    if gap != "" {
      SpaceIsBlank(gap[0]);
      SpacesAreBlank(gap[1..]);
      BlankConcat([gap[0]], gap[1..]);
      assert gap == [gap[0]] + gap[1..];
    }
  }

  /** Every token is one word with the white space behind it; only the first one may lack the word. */
  lemma {:induction false} TokensAreWords(s: string)
    ensures forall t :: t in Tokenise(s) ==> IsToken(t)
    decreases |s|
  {
    hide IsToken;
    if s != "" {
      FirstTokenMeans(s);
      hide TokenLength;
      TokensAreWords(s[TokenLength(s)..]);
    }
  }

  lemma {:induction false} ConcatOfAppend(a: seq<string>, b: seq<string>)
    ensures Concat(a + b) == Concat(a) + Concat(b)
  {
    if a == [] {
      assert a + b == b;
    } else {
      assert (a + b)[1..] == a[1..] + b;
      ConcatOfAppend(a[1..], b);
    }
  }

  datatype Tag = Equal | Replace | Delete | Insert

  /** Tokens i1..i2 of the old text against tokens j1..j2 of the new one. */
  datatype Op = Op(tag: Tag, i1: nat, i2: nat, j1: nat, j2: nat)

  /** A sequence matcher's answer from position (i, j) on: the operations tile both texts, equal blocks
      agree, deletions take nothing from the new text and insertions nothing from the old one. */
  predicate ValidScript(ops: seq<Op>, a: seq<string>, b: seq<string>, i: nat, j: nat) {
    if ops == [] then i == |a| && j == |b|
    else
      var o := ops[0];
      && o.i1 == i && o.j1 == j && i <= o.i2 <= |a| && j <= o.j2 <= |b|
      && (o.tag.Equal? ==> a[i..o.i2] == b[j..o.j2])
      && (o.tag.Delete? ==> j == o.j2)
      && (o.tag.Insert? ==> i == o.i2)
      && ValidScript(ops[1..], a, b, o.i2, o.j2)
  }

  datatype Kind = Same | Added | Removed

  datatype Hunk = Hunk(kind: Kind, text: string)

  /** The old text as told by the hunks: what stayed and what was removed. */
  function OldText(hs: seq<Hunk>): string {
    if hs == [] then "" else (if hs[0].kind.Added? then "" else hs[0].text) + OldText(hs[1..])
  }

  function NewText(hs: seq<Hunk>): string {
    if hs == [] then "" else (if hs[0].kind.Removed? then "" else hs[0].text) + NewText(hs[1..])
  }

  lemma {:induction false} OldOfAppend(a: seq<Hunk>, b: seq<Hunk>)
    ensures OldText(a + b) == OldText(a) + OldText(b)
  {
    if a == [] {
      assert a + b == b;
    } else {
      assert (a + b)[1..] == a[1..] + b;
      OldOfAppend(a[1..], b);
    }
  }

  lemma {:induction false} NewOfAppend(a: seq<Hunk>, b: seq<Hunk>)
    ensures NewText(a + b) == NewText(a) + NewText(b)
  {
    if a == [] {
      assert a + b == b;
    } else {
      assert (a + b)[1..] == a[1..] + b;
      NewOfAppend(a[1..], b);
    }
  }

  /** A hunk, unless its text is empty. */
  function NonEmpty(kind: Kind, text: string): (hs: seq<Hunk>)
    ensures OldText(hs) == if kind.Added? then "" else text
    ensures NewText(hs) == if kind.Removed? then "" else text
    ensures forall h :: h in hs ==> h.kind == kind && h.text != ""
  {
    if text == "" then []
    else
      var hs := [Hunk(kind, text)];
      assert OldText(hs[1..]) == "" && NewText(hs[1..]) == "";
      hs
  }

  lemma PrefixGrows(a: seq<string>, i: nat, j: nat)
    requires i <= j <= |a|
    ensures Concat(a[..j]) == Concat(a[..i]) + Concat(a[i..j])
  {
    assert a[..j] == a[..i] + a[i..j];
    ConcatOfAppend(a[..i], a[i..j]);
  }

  lemma NothingYet()
    ensures Concat([]) == "" && OldText([]) == "" && NewText([]) == ""
  {
  }

  /** For every valid edit script, the kept and removed hunks rebuild the old text and the kept and added ones
      the new text; no hunk is empty unless the two texts are the same. */
  method Hunks(before: string, after: string, ops: seq<Op>) returns (hs: seq<Hunk>)
    requires ValidScript(ops, Tokenise(before), Tokenise(after), 0, 0)
    ensures OldText(hs) == before && NewText(hs) == after
    ensures before == after ==> hs == [Hunk(Same, before)]
    ensures before != after ==> forall h :: h in hs ==> h.text != ""
  {
    if before == after {
      hs := [Hunk(Same, before)];
      assert OldText(hs[1..]) == "" && NewText(hs[1..]) == "";
      return;
    }
    hide Tokenise, TokenLength, Concat, OldText, NewText;
    NothingYet();
    var a, b := Tokenise(before), Tokenise(after);
    hs := [];
    ghost var i: nat, j: nat := 0, 0;
    assert ops[0..] == ops && a[..0] == [] && b[..0] == [];
    for k := 0 to |ops|
      invariant i <= |a| && j <= |b| && ValidScript(ops[k..], a, b, i, j)
      invariant OldText(hs) == Concat(a[..i]) && NewText(hs) == Concat(b[..j])
      invariant forall h :: h in hs ==> h.text != ""
    {
      var o := ops[k];
      assert ops[k..][0] == o && ops[k..][1..] == ops[k + 1..];
      var more := HunksOf(o, a, b);
      OldOfAppend(hs, more);
      NewOfAppend(hs, more);
      PrefixGrows(a, o.i1, o.i2);
      PrefixGrows(b, o.j1, o.j2);
      hs := hs + more;
      i, j := o.i2, o.j2;
    }
    TokensRejoin(before);
    TokensRejoin(after);
    assert a[..|a|] == a && b[..|b|] == b;
  }

  /** The hunks of one operation. */
  method HunksOf(o: Op, a: seq<string>, b: seq<string>) returns (hs: seq<Hunk>)
    requires o.i1 <= o.i2 <= |a| && o.j1 <= o.j2 <= |b|
    requires o.tag.Equal? ==> a[o.i1..o.i2] == b[o.j1..o.j2]
    requires (o.tag.Delete? ==> o.j1 == o.j2) && (o.tag.Insert? ==> o.i1 == o.i2)
    ensures OldText(hs) == Concat(a[o.i1..o.i2]) && NewText(hs) == Concat(b[o.j1..o.j2])
    ensures forall h :: h in hs ==> h.text != ""
  {
    match o.tag {
      case Equal => hs := NonEmpty(Same, Concat(a[o.i1..o.i2]));
      case Replace =>
        var removed := NonEmpty(Removed, Concat(a[o.i1..o.i2]));
        var added := NonEmpty(Added, Concat(b[o.j1..o.j2]));
        OldOfAppend(removed, added);
        NewOfAppend(removed, added);
        hs := removed + added;
      case Delete => hs := NonEmpty(Removed, Concat(a[o.i1..o.i2]));
      case Insert => hs := NonEmpty(Added, Concat(b[o.j1..o.j2]));
    }
  }
}

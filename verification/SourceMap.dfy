/** Mapping offsets in a flattened TeX text back to lines of the original files. */
module SourceMaps {
  import opened Wrappers
  import opened Text

  datatype Mark = Opens(file: string) | Closes(file: string) | Synthetic | Plain

  datatype Region = Region(file: string, start: nat, end: nat)

  datatype Open = Open(file: string, line: nat)

  const INLINED := "% [flatten-tex.py] inlined: "
  const END := "% [flatten-tex.py] end: "
  const MISSING := "% [flatten-tex.py] MISSING:"
  const CYCLE := "% [flatten-tex.py] cycle skipped:"

  /** A file name as the marker patterns capture it: at least one character, no white space behind it. */
  function MarkedName(rest: string): Option<string> {
    if rest == "" then None
    else if |rest| > 1 && IsSpace(rest[|rest| - 1]) then MarkedName(rest[..|rest| - 1])
    else Some(rest)
  }

  function Classify(line: string): Mark {
    if INLINED <= line && MarkedName(line[|INLINED|..]).Some? then Opens(MarkedName(line[|INLINED|..]).value)
    else if END <= line && MarkedName(line[|END|..]).Some? then Closes(MarkedName(line[|END|..]).value)
    else if MISSING <= TrimLeft(line) || CYCLE <= TrimLeft(line) then Synthetic
    else Plain
  }

  // What the marker lines look like, spelled out

  /** The text names the file: at least one character, white space behind it left out. */
  ghost predicate Names(rest: string, file: string) {
    file != "" && (|file| == 1 || !IsSpace(file[|file| - 1])) && exists w :: Blank(w) && rest == file + w
  }

  ghost predicate IsOpening(line: string, file: string) {
    exists rest :: line == "% [flatten-tex.py] inlined: " + rest && Names(rest, file)
  }

  ghost predicate IsClosing(line: string, file: string) {
    exists rest :: line == "% [flatten-tex.py] end: " + rest && Names(rest, file)
  }

  /** A note that a file is missing or was skipped as part of a cycle. */
  ghost predicate IsNote(line: string) {
    || (exists w, rest :: Blank(w) && line == w + "% [flatten-tex.py] MISSING:" + rest)
    || (exists w, rest :: Blank(w) && line == w + "% [flatten-tex.py] cycle skipped:" + rest)
  }

  lemma {:induction false} MarkedNameMeans(rest: string, file: string)
    ensures MarkedName(rest) == Some(file) <==> Names(rest, file)
    ensures MarkedName(rest) == None <==> rest == ""
    decreases |rest|
  {
    if rest == "" {
    } else if |rest| > 1 && IsSpace(rest[|rest| - 1]) {
      var front, last := rest[..|rest| - 1], rest[|rest| - 1];
      MarkedNameMeans(front, file);
      assert rest == front + [last];
      NamesBeforeSpace(front, last, file);
      hide Names;
    } else {
      NamesWhole(rest, file);
      hide Names;
    }
  }

  lemma NamesBeforeSpace(front: string, last: char, file: string)
    requires front != "" && IsSpace(last)
    ensures Names(front + [last], file) <==> Names(front, file)
  {
    SpaceIsBlank(last);
    if Names(front, file) {
      var w :| Blank(w) && front == file + w;
      BlankConcat(w, [last]);
      assert front + [last] == file + (w + [last]);
    }
    if Names(front + [last], file) {
      var w :| Blank(w) && front + [last] == file + w;
      assert w != "" by {
        assert file + "" == file;
      }
      var v := w[..|w| - 1];
      assert w == v + [w[|w| - 1]];
      BlankConcat(v, [w[|w| - 1]]);
      assert front == (front + [last])[..|front|] == file + v;
    }
  }

  lemma NamesWhole(rest: string, file: string)
    requires rest != "" && (|rest| == 1 || !IsSpace(rest[|rest| - 1]))
    ensures Names(rest, file) <==> file == rest
  {
    assert rest == rest + "" && Blank("");
    if Names(rest, file) {
      var w :| Blank(w) && rest == file + w;
      BlankEnd(file, w);
    }
  }

  lemma BlankEnd(file: string, w: string)
    requires Blank(w) && file != ""
    ensures w == "" || (|file + w| > 1 && IsSpace((file + w)[|file + w| - 1]))
  {
    if w != "" {
      assert w[|w| - 1] in w;
      SpaceIsBlank(w[|w| - 1]);
    }
  }

  lemma MarkLineMeans(line: string, mark: string, file: string)
    ensures mark <= line && MarkedName(line[|mark|..]) == Some(file) <==> exists rest :: line == mark + rest && Names(rest, file)
  {
    hide MarkedName, Names;
    if mark <= line {
      assert line == mark + line[|mark|..];
      MarkedNameMeans(line[|mark|..], file);
    }
    if rest :| line == mark + rest && Names(rest, file) {
      assert line[|mark|..] == rest;
    }
  }

  lemma OneMarkOnly(line: string)
    ensures INLINED <= line ==> !(END <= line) && !(MISSING <= TrimLeft(line)) && !(CYCLE <= TrimLeft(line))
    ensures END <= line ==> !(MISSING <= TrimLeft(line)) && !(CYCLE <= TrimLeft(line))
  {
    assert INLINED[19] == 'i' && END[19] == 'e' && MISSING[19] == 'M' && CYCLE[19] == 'c';
    if INLINED <= line || END <= line {
      assert line[0] == '%' && TrimLeft(line) == line;
    }
  }

  /** The scan takes a line for an opening or closing marker, or for a note, exactly when it looks like one. */
  lemma ClassifyMeans(line: string)
    ensures forall f :: Classify(line) == Opens(f) <==> IsOpening(line, f)
    ensures forall f :: Classify(line) == Closes(f) <==> IsClosing(line, f)
    ensures Classify(line) == Synthetic <==> IsNote(line)
    ensures Classify(line) == Plain <==> (forall f :: !IsOpening(line, f) && !IsClosing(line, f)) && !IsNote(line)
  {
    OneMarkOnly(line);
    StartsBehindBlank(line, MISSING);
    StartsBehindBlank(line, CYCLE);
    forall f
      ensures INLINED <= line && MarkedName(line[|INLINED|..]) == Some(f) <==> IsOpening(line, f)
      ensures END <= line && MarkedName(line[|END|..]) == Some(f) <==> IsClosing(line, f)
    {
      MarkLineMeans(line, INLINED, f);
      MarkLineMeans(line, END, f);
    }
    hide MarkedName, IsOpening, IsClosing, TrimLeft;
  }

  /** State of the marker scan: open files, finished regions, synthetic lines. */
  datatype Scan = Scan(stack: seq<Open>, regions: seq<Region>, synthetic: seq<nat>)

  function Step(st: Scan, idx: nat, mark: Mark): Scan {
    match mark
    case Opens(f) =>
      Scan(st.stack + [Open(f, idx)], st.regions, if st.stack == [] then st.synthetic else st.synthetic + [idx])
    case Closes(f) =>
      if st.stack != [] && st.stack[|st.stack| - 1].file == f then
        var top := st.stack[|st.stack| - 1];
        Scan(st.stack[..|st.stack| - 1], st.regions + [Region(f, top.line, idx)], st.synthetic + [idx])
      else st.(synthetic := st.synthetic + [idx])
    case Synthetic => st.(synthetic := st.synthetic + [idx])
    case Plain => st
  }

  /** The scan of lines numbered from idx on. */
  function ScanFrom(st: Scan, idx: nat, lines: seq<string>): Scan
    decreases |lines|
  {
    if lines == [] then st else ScanFrom(Step(st, idx, Classify(lines[0])), idx + 1, lines[1..])
  }

  /** Files still open at the end of the text reach to its last line. */
  function CloseAll(st: Scan, last: nat): seq<Region>
    decreases |st.stack|
  {
    if st.stack == [] then st.regions
    else
      var top := st.stack[|st.stack| - 1];
      CloseAll(st.(stack := st.stack[..|st.stack| - 1], regions := st.regions + [Region(top.file, top.line, last)]), last)
  }

  function InsertByStart(rs: seq<Region>, r: Region): seq<Region> {
    if rs == [] then [r]
    else if r.start < rs[0].start then [r] + rs
    else [rs[0]] + InsertByStart(rs[1..], r)
  }

  function SortByStart(rs: seq<Region>): seq<Region> {
    if rs == [] then [] else InsertByStart(SortByStart(rs[..|rs| - 1]), rs[|rs| - 1])
  }

  function ScanText(text: string): Scan {
    ScanFrom(Scan([], [], []), 1, Lines(text))
  }

  function Regions(text: string): seq<Region> {
    SortByStart(CloseAll(ScanText(text), |Lines(text)|))
  }

  predicate Covers(r: Region, line: nat) {
    r.start < line <= r.end
  }

  /** The latest-starting region that covers the line. */
  function Innermost(rs: seq<Region>, line: nat): Option<Region> {
    if rs == [] then None
    else
      var r, before := rs[|rs| - 1], Innermost(rs[..|rs| - 1], line);
      if Covers(r, line) && (before.None? || r.start > before.value.start) then Some(r) else before
  }

  function CountBetween(synthetic: seq<nat>, lo: nat, hi: nat): nat {
    if synthetic == [] then 0
    else CountBetween(synthetic[..|synthetic| - 1], lo, hi)
         + if lo < synthetic[|synthetic| - 1] <= hi then 1 else 0
  }

  function LocateLine(rs: seq<Region>, synthetic: seq<nat>, defaultFile: string, line: nat): (string, int) {
    match Innermost(rs, line)
    case None => (defaultFile, line)
    case Some(r) =>
      var orig := 1 + (line - r.start - 1) - CountBetween(synthetic, r.start, line);
      (r.file, if orig < 1 then 1 else orig)
  }

  /** The line of the flat text that holds the offset; offsets outside the text are clamped. */
  function FlatLine(text: string, offset: int): nat {
    1 + Newlines(text[..if offset <= 0 then 0 else if offset >= |text| then |text| else offset])
  }

  function LocateOffset(text: string, defaultFile: string, offset: int): (string, int) {
    LocateLine(Regions(text), ScanText(text).synthetic, defaultFile, FlatLine(text, offset))
  }

  predicate Increasing(s: seq<nat>) {
    forall i, j :: 0 <= i < j < |s| ==> s[i] < s[j]
  }

  class SourceMap {
    const text: string
    const defaultFile: string
    const regions: seq<Region>
    const lineStarts: seq<nat>
    const synthetic: seq<nat>

    constructor (text: string, defaultFile: string, regions: seq<Region>, lineStarts: seq<nat>, synthetic: seq<nat>)
      ensures this.text == text && this.defaultFile == defaultFile && this.regions == regions
      ensures this.lineStarts == lineStarts && this.synthetic == synthetic
    {
      this.text, this.defaultFile, this.regions := text, defaultFile, regions;
      this.lineStarts, this.synthetic := lineStarts, synthetic;
    }

    ghost predicate Valid() {
      && regions == Regions(text)
      && synthetic == ScanText(text).synthetic
      && IsLineStarts(lineStarts, text, |text|)
    }

    static method FromFlatText(text: string, defaultFile: string) returns (m: SourceMap)
      ensures m.Valid() && m.text == text && m.defaultFile == defaultFile
    {
      var lineStarts := FindLineStarts(text);
      var lines := Lines(text);
      var stack: seq<Open>, regions: seq<Region>, synthetic: seq<nat> := [], [], [];
      assert lines[0..] == lines;
      for idx := 0 to |lines|
        invariant ScanText(text) == ScanFrom(Scan(stack, regions, synthetic), idx + 1, lines[idx..])
      {
        assert lines[idx..][1..] == lines[idx + 1..];
        match Classify(lines[idx]) {
          case Opens(f) =>
            if stack != [] {
              synthetic := synthetic + [idx + 1];
            }
            stack := stack + [Open(f, idx + 1)];
          case Closes(f) =>
            synthetic := synthetic + [idx + 1];
            if stack != [] {
              var top := stack[|stack| - 1];
              if top.file == f {
                regions := regions + [Region(f, top.line, idx + 1)];
                stack := stack[..|stack| - 1];
              }
            }
          case Synthetic =>
            synthetic := synthetic + [idx + 1];
          case Plain =>
        }
      }
      assert ScanText(text) == Scan(stack, regions, synthetic);
      while stack != []
        invariant CloseAll(ScanText(text), |lines|) == CloseAll(Scan(stack, regions, synthetic), |lines|)
        decreases |stack|
      {
        var top := stack[|stack| - 1];
        stack := stack[..|stack| - 1];
        regions := regions + [Region(top.file, top.line, |lines|)];
      }
      m := new SourceMap(text, defaultFile, SortByStart(regions), lineStarts, synthetic);
    }

    static method FindLineStarts(text: string) returns (lineStarts: seq<nat>)
      ensures IsLineStarts(lineStarts, text, |text|)
    {
      lineStarts := [0];
      hide Newlines;
      EmptyHasNoBreaks(text);
      for i := 0 to |text|
        invariant IsLineStarts(lineStarts, text, i)
      {
        NewlineStep(text, i);
        if text[i] == '\n' {
          lineStarts := lineStarts + [i + 1];
        }
      }
    }

    /** Binary search: the answer is one more than the number of line breaks before the offset. */
    method OffsetToFlatLine(offset: int) returns (line: nat)
      requires Valid()
      ensures line == FlatLine(text, offset)
    {
      hide Regions, ScanText, CountBetween;
      if offset <= 0 {
        assert text[..0] == "";
        return 1;
      }
      if offset >= |text| {
        assert text[..|text|] == text;
        return if |lineStarts| > 1 then |lineStarts| else 1;
      }
      hide Newlines, FlatLine, Increasing;
      var lo, hi := 0, |lineStarts| - 1;
      while lo < hi
        invariant 0 <= lo <= hi < |lineStarts|
        invariant lineStarts[lo] <= offset
        invariant hi + 1 < |lineStarts| ==> lineStarts[hi + 1] > offset
      {
        var mid := (lo + hi + 1) / 2;
        if lineStarts[mid] <= offset {
          lo := mid;
        } else {
          hi := mid - 1;
        }
      }
      LineStartsCount(lineStarts, text, offset, lo);
      FlatLineInside(text, offset);
      return lo + 1;
    }

    /** The scan may stop early because the list is increasing. */
    method SyntheticBetween(lo: nat, hi: nat) returns (count: nat)
      requires Valid()
      ensures count == CountBetween(synthetic, lo, hi)
    {
      count := 0;
      SyntheticIncreases(text);
      hide IsLineStarts, ScanText, Regions;
      if hi <= lo || synthetic == [] {
        NoneBetween(synthetic, lo, hi);
        return 0;
      }
      assert synthetic[..|synthetic|] == synthetic;
      for i := 0 to |synthetic|
        invariant count == CountBetween(synthetic[..i], lo, hi)
      {
        assert synthetic[..i + 1][..i] == synthetic[..i];
        var ln := synthetic[i];
        if lo < ln <= hi {
          count := count + 1;
        } else if ln > hi {
          NoneFrom(synthetic, i, lo, hi);
          return;
        }
      }
    }

    method Locate(offset: int) returns (file: string, line: int)
      requires Valid()
      ensures (file, line) == LocateOffset(text, defaultFile, offset)
    {
      var flatLine := OffsetToFlatLine(offset);
      var match_: Option<Region> := None;
      for i := 0 to |regions|
        invariant match_ == Innermost(regions[..i], flatLine)
      {
        assert regions[..i + 1][..i] == regions[..i];
        var r := regions[i];
        if r.start < flatLine <= r.end {
          if match_.None? || r.start > match_.value.start {
            match_ := Some(r);
          }
        }
      }
      assert regions[..|regions|] == regions;
      if match_.None? {
        return defaultFile, flatLine;
      }
      var region := match_.value;
      var inside := SyntheticBetween(region.start, flatLine);
      var orig := 1 + (flatLine - region.start - 1) - inside;
      return region.file, if orig < 1 then 1 else orig;
    }
  }

  /** s holds, in order, 0 and the position behind each of the first n characters that is a line break. */
  ghost predicate IsLineStarts(s: seq<nat>, text: string, n: nat)
    requires n <= |text|
  {
    && |s| == 1 + Newlines(text[..n]) && s[0] == 0
    && Increasing(s)
    && (forall i :: 0 <= i < |s| ==> s[i] <= n && Newlines(text[..s[i]]) == i)
    && (forall o :: 0 <= o <= n ==> Newlines(text[..o]) < |s| && s[Newlines(text[..o])] <= o)
  }

  lemma NewlineStep(text: string, i: nat)
    requires i < |text|
    ensures Newlines(text[..i + 1]) == Newlines(text[..i]) + if text[i] == '\n' then 1 else 0
  {
    assert text[..i + 1] == text[..i] + [text[i]];
    NewlinesConcat(text[..i], [text[i]]);
    assert [text[i]][1..] == "";
  }

  lemma EmptyHasNoBreaks(text: string)
    ensures Newlines(text[..0]) == 0
  {
  }

  lemma NewlinesMonotone(text: string, i: nat, j: nat)
    requires i <= j <= |text|
    ensures Newlines(text[..i]) <= Newlines(text[..j])
  {
    assert text[..j] == text[..i] + text[i..j];
    NewlinesConcat(text[..i], text[i..j]);
  }

  lemma LineStartsCount(s: seq<nat>, text: string, offset: nat, lo: nat)
    requires offset < |text| && IsLineStarts(s, text, |text|) && lo < |s|
    requires s[lo] <= offset && (lo + 1 < |s| ==> s[lo + 1] > offset)
    ensures Newlines(text[..offset]) == lo
  {
    NewlinesMonotone(text, s[lo], offset);
  }

  lemma FlatLineInside(text: string, offset: int)
    requires 0 < offset < |text|
    ensures FlatLine(text, offset) == 1 + Newlines(text[..offset])
  {
  }

  lemma {:induction false} NoneBetween(s: seq<nat>, lo: nat, hi: nat)
    requires forall i :: 0 <= i < |s| ==> !(lo < s[i] <= hi)
    ensures CountBetween(s, lo, hi) == 0
  {
    if s != [] {
      NoneBetween(s[..|s| - 1], lo, hi);
    }
  }

  lemma {:induction false} CountConcat(a: seq<nat>, b: seq<nat>, lo: nat, hi: nat)
    ensures CountBetween(a + b, lo, hi) == CountBetween(a, lo, hi) + CountBetween(b, lo, hi)
  {
    if b == [] {
      assert a + b == a;
    } else {
      assert (a + b)[..|a + b| - 1] == a + b[..|b| - 1];
      CountConcat(a, b[..|b| - 1], lo, hi);
    }
  }

  lemma NoneFrom(s: seq<nat>, i: nat, lo: nat, hi: nat)
    requires Increasing(s) && i < |s| && s[i] > hi
    ensures CountBetween(s, lo, hi) == CountBetween(s[..i], lo, hi)
  {
    assert s == s[..i] + s[i..];
    CountConcat(s[..i], s[i..], lo, hi);
    NoneBetween(s[i..], lo, hi);
  }

  lemma {:induction false} ScanIncreases(st: Scan, idx: nat, lines: seq<string>)
    requires Increasing(st.synthetic) && forall i :: 0 <= i < |st.synthetic| ==> st.synthetic[i] < idx
    ensures Increasing(ScanFrom(st, idx, lines).synthetic)
    decreases |lines|
  {
    if lines != [] {
      ScanIncreases(Step(st, idx, Classify(lines[0])), idx + 1, lines[1..]);
    }
  }

  lemma SyntheticIncreases(text: string)
    ensures Increasing(ScanText(text).synthetic)
  {
    ScanIncreases(Scan([], [], []), 1, Lines(text));
  }

  /** Two regions are nested or have no line in common, and they start on different lines. */
  predicate Compatible(r: Region, q: Region) {
    && r.start != q.start
    && (r.start < q.start ==> r.end < q.start || q.end <= r.end)
    && (q.start < r.start ==> q.end < r.start || r.end <= q.end)
  }

  predicate Laminar(rs: seq<Region>) {
    forall i, j :: 0 <= i < j < |rs| ==> Compatible(rs[i], rs[j])
  }

  /** What the scan keeps before line idx: closed regions are laminar, and none of them reaches into an open file
      it started before. */
  ghost predicate WellNested(st: Scan, idx: nat) {
    && Laminar(st.regions)
    && (forall i :: 0 <= i < |st.regions| ==> st.regions[i].start < st.regions[i].end < idx)
    && (forall i, j :: 0 <= i < j < |st.stack| ==> st.stack[i].line < st.stack[j].line)
    && (forall i :: 0 <= i < |st.stack| ==> st.stack[i].line < idx)
    && (forall i, j :: 0 <= i < |st.regions| && 0 <= j < |st.stack| ==>
          st.regions[i].start != st.stack[j].line
          && (st.regions[i].start < st.stack[j].line ==> st.regions[i].end < st.stack[j].line))
  }

  lemma {:induction false} ScanStaysNested(st: Scan, idx: nat, lines: seq<string>)
    requires WellNested(st, idx)
    ensures WellNested(ScanFrom(st, idx, lines), idx + |lines|)
    decreases |lines|
  {
    if lines != [] {
      var mark := Classify(lines[0]);
      hide *;
      StepStaysNested(st, idx, mark);
      ScanStaysNested(Step(st, idx, mark), idx + 1, lines[1..]);
      ScanUnrolls(st, idx, lines);
    } else {
      assert ScanFrom(st, idx, lines) == st;
    }
  }

  lemma ScanUnrolls(st: Scan, idx: nat, lines: seq<string>)
    requires lines != []
    ensures ScanFrom(st, idx, lines) == ScanFrom(Step(st, idx, Classify(lines[0])), idx + 1, lines[1..])
  {
  }

  lemma StepStaysNested(st: Scan, idx: nat, mark: Mark)
    requires WellNested(st, idx)
    ensures WellNested(Step(st, idx, mark), idx + 1)
  {
    if mark.Closes? && st.stack != [] && st.stack[|st.stack| - 1].file == mark.file {
      ClosingStaysNested(st, idx, st.synthetic + [idx]);
      hide WellNested;
    } else {
      hide Laminar;
    }
  }

  lemma ClosingStaysNested(st: Scan, idx: nat, synthetic: seq<nat>)
    requires WellNested(st, idx) && st.stack != []
    ensures var top := st.stack[|st.stack| - 1];
            WellNested(Scan(st.stack[..|st.stack| - 1], st.regions + [Region(top.file, top.line, idx)], synthetic), idx + 1)
  {
    var last := |st.stack| - 1;
    var top := st.stack[last];
    var stack, regions := st.stack[..last], st.regions + [Region(top.file, top.line, idx)];
    forall i, j | 0 <= i < |regions| && 0 <= j < |stack|
      ensures regions[i].start != stack[j].line
      ensures regions[i].start < stack[j].line ==> regions[i].end < stack[j].line
    {
      assert stack[j] == st.stack[j] && st.stack[j].line < top.line;
    }
    assert Laminar(regions);
    hide Laminar;
  }

  lemma {:induction false} ClosingStaysLaminar(st: Scan, last: nat)
    requires Laminar(st.regions)
    requires forall i :: 0 <= i < |st.regions| ==> st.regions[i].end <= last
    requires forall i, j :: 0 <= i < j < |st.stack| ==> st.stack[i].line < st.stack[j].line
    requires forall i :: 0 <= i < |st.stack| ==> st.stack[i].line <= last
    requires forall i, j :: 0 <= i < |st.regions| && 0 <= j < |st.stack| ==>
          st.regions[i].start != st.stack[j].line
          && (st.regions[i].start < st.stack[j].line ==> st.regions[i].end < st.stack[j].line)
    ensures Laminar(CloseAll(st, last))
    decreases |st.stack|
  {
    if st.stack != [] {
      var top := st.stack[|st.stack| - 1];
      ClosingStaysLaminar(
        st.(stack := st.stack[..|st.stack| - 1], regions := st.regions + [Region(top.file, top.line, last)]), last);
    }
  }

  lemma {:induction false} InsertKeepsMembers(rs: seq<Region>, r: Region)
    ensures multiset(InsertByStart(rs, r)) == multiset(rs) + multiset{r}
  {
    if rs != [] {
      assert rs == [rs[0]] + rs[1..];
      InsertKeepsMembers(rs[1..], r);
    }
  }

  lemma {:induction false} InsertKeepsLaminar(rs: seq<Region>, r: Region)
    requires Laminar(rs) && forall q :: q in rs ==> Compatible(q, r)
    ensures Laminar(InsertByStart(rs, r))
  {
    if rs == [] {
    } else if r.start < rs[0].start {
      forall j | 0 <= j < |rs| ensures Compatible(r, rs[j]) {
        assert rs[j] in rs;
      }
    } else {
      var t := InsertByStart(rs[1..], r);
      InsertKeepsLaminar(rs[1..], r);
      InsertKeepsMembers(rs[1..], r);
      forall j | 0 <= j < |t| ensures Compatible(rs[0], t[j]) {
        assert t[j] in multiset(t);
        assert t[j] == r || t[j] in rs[1..];
      }
    }
  }

  lemma {:induction false} SortKeepsRegions(rs: seq<Region>)
    ensures multiset(SortByStart(rs)) == multiset(rs)
    ensures Laminar(rs) ==> Laminar(SortByStart(rs))
  {
    if rs != [] {
      var front, last := rs[..|rs| - 1], rs[|rs| - 1];
      assert rs == front + [last];
      SortKeepsRegions(front);
      InsertKeepsMembers(SortByStart(front), last);
      if Laminar(rs) {
        forall q | q in SortByStart(front) ensures Compatible(q, last) {
          assert q in multiset(front);
        }
        InsertKeepsLaminar(SortByStart(front), last);
      }
    }
  }

  lemma {:induction false} InnermostCovers(rs: seq<Region>, line: nat)
    ensures Innermost(rs, line).None? <==> forall q :: q in rs ==> !Covers(q, line)
    ensures Innermost(rs, line).Some? ==>
              var r := Innermost(rs, line).value;
              r in rs && Covers(r, line) && forall q :: q in rs && Covers(q, line) ==> q.start <= r.start
  {
    if rs != [] {
      var front, last := rs[..|rs| - 1], rs[|rs| - 1];
      assert rs == front + [last];
      InnermostCovers(front, line);
    }
  }

  lemma RegionsAreLaminar(text: string)
    ensures Laminar(Regions(text))
  {
    var st := ScanText(text);
    ScanStaysNested(Scan([], [], []), 1, Lines(text));
    ClosingStaysLaminar(st, |Lines(text)|);
    SortKeepsRegions(CloseAll(st, |Lines(text)|));
    hide SortByStart, CloseAll, Laminar;
  }

  /** For every text, marked correctly or not: the scanned regions are laminar, so the region chosen for a line
      lies inside every other region that covers it. */
  lemma InnermostIsUnique(text: string, line: nat)
    ensures Laminar(Regions(text))
    ensures Innermost(Regions(text), line).Some? ==>
              forall q :: q in Regions(text) && Covers(q, line) && q != Innermost(Regions(text), line).value ==>
                q.start < Innermost(Regions(text), line).value.start && Innermost(Regions(text), line).value.end <= q.end
  {
    RegionsAreLaminar(text);
    var rs := Regions(text);
    InnermostCovers(rs, line);
    hide Regions, Innermost;
    if Innermost(rs, line).Some? {
      var r := Innermost(rs, line).value;
      forall q | q in rs && Covers(q, line) && q != r ensures q.start < r.start && r.end <= q.end {
        var i, j :| 0 <= i < |rs| && 0 <= j < |rs| && rs[i] == q && rs[j] == r;
        assert Compatible(rs[i], rs[j]) || Compatible(rs[j], rs[i]);
      }
    }
  }
}

/** A printer for flattened documents, and the proof of what locating a line in its output gives back. */
module Flattening {
  import opened Wrappers
  import opened Text
  import opened SourceMaps

  /** A note the flattener puts in for an include it could not inline. */
  datatype Note = Note(indent: string, missing: bool, path: string)

  function NoteLine(n: Note): string {
    n.indent + (if n.missing then "% [flatten-tex.py] MISSING:" else "% [flatten-tex.py] cycle skipped:") + n.path
  }

  /** A source file as the flattener sees it: its own lines, notes put in for an include that could not be inlined,
      and include lines replaced by the content of another file. */
  datatype Doc =
    | Nothing
    | Own(line: string, rest: Doc)
    | Marker(note: Note, rest: Doc)
    | Inlined(file: string, body: Doc, rest: Doc)

  function Flatten(d: Doc): seq<string> {
    match d
    case Nothing => []
    case Own(line, rest) => [line] + Flatten(rest)
    case Marker(note, rest) => [NoteLine(note)] + Flatten(rest)
    case Inlined(file, body, rest) => ["% [flatten-tex.py] inlined: " + file] + Flatten(body) + ["% [flatten-tex.py] end: " + file] + Flatten(rest)
  }

  /** Own lines do not look like markers or notes, notes are indented by white space, file names neither are empty nor
      end with white space, and nothing contains a line break. */
  ghost predicate Printable(d: Doc) {
    match d
    case Nothing => true
    case Own(line, rest) =>
      && (forall f :: !IsOpening(line, f) && !IsClosing(line, f)) && !IsNote(line)
      && '\n' !in line && Printable(rest)
    case Marker(note, rest) => Blank(note.indent) && '\n' !in note.indent && '\n' !in note.path && Printable(rest)
    case Inlined(file, body, rest) =>
      && file != "" && (|file| == 1 || !IsSpace(file[|file| - 1])) && '\n' !in file
      && Printable(body) && Printable(rest)
  }

  lemma OwnLineIsPlain(line: string, rest: Doc)
    requires Printable(Own(line, rest))
    ensures Classify(line) == Plain && '\n' !in line && Printable(rest)
  {
    ClassifyMeans(line);
    hide Classify;
  }

  lemma NoteLineIsSynthetic(note: Note, rest: Doc)
    requires Printable(Marker(note, rest))
    ensures Classify(NoteLine(note)) == Synthetic && '\n' !in NoteLine(note) && Printable(rest)
  {
    var mark := if note.missing then "% [flatten-tex.py] MISSING:" else "% [flatten-tex.py] cycle skipped:";
    assert IsNote(NoteLine(note)) by {
      assert NoteLine(note) == note.indent + mark + note.path;
    }
    NoBreakInMarks(mark);
    ClassifyMeans(NoteLine(note));
    hide Classify, IsNote;
  }

  lemma NoBreakInMarks(mark: string)
    requires mark == "% [flatten-tex.py] MISSING:" || mark == "% [flatten-tex.py] cycle skipped:"
    ensures '\n' !in mark
  {
  }

  /** The number of flat lines. */
  function Size(d: Doc): (n: nat)
    ensures n == |Flatten(d)|
  {
    match d
    case Nothing => 0
    case Own(_, rest) => 1 + Size(rest)
    case Marker(_, rest) => 1 + Size(rest)
    case Inlined(_, body, rest) => Size(body) + 2 + Size(rest)
  }

  lemma MarkersAreRecognised(file: string, body: Doc, rest: Doc)
    requires Printable(Inlined(file, body, rest))
    ensures Classify(INLINED + file) == Opens(file)
    ensures Classify(END + file) == Closes(file)
    ensures Printable(body) && Printable(rest)
  {
    assert Names(file, file) by {
      assert file == file + "" && Blank("");
    }
    assert IsOpening(INLINED + file, file) && IsClosing(END + file, file);
    ClassifyMeans(INLINED + file);
    ClassifyMeans(END + file);
    hide Classify, IsOpening, IsClosing, Names;
  }

  lemma {:induction false} FlatLinesHaveNoBreak(d: Doc)
    requires Printable(d)
    ensures forall l :: l in Flatten(d) ==> '\n' !in l
  {
    hide IsOpening, IsClosing, IsNote, NoteLine;
    match d
    case Nothing =>
    case Own(_, rest) => FlatLinesHaveNoBreak(rest);
    case Marker(note, rest) =>
      NoteLineIsSynthetic(note, rest);
      FlatLinesHaveNoBreak(rest);
    case Inlined(file, body, rest) =>
      NoBreakInMarkers();
      FlatLinesHaveNoBreak(body);
      FlatLinesHaveNoBreak(rest);
  }

  lemma NoBreakInMarkers()
    ensures '\n' !in INLINED && '\n' !in END
  {
  }

  /** The regions and synthetic lines of a document whose first flat line has number idx. */
  function RegionsOf(d: Doc, idx: nat): seq<Region> {
    match d
    case Nothing => []
    case Own(_, rest) => RegionsOf(rest, idx + 1)
    case Marker(_, rest) => RegionsOf(rest, idx + 1)
    case Inlined(file, body, rest) =>
      RegionsOf(body, idx + 1) + [Region(file, idx, idx + Size(body) + 1)] + RegionsOf(rest, idx + Size(body) + 2)
  }

  function SyntheticOf(d: Doc, idx: nat, nested: bool): seq<nat> {
    match d
    case Nothing => []
    case Own(_, rest) => SyntheticOf(rest, idx + 1, nested)
    case Marker(_, rest) => [idx] + SyntheticOf(rest, idx + 1, nested)
    case Inlined(_, body, rest) =>
      (if nested then [idx] else []) + SyntheticOf(body, idx + 1, true) + [idx + Size(body) + 1]
      + SyntheticOf(rest, idx + Size(body) + 2, nested)
  }

  /** The state of the scan behind the lines of d, entered in state st. */
  function After(st: Scan, d: Doc, idx: nat): Scan {
    Scan(st.stack, st.regions + RegionsOf(d, idx), st.synthetic + SyntheticOf(d, idx, st.stack != []))
  }

  lemma ScanLine(st: Scan, idx: nat, line: string, more: seq<string>)
    ensures ScanFrom(st, idx, [line] + more) == ScanFrom(Step(st, idx, Classify(line)), idx + 1, more)
  {
    assert ([line] + more)[1..] == more;
    ScanUnrolls(st, idx, [line] + more);
  }

  lemma AfterLine(st: Scan, line: string, rest: Doc, idx: nat)
    ensures After(st, rest, idx + 1) == After(st, Own(line, rest), idx)
    ensures forall note :: After(Step(st, idx, Synthetic), rest, idx + 1) == After(st, Marker(note, rest), idx)
  {
    assert st.synthetic + [idx] + SyntheticOf(rest, idx + 1, st.stack != [])
        == st.synthetic + ([idx] + SyntheticOf(rest, idx + 1, st.stack != []));
  }

  /** The state behind the closing marker of a block entered in state st. */
  function Closed(st: Scan, file: string, body: Doc, idx: nat): Scan {
    Step(After(Step(st, idx, Opens(file)), body, idx + 1), idx + 1 + Size(body), Closes(file))
  }

  lemma ClosedState(st: Scan, file: string, body: Doc, idx: nat)
    ensures Closed(st, file, body, idx)
         == Scan(st.stack, st.regions + RegionsOf(body, idx + 1) + [Region(file, idx, idx + 1 + Size(body))],
                 st.synthetic + (if st.stack != [] then [idx] else []) + SyntheticOf(body, idx + 1, true)
                 + [idx + 1 + Size(body)])
  {
    hide RegionsOf, SyntheticOf;
    var st1 := Step(st, idx, Opens(file));
    var st2 := After(st1, body, idx + 1);
    assert st2.stack[|st2.stack| - 1] == Open(file, idx) && st2.stack[..|st2.stack| - 1] == st.stack;
    assert st1.synthetic == st.synthetic + if st.stack != [] then [idx] else [];
  }

  lemma Regroup<T>(s: seq<T>, a: seq<T>, b: seq<T>, c: seq<T>, d: seq<T>)
    ensures s + a + b + c + d == s + (a + b + c + d)
  {
  }

  lemma AfterInlined(st: Scan, file: string, body: Doc, rest: Doc, idx: nat)
    ensures After(Closed(st, file, body, idx), rest, idx + Size(body) + 2) == After(st, Inlined(file, body, rest), idx)
  {
    hide Closed;
    var mid := idx + 1 + Size(body);
    ClosedState(st, file, body, idx);
    Regroup(st.synthetic, if st.stack != [] then [idx] else [], SyntheticOf(body, idx + 1, true), [mid],
            SyntheticOf(rest, mid + 1, st.stack != []));
    Regroup(st.regions, [], RegionsOf(body, idx + 1), [Region(file, idx, mid)], RegionsOf(rest, mid + 1));
    assert st.regions + [] == st.regions;
    assert [] + RegionsOf(body, idx + 1) == RegionsOf(body, idx + 1);
  }

  lemma FlattenInlined(file: string, body: Doc, rest: Doc, more: seq<string>)
    ensures Flatten(Inlined(file, body, rest)) + more
         == [INLINED + file] + (Flatten(body) + ([END + file] + (Flatten(rest) + more)))
    ensures Size(Inlined(file, body, rest)) == Size(body) + 2 + Size(rest)
  {
    hide Flatten;
    assert Flatten(Inlined(file, body, rest)) == [INLINED + file] + Flatten(body) + [END + file] + Flatten(rest) by {
      FlattenUnfolds(file, body, rest);
    }
  }

  lemma FlattenUnfolds(file: string, body: Doc, rest: Doc)
    ensures Flatten(Inlined(file, body, rest)) == [INLINED + file] + Flatten(body) + [END + file] + Flatten(rest)
  {
  }

  /** Scanning the lines of a document from a state leads to the state that belongs behind it. */
  ghost predicate Scans(d: Doc, st: Scan, idx: nat, more: seq<string>) {
    ScanFrom(st, idx, Flatten(d) + more) == ScanFrom(After(st, d, idx), idx + Size(d), more)
  }

  /** The scan over one block, given what it does over the content and over what follows. */
  lemma ScanInlined(file: string, body: Doc, rest: Doc, st: Scan, idx: nat, more: seq<string>)
    requires Classify(INLINED + file) == Opens(file) && Classify(END + file) == Closes(file)
    ensures Scans(body, Step(st, idx, Opens(file)), idx + 1, [END + file] + (Flatten(rest) + more))
         && Scans(rest, Closed(st, file, body, idx), idx + Size(body) + 2, more)
        ==> Scans(Inlined(file, body, rest), st, idx, more)
  {
    hide Classify, MarkedName, ScanFrom, Flatten, After, Step, Size;
    FlattenInlined(file, body, rest, more);
    var tail := [END + file] + (Flatten(rest) + more);
    ScanLine(st, idx, INLINED + file, Flatten(body) + tail);
    ScanLine(After(Step(st, idx, Opens(file)), body, idx + 1), idx + 1 + Size(body), END + file, Flatten(rest) + more);
    AfterInlined(st, file, body, rest, idx);
  }

  lemma {:induction false} ScanOfFlatten(d: Doc, st: Scan, idx: nat, more: seq<string>)
    requires Printable(d)
    ensures Scans(d, st, idx, more)
  {
    hide Classify, MarkedName, ScanFrom, NoteLine, IsOpening, IsClosing, IsNote;
    match d
    case Nothing =>
      assert Flatten(d) + more == more;
      assert After(st, d, idx) == st;
    case Own(line, rest) =>
      OwnLineIsPlain(line, rest);
      assert Flatten(d) + more == [line] + (Flatten(rest) + more);
      ScanLine(st, idx, line, Flatten(rest) + more);
      ScanOfFlatten(rest, st, idx + 1, more);
      AfterLine(st, line, rest, idx);
    case Marker(note, rest) =>
      NoteLineIsSynthetic(note, rest);
      assert Flatten(d) + more == [NoteLine(note)] + (Flatten(rest) + more);
      ScanLine(st, idx, NoteLine(note), Flatten(rest) + more);
      ScanOfFlatten(rest, Step(st, idx, Synthetic), idx + 1, more);
      AfterLine(st, "", rest, idx);
    case Inlined(file, body, rest) =>
      hide After, Step, Closed, Flatten, Size;
      MarkersAreRecognised(file, body, rest);
      ScanOfFlatten(body, Step(st, idx, Opens(file)), idx + 1, [END + file] + (Flatten(rest) + more));
      ScanOfFlatten(rest, Closed(st, file, body, idx), idx + Size(body) + 2, more);
      ScanInlined(file, body, rest, st, idx, more);
  }

  /** The scan of a flattened document: every block is closed, nothing stays open. */
  lemma FlattenedScan(d: Doc)
    requires Printable(d)
    ensures Lines(Unlines(Flatten(d))) == Flatten(d)
    ensures ScanText(Unlines(Flatten(d))) == Scan([], RegionsOf(d, 1), SyntheticOf(d, 1, false))
    ensures Regions(Unlines(Flatten(d))) == SortByStart(RegionsOf(d, 1))
  {
    hide Classify, Flatten, Unlines, Lines, RegionsOf, SyntheticOf, Printable, SortByStart;
    FlatLinesHaveNoBreak(d);
    LinesOfUnlines(Flatten(d));
    ScanOfFlatten(d, Scan([], [], []), 1, []);
    assert Flatten(d) + [] == Flatten(d);
    assert [] + RegionsOf(d, 1) == RegionsOf(d, 1);
    assert [] + SyntheticOf(d, 1, false) == SyntheticOf(d, 1, false);
  }

  /** The innermost block around flat line k of d: its file, the line of its opening marker, its content, and
      the position of the line within that content. */
  datatype Place = Place(file: string, start: nat, body: Doc, at: nat)

  function PlaceOf(d: Doc, idx: nat, k: nat): Option<Place>
    requires k < Size(d)
  {
    match d
    case Own(_, rest) => if k == 0 then None else PlaceOf(rest, idx + 1, k - 1)
    case Marker(_, rest) => if k == 0 then None else PlaceOf(rest, idx + 1, k - 1)
    case Inlined(file, body, rest) =>
      if k == 0 then None
      else if k <= Size(body) then
        match PlaceOf(body, idx + 1, k - 1)
        case None => Some(Place(file, idx, body, k - 1))
        case Some(p) => Some(p)
      else if k == Size(body) + 1 then Some(Place(file, idx, body, Size(body)))
      else PlaceOf(rest, idx + Size(body) + 2, k - Size(body) - 2)
  }

  lemma {:induction false} RegionBounds(d: Doc, idx: nat)
    ensures forall r :: r in RegionsOf(d, idx) ==> idx <= r.start < r.end < idx + Size(d)
  {
    match d
    case Nothing =>
    case Own(_, rest) => RegionBounds(rest, idx + 1);
    case Marker(_, rest) => RegionBounds(rest, idx + 1);
    case Inlined(_, body, rest) =>
      RegionBounds(body, idx + 1);
      RegionBounds(rest, idx + Size(body) + 2);
  }

  /** Among the regions that cover the line, the one of its innermost block starts last. */
  ghost predicate IsInnermost(rs: seq<Region>, line: nat, p: Option<Place>) {
    match p
    case None => forall q :: q in rs ==> !Covers(q, line)
    case Some(x) =>
      (exists r :: r in rs && Covers(r, line) && r.file == x.file && r.start == x.start)
      && forall q :: q in rs && Covers(q, line) ==> q.start <= x.start && (q.start == x.start ==> q.file == x.file)
  }

  lemma {:induction false} PlaceIsInnermost(d: Doc, idx: nat, k: nat)
    requires k < Size(d)
    ensures IsInnermost(RegionsOf(d, idx), idx + k, PlaceOf(d, idx, k))
    ensures PlaceOf(d, idx, k).Some? ==> idx <= PlaceOf(d, idx, k).value.start < idx + k
  {
    hide IsInnermost, Covers, Flatten;
    match d
    case Own(_, rest) =>
      if k > 0 {
        PlaceIsInnermost(rest, idx + 1, k - 1);
      } else {
        NothingBefore(rest, idx);
      }
    case Marker(_, rest) =>
      if k > 0 {
        PlaceIsInnermost(rest, idx + 1, k - 1);
      } else {
        NothingBefore(rest, idx);
      }
    case Inlined(file, body, rest) =>
      if 1 <= k <= Size(body) {
        PlaceIsInnermost(body, idx + 1, k - 1);
        InsideInlined(file, body, rest, idx, k);
      } else if k > Size(body) + 1 {
        PlaceIsInnermost(rest, idx + Size(body) + 2, k - Size(body) - 2);
        BehindInlined(file, body, rest, idx, k);
      } else {
        OnMarkerOfInlined(file, body, rest, idx, k);
      }
  }

  lemma NothingBefore(rest: Doc, idx: nat)
    ensures IsInnermost(RegionsOf(rest, idx + 1), idx, None)
  {
    RegionBounds(rest, idx + 1);
  }

  lemma InlinedRegions(file: string, body: Doc, rest: Doc, idx: nat)
    ensures forall q :: q in RegionsOf(Inlined(file, body, rest), idx) <==>
              q in RegionsOf(body, idx + 1) || q == Region(file, idx, idx + Size(body) + 1)
              || q in RegionsOf(rest, idx + Size(body) + 2)
  {
  }

  /** Which regions of a block can cover a line: none the opening marker, the block itself the closing one. */
  lemma CoveringRegion(file: string, body: Doc, rest: Doc, idx: nat, line: nat, q: Region)
    requires q in RegionsOf(Inlined(file, body, rest), idx) && Covers(q, line)
    ensures line != idx
    ensures line == idx + Size(body) + 1 ==> q == Region(file, idx, idx + Size(body) + 1)
    ensures line <= idx + Size(body) ==> q in RegionsOf(body, idx + 1) || q == Region(file, idx, idx + Size(body) + 1)
    ensures line >= idx + Size(body) + 2 ==> q in RegionsOf(rest, idx + Size(body) + 2)
  {
    InlinedRegions(file, body, rest, idx);
    RegionBounds(body, idx + 1);
    RegionBounds(rest, idx + Size(body) + 2);
    hide RegionsOf, Size, Flatten;
  }

  /** Regions that do not cover the line change nothing. */
  lemma OnlyPartCovers(rs: seq<Region>, part: seq<Region>, line: nat, p: Option<Place>)
    requires forall q :: q in part ==> q in rs
    requires forall q :: q in rs && Covers(q, line) ==> q in part
    requires IsInnermost(part, line, p)
    ensures IsInnermost(rs, line, p)
  {
    hide Covers;
  }

  lemma OnlyRegionCovers(rs: seq<Region>, r: Region, line: nat, p: Place)
    requires r in rs && Covers(r, line) && r.file == p.file && r.start == p.start
    requires forall q :: q in rs && Covers(q, line) ==> q == r
    ensures IsInnermost(rs, line, Some(p))
  {
    hide Covers;
  }

  /** A region that starts before the innermost one does not become innermost. */
  lemma OuterRegionCoversToo(rs: seq<Region>, part: seq<Region>, r: Region, line: nat, p: Place)
    requires forall q :: q in part ==> q in rs
    requires forall q :: q in rs && Covers(q, line) ==> q in part || q == r
    requires IsInnermost(part, line, Some(p)) && r.start < p.start
    ensures IsInnermost(rs, line, Some(p))
  {
    hide Covers;
  }

  lemma OnMarkerOfInlined(file: string, body: Doc, rest: Doc, idx: nat, k: nat)
    requires k == 0 || k == Size(body) + 1
    ensures IsInnermost(RegionsOf(Inlined(file, body, rest), idx), idx + k, PlaceOf(Inlined(file, body, rest), idx, k))
  {
    hide *;
    PlaceOnMarker(file, body, rest, idx, k);
    InlinedRegions(file, body, rest, idx);
    var rs, r := RegionsOf(Inlined(file, body, rest), idx), Region(file, idx, idx + Size(body) + 1);
    forall q | q in rs && Covers(q, idx + k) ensures k != 0 && q == r {
      CoveringRegion(file, body, rest, idx, idx + k, q);
    }
    if k == 0 {
      NothingCovers(idx);
      OnlyPartCovers(rs, [], idx, None);
    } else {
      CoversItsLines(file, idx, idx + Size(body) + 1, idx + k);
      OnlyRegionCovers(rs, r, idx + k, Place(file, idx, body, Size(body)));
    }
  }

  lemma CoversItsLines(file: string, start: nat, end: nat, line: nat)
    ensures Covers(Region(file, start, end), line) <==> start < line <= end
  {
  }

  lemma NothingCovers(line: nat)
    ensures IsInnermost([], line, None)
  {
  }

  lemma PlaceOnMarker(file: string, body: Doc, rest: Doc, idx: nat, k: nat)
    requires k == 0 || k == Size(body) + 1
    ensures PlaceOf(Inlined(file, body, rest), idx, k)
         == if k == 0 then None else Some(Place(file, idx, body, Size(body)))
  {
  }

  lemma BehindInlined(file: string, body: Doc, rest: Doc, idx: nat, k: nat)
    requires Size(body) + 2 <= k < Size(Inlined(file, body, rest))
    requires IsInnermost(RegionsOf(rest, idx + Size(body) + 2), idx + k,
                         PlaceOf(rest, idx + Size(body) + 2, k - Size(body) - 2))
    ensures IsInnermost(RegionsOf(Inlined(file, body, rest), idx), idx + k, PlaceOf(Inlined(file, body, rest), idx, k))
  {
    hide *;
    PlaceBehind(file, body, rest, idx, k);
    InlinedRegions(file, body, rest, idx);
    var rs, later := RegionsOf(Inlined(file, body, rest), idx), RegionsOf(rest, idx + Size(body) + 2);
    forall q | q in rs && Covers(q, idx + k) ensures q in later {
      CoveringRegion(file, body, rest, idx, idx + k, q);
    }
    OnlyPartCovers(rs, later, idx + k, PlaceOf(rest, idx + Size(body) + 2, k - Size(body) - 2));
  }

  lemma PlaceBehind(file: string, body: Doc, rest: Doc, idx: nat, k: nat)
    requires Size(body) + 2 <= k < Size(Inlined(file, body, rest))
    ensures k - Size(body) - 2 < Size(rest)
    ensures PlaceOf(Inlined(file, body, rest), idx, k) == PlaceOf(rest, idx + Size(body) + 2, k - Size(body) - 2)
  {
  }

  lemma InsideInlined(file: string, body: Doc, rest: Doc, idx: nat, k: nat)
    requires 1 <= k <= Size(body)
    requires IsInnermost(RegionsOf(body, idx + 1), idx + k, PlaceOf(body, idx + 1, k - 1))
    requires PlaceOf(body, idx + 1, k - 1).Some? ==> idx < PlaceOf(body, idx + 1, k - 1).value.start
    ensures IsInnermost(RegionsOf(Inlined(file, body, rest), idx), idx + k, PlaceOf(Inlined(file, body, rest), idx, k))
  {
    hide *;
    PlaceInside(file, body, rest, idx, k);
    InlinedRegions(file, body, rest, idx);
    var inner, r := RegionsOf(body, idx + 1), Region(file, idx, idx + Size(body) + 1);
    var rs, p := RegionsOf(Inlined(file, body, rest), idx), PlaceOf(body, idx + 1, k - 1);
    forall q | q in rs && Covers(q, idx + k) ensures q in inner || q == r {
      CoveringRegion(file, body, rest, idx, idx + k, q);
    }
    if p.Some? {
      OuterRegionCoversToo(rs, inner, r, idx + k, p.value);
    } else {
      NoneCoversWithoutPlace(inner, idx + k);
      CoversItsLines(file, idx, idx + Size(body) + 1, idx + k);
      OnlyRegionCovers(rs, r, idx + k, Place(file, idx, body, k - 1));
    }
  }

  lemma NoneCoversWithoutPlace(rs: seq<Region>, line: nat)
    ensures IsInnermost(rs, line, None) <==> forall q :: q in rs ==> !Covers(q, line)
  {
  }

  lemma PlaceInside(file: string, body: Doc, rest: Doc, idx: nat, k: nat)
    requires 1 <= k <= Size(body)
    ensures PlaceOf(Inlined(file, body, rest), idx, k)
         == if PlaceOf(body, idx + 1, k - 1).Some? then PlaceOf(body, idx + 1, k - 1)
            else Some(Place(file, idx, body, k - 1))
  {
  }

  /** The own lines, at any depth, among the first k flat lines. */
  function OwnLines(d: Doc, k: nat): nat {
    if k == 0 then 0 else
    match d
    case Nothing => 0
    case Own(_, rest) => 1 + OwnLines(rest, k - 1)
    case Marker(_, rest) => OwnLines(rest, k - 1)
    case Inlined(_, body, rest) =>
      if k <= Size(body) + 1 then OwnLines(body, k - 1)
      else OwnLines(body, Size(body)) + OwnLines(rest, k - Size(body) - 2)
  }

  lemma {:induction false} SyntheticBounds(d: Doc, idx: nat, nested: bool)
    ensures forall i :: 0 <= i < |SyntheticOf(d, idx, nested)| ==> idx <= SyntheticOf(d, idx, nested)[i] < idx + Size(d)
  {
    match d
    case Nothing =>
    case Own(_, rest) => SyntheticBounds(rest, idx + 1, nested);
    case Marker(_, rest) => SyntheticBounds(rest, idx + 1, nested);
    case Inlined(_, body, rest) =>
      SyntheticBounds(body, idx + 1, true);
      SyntheticBounds(rest, idx + Size(body) + 2, nested);
  }

  lemma CountOne(x: nat, lo: nat, hi: nat)
    ensures CountBetween([x], lo, hi) == if lo < x <= hi then 1 else 0
  {
    assert [x][..0] == [];
  }

  /** Counting over a block splits into its opening marker, content, closing marker and what follows. */
  lemma CountOfInlined(file: string, body: Doc, rest: Doc, idx: nat, nested: bool, lo: nat, hi: nat)
    ensures CountBetween(SyntheticOf(Inlined(file, body, rest), idx, nested), lo, hi)
         == (if nested && lo < idx <= hi then 1 else 0) + CountBetween(SyntheticOf(body, idx + 1, true), lo, hi)
            + (if lo < idx + Size(body) + 1 <= hi then 1 else 0)
            + CountBetween(SyntheticOf(rest, idx + Size(body) + 2, nested), lo, hi)
  {
    hide CountBetween, Flatten;
    CountFourParts(if nested then [idx] else [], SyntheticOf(body, idx + 1, true), [idx + Size(body) + 1],
                   SyntheticOf(rest, idx + Size(body) + 2, nested), lo, hi);
    CountOne(idx + Size(body) + 1, lo, hi);
    CountOne(idx, lo, hi);
    NoneBetween([], lo, hi);
  }

  lemma CountOfMarker(rest: Doc, idx: nat, nested: bool, lo: nat, hi: nat)
    ensures CountBetween([idx] + SyntheticOf(rest, idx + 1, nested), lo, hi)
         == (if lo < idx <= hi then 1 else 0) + CountBetween(SyntheticOf(rest, idx + 1, nested), lo, hi)
  {
    CountConcat([idx], SyntheticOf(rest, idx + 1, nested), lo, hi);
    CountOne(idx, lo, hi);
  }

  lemma CountFourParts(a: seq<nat>, b: seq<nat>, c: seq<nat>, d: seq<nat>, lo: nat, hi: nat)
    ensures CountBetween(a + b + c + d, lo, hi)
         == CountBetween(a, lo, hi) + CountBetween(b, lo, hi) + CountBetween(c, lo, hi) + CountBetween(d, lo, hi)
  {
    hide CountBetween;
    CountConcat(a + b + c, d, lo, hi);
    CountConcat(a + b, c, lo, hi);
    CountConcat(a, b, lo, hi);
  }

  lemma OutOfRange(d: Doc, idx: nat, nested: bool, lo: nat, hi: nat)
    requires hi < idx || lo >= idx + Size(d)
    ensures CountBetween(SyntheticOf(d, idx, nested), lo, hi) == 0
  {
    SyntheticBounds(d, idx, nested);
    NoneBetween(SyntheticOf(d, idx, nested), lo, hi);
  }

  /** In a nested document every flat line is either an own line or synthetic. */
  lemma {:induction false} OwnOrSynthetic(d: Doc, idx: nat, lo: nat, k: nat)
    requires lo < idx && k <= Size(d)
    ensures OwnLines(d, k) + CountBetween(SyntheticOf(d, idx, true), lo, idx + k - 1) == k
  {
    hide CountBetween, Flatten, OwnLines, SyntheticOf;
    if k == 0 {
      OutOfRange(d, idx, true, lo, idx - 1);
      NoOwnLines(d);
      return;
    }
    match d
    case Own(line, rest) =>
      OwnOrSynthetic(rest, idx + 1, lo, k - 1);
      OwnLineCounts(line, rest, idx, k);
    case Marker(note, rest) =>
      OwnOrSynthetic(rest, idx + 1, lo, k - 1);
      MarkerCounts(note, rest, idx, k);
      CountOfMarker(rest, idx, true, lo, idx + k - 1);
    case Inlined(file, body, rest) =>
      if k <= Size(body) + 1 {
        OwnOrSynthetic(body, idx + 1, lo, k - 1);
      } else {
        OwnOrSynthetic(body, idx + 1, lo, Size(body));
        OwnOrSynthetic(rest, idx + Size(body) + 2, lo, k - Size(body) - 2);
      }
      OwnOrSyntheticInlined(file, body, rest, idx, lo, k);
  }

  lemma NoOwnLines(d: Doc)
    ensures OwnLines(d, 0) == 0
  {
  }

  lemma OwnLineCounts(line: string, rest: Doc, idx: nat, k: nat)
    requires k >= 1
    ensures OwnLines(Own(line, rest), k) == 1 + OwnLines(rest, k - 1)
    ensures SyntheticOf(Own(line, rest), idx, true) == SyntheticOf(rest, idx + 1, true)
  {
  }

  lemma MarkerCounts(note: Note, rest: Doc, idx: nat, k: nat)
    requires k >= 1
    ensures OwnLines(Marker(note, rest), k) == OwnLines(rest, k - 1)
    ensures SyntheticOf(Marker(note, rest), idx, true) == [idx] + SyntheticOf(rest, idx + 1, true)
  {
  }

  lemma OwnOrSyntheticInlined(file: string, body: Doc, rest: Doc, idx: nat, lo: nat, k: nat)
    requires lo < idx && 1 <= k <= Size(Inlined(file, body, rest))
    requires k <= Size(body) + 1 ==>
               OwnLines(body, k - 1) + CountBetween(SyntheticOf(body, idx + 1, true), lo, idx + k - 1) == k - 1
    requires k > Size(body) + 1 ==>
               OwnLines(body, Size(body)) + CountBetween(SyntheticOf(body, idx + 1, true), lo, idx + Size(body)) == Size(body)
    requires k > Size(body) + 1 ==>
               OwnLines(rest, k - Size(body) - 2)
               + CountBetween(SyntheticOf(rest, idx + Size(body) + 2, true), lo, idx + k - 1) == k - Size(body) - 2
    ensures OwnLines(Inlined(file, body, rest), k)
            + CountBetween(SyntheticOf(Inlined(file, body, rest), idx, true), lo, idx + k - 1) == k
  {
    hide CountBetween, Flatten, SyntheticOf;
    CountOfInlined(file, body, rest, idx, true, lo, idx + k - 1);
    if k <= Size(body) + 1 {
      OutOfRange(rest, idx + Size(body) + 2, true, lo, idx + k - 1);
    } else {
      BeyondTheEnd(body, idx + 1, lo, idx + k - 1);
    }
  }

  lemma {:induction false} SameCount(s: seq<nat>, lo: nat, hi: nat, hj: nat)
    requires forall i :: 0 <= i < |s| ==> (lo < s[i] <= hi <==> lo < s[i] <= hj)
    ensures CountBetween(s, lo, hi) == CountBetween(s, lo, hj)
  {
    if s != [] {
      SameCount(s[..|s| - 1], lo, hi, hj);
    }
  }

  lemma BeyondTheEnd(d: Doc, idx: nat, lo: nat, hi: nat)
    requires 1 <= idx && hi >= idx + Size(d) - 1
    ensures CountBetween(SyntheticOf(d, idx, true), lo, hi) == CountBetween(SyntheticOf(d, idx, true), lo, idx + Size(d) - 1)
  {
    SyntheticBounds(d, idx, true);
    SameCount(SyntheticOf(d, idx, true), lo, hi, idx + Size(d) - 1);
  }

  /** Between the opening marker of the innermost block and a line inside it, what is not synthetic is the
      block's own lines and those of the blocks nested in it. */
  lemma {:induction false} CountInPlace(d: Doc, idx: nat, nested: bool, k: nat)
    requires k < Size(d) && PlaceOf(d, idx, k).Some? && 1 <= idx
    ensures var p := PlaceOf(d, idx, k).value;
            && idx <= p.start < idx + k
            && OwnLines(p.body, p.at + 1) + CountBetween(SyntheticOf(d, idx, nested), p.start, idx + k) == idx + k - p.start
    decreases d, 1
  {
    hide *;
    PlaceIsInnermost(d, idx, k);
    var p := PlaceOf(d, idx, k).value;
    match d
    case Nothing => NothingHasNoLines();
    case Own(line, rest) =>
      AfterOneLine(line, Note("", true, ""), rest, idx, nested, k);
      CountInPlace(rest, idx + 1, nested, k - 1);
    case Marker(note, rest) =>
      AfterOneLine("", note, rest, idx, nested, k);
      CountInPlace(rest, idx + 1, nested, k - 1);
      CountOfMarker(rest, idx, nested, p.start, idx + k);
    case Inlined(file, body, rest) => CountInInlined(file, body, rest, idx, nested, k);
  }

  lemma NothingHasNoLines()
    ensures Size(Nothing) == 0
  {
  }

  /** A line in front of a document has no place and shifts the others by one. */
  lemma AfterOneLine(line: string, note: Note, rest: Doc, idx: nat, nested: bool, k: nat)
    ensures Size(Own(line, rest)) == 1 + Size(rest) == Size(Marker(note, rest))
    ensures k <= Size(rest) ==> PlaceOf(Own(line, rest), idx, k) == if k == 0 then None else PlaceOf(rest, idx + 1, k - 1)
    ensures k <= Size(rest) ==> PlaceOf(Marker(note, rest), idx, k) == if k == 0 then None else PlaceOf(rest, idx + 1, k - 1)
    ensures SyntheticOf(Own(line, rest), idx, nested) == SyntheticOf(rest, idx + 1, nested)
    ensures SyntheticOf(Marker(note, rest), idx, nested) == [idx] + SyntheticOf(rest, idx + 1, nested)
  {
  }

  lemma CountInInlined(file: string, body: Doc, rest: Doc, idx: nat, nested: bool, k: nat)
    requires k < Size(Inlined(file, body, rest)) && PlaceOf(Inlined(file, body, rest), idx, k).Some? && 1 <= idx
    ensures var p := PlaceOf(Inlined(file, body, rest), idx, k).value;
            idx <= p.start < idx + k ==>
              OwnLines(p.body, p.at + 1) + CountBetween(SyntheticOf(Inlined(file, body, rest), idx, nested), p.start, idx + k)
              == idx + k - p.start
    decreases Inlined(file, body, rest), 0
  {
    hide *;
    if 1 <= k <= Size(body) && PlaceOf(body, idx + 1, k - 1).Some? {
      PlaceInside(file, body, rest, idx, k);
      CountInPlace(body, idx + 1, true, k - 1);
      CountInNested(file, body, rest, idx, nested, k);
    } else if k <= Size(body) + 1 {
      PlaceInOrOnBlock(file, body, rest, idx, k);
      CountInBlock(file, body, rest, idx, nested, k);
    } else {
      PlaceBehind(file, body, rest, idx, k);
      CountInPlace(rest, idx + Size(body) + 2, nested, k - Size(body) - 2);
      var p := PlaceOf(Inlined(file, body, rest), idx, k).value;
      CountOfInlined(file, body, rest, idx, nested, p.start, idx + k);
      OutOfRange(body, idx + 1, true, p.start, idx + k);
    }
  }

  lemma PlaceInOrOnBlock(file: string, body: Doc, rest: Doc, idx: nat, k: nat)
    requires k <= Size(body) + 1
    requires 1 <= k <= Size(body) ==> PlaceOf(body, idx + 1, k - 1).None?
    ensures PlaceOf(Inlined(file, body, rest), idx, k)
         == if k == 0 then None else Some(Place(file, idx, body, k - 1))
  {
  }

  lemma CountInNested(file: string, body: Doc, rest: Doc, idx: nat, nested: bool, k: nat)
    requires 1 <= k <= Size(body) && PlaceOf(body, idx + 1, k - 1).Some?
    requires idx < PlaceOf(body, idx + 1, k - 1).value.start
    ensures var lo := PlaceOf(body, idx + 1, k - 1).value.start;
            CountBetween(SyntheticOf(Inlined(file, body, rest), idx, nested), lo, idx + k)
            == CountBetween(SyntheticOf(body, idx + 1, true), lo, idx + k)
  {
    hide CountBetween, Flatten, SyntheticOf;
    var lo := PlaceOf(body, idx + 1, k - 1).value.start;
    CountOfInlined(file, body, rest, idx, nested, lo, idx + k);
    OutOfRange(rest, idx + Size(body) + 2, nested, lo, idx + k);
  }

  lemma CountInBlock(file: string, body: Doc, rest: Doc, idx: nat, nested: bool, k: nat)
    requires 1 <= k <= Size(body) + 1
    ensures OwnLines(body, k) + CountBetween(SyntheticOf(Inlined(file, body, rest), idx, nested), idx, idx + k) == k
    ensures k == Size(body) + 1 ==> OwnLines(body, k) == OwnLines(body, Size(body))
  {
    hide CountBetween, Flatten, SyntheticOf, OwnLines;
    CountOfInlined(file, body, rest, idx, nested, idx, idx + k);
    OutOfRange(rest, idx + Size(body) + 2, nested, idx, idx + k);
    if k <= Size(body) {
      OwnOrSynthetic(body, idx + 1, idx, k);
    } else {
      OwnOrSynthetic(body, idx + 1, idx, Size(body));
      BeyondTheEnd(body, idx + 1, idx, idx + k);
      NoMoreOwnLines(body, k);
    }
  }

  lemma {:induction false} NoMoreOwnLines(d: Doc, k: nat)
    requires k >= Size(d)
    ensures OwnLines(d, k) == OwnLines(d, Size(d))
  {
    match d
    case Nothing =>
    case Own(_, rest) => NoMoreOwnLines(rest, k - 1);
    case Marker(_, rest) => NoMoreOwnLines(rest, k - 1);
    case Inlined(_, body, rest) => NoMoreOwnLines(rest, k - Size(body) - 2);
  }

  /** The line number, in its own file, of position j of a document; None for lines that are not its own. An
      inlined block stands for the one include line it replaced. */
  function LineNumber(d: Doc, j: nat): Option<nat> {
    match d
    case Nothing => None
    case Own(_, rest) => if j == 0 then Some(1) else Later(LineNumber(rest, j - 1))
    case Marker(_, rest) => if j == 0 then None else LineNumber(rest, j - 1)
    case Inlined(_, body, rest) =>
      if j < Size(body) + 2 then None else Later(LineNumber(rest, j - Size(body) - 2))
  }

  function Later(n: Option<nat>): Option<nat> {
    match n
    case None => None
    case Some(m) => Some(m + 1)
  }

  /** By how much the blocks nested before position j exceed the one line each of them stands for. */
  function Drift(d: Doc, j: nat): int {
    match d
    case Nothing => 0
    case Own(_, rest) => if j == 0 then 0 else Drift(rest, j - 1)
    case Marker(_, rest) => if j == 0 then 0 else Drift(rest, j - 1)
    case Inlined(_, body, rest) =>
      if j < Size(body) + 2 then 0 else OwnLines(body, Size(body)) - 1 + Drift(rest, j - Size(body) - 2)
  }

  predicate NoBlockBefore(d: Doc, j: nat) {
    match d
    case Nothing => true
    case Own(_, rest) => j == 0 || NoBlockBefore(rest, j - 1)
    case Marker(_, rest) => j == 0 || NoBlockBefore(rest, j - 1)
    case Inlined(_, _, _) => false
  }

  lemma {:induction false} OwnLinesCountNumbers(d: Doc, j: nat)
    requires LineNumber(d, j).Some?
    ensures LineNumber(d, j).value >= 1
    ensures OwnLines(d, j + 1) == LineNumber(d, j).value + Drift(d, j)
    ensures NoBlockBefore(d, j) ==> Drift(d, j) == 0
    ensures 1 <= OwnLines(d, j + 1)
  {
    match d
    case Own(_, rest) =>
      if j > 0 {
        OwnLinesCountNumbers(rest, j - 1);
      } else {
        assert OwnLines(rest, 0) == 0;
      }
    case Marker(_, rest) => OwnLinesCountNumbers(rest, j - 1);
    case Inlined(_, body, rest) => OwnLinesCountNumbers(rest, j - Size(body) - 2);
  }

  /** Does some flat line before position k not stand for exactly one line of the outermost file? */
  predicate OnlyOwnBefore(d: Doc, k: nat) {
    k == 0 || match d
              case Nothing => true
              case Own(_, rest) => OnlyOwnBefore(rest, k - 1)
              case Marker(_, _) => false
              case Inlined(_, _, _) => false
  }

  lemma {:induction false} TopLineNumber(d: Doc, k: nat)
    requires LineNumber(d, k).Some?
    ensures LineNumber(d, k).value <= k + 1
    ensures LineNumber(d, k).value == k + 1 <==> OnlyOwnBefore(d, k)
  {
    match d
    case Own(_, rest) =>
      if k > 0 {
        TopLineNumber(rest, k - 1);
      }
    case Marker(_, rest) => TopLineNumber(rest, k - 1);
    case Inlined(_, body, rest) => TopLineNumber(rest, k - Size(body) - 2);
  }

  /** The character positions of flat line k, its line break included. */
  predicate OnLine(d: Doc, k: nat, offset: int)
    requires k < Size(d)
  {
    |Unlines(Flatten(d)[..k])| <= offset <= |Unlines(Flatten(d)[..k])| + |Flatten(d)[k]|
  }

  lemma OffsetIsOnFlatLine(d: Doc, k: nat, offset: int)
    requires Printable(d) && k < Size(d) && OnLine(d, k, offset)
    ensures FlatLine(Unlines(Flatten(d)), offset) == k + 1
  {
    hide *;
    var ls := Flatten(d);
    assert |ls| == Size(d);
    FlatLinesHaveNoBreak(d);
    var at := offset - |Unlines(ls[..k])|;
    assert 0 <= at <= |ls[k]| by {
      OnLineMeans(d, k, offset);
    }
    UnlinesAt(ls, k);
    var before, part := Unlines(ls[..k]), ls[k][..at];
    var tail := ls[k][at..] + "\n" + Unlines(ls[k + 1..]);
    assert ls[k] == part + ls[k][at..];
    assert Unlines(ls) == (before + part) + tail;
    NewlinesConcat(before, part);
    NewlinesOfUnlines(ls[..k]);
    assert '\n' !in part by {
      assert ls[k] in ls;
    }
    NoNewlines(part);
    FlatLineAt(before + part, tail);
  }

  lemma OnLineMeans(d: Doc, k: nat, offset: int)
    requires k < Size(d) && OnLine(d, k, offset)
    ensures |Unlines(Flatten(d)[..k])| <= offset <= |Unlines(Flatten(d)[..k])| + |Flatten(d)[k]|
  {
  }

  lemma {:induction false} UnlinesAt(ls: seq<string>, k: nat)
    requires k < |ls|
    ensures Unlines(ls) == Unlines(ls[..k]) + (ls[k] + "\n" + Unlines(ls[k + 1..]))
  {
    if k == 0 {
      assert Unlines(ls[..0]) == "";
    } else {
      UnlinesAt(ls[1..], k - 1);
      assert ls[..k][1..] == ls[1..][..k - 1] && ls[1..][k..] == ls[k + 1..];
      var a, b, c := ls[0] + "\n", Unlines(ls[1..][..k - 1]), ls[k] + "\n" + Unlines(ls[k + 1..]);
      assert a + (b + c) == (a + b) + c;
    }
  }

  lemma FlatLineAt(head: string, tail: string)
    requires tail != ""
    ensures FlatLine(head + tail, |head|) == 1 + Newlines(head)
  {
    assert (head + tail)[..|head|] == head;
    if head == "" {
      assert (head + tail)[..0] == head;
    }
  }

  /** Locating any offset of any line that belongs to a file. In an inlined file, at any depth, the answer is
      that file and the true line number plus the drift of the blocks nested before it, so it is exact if and
      only if they happen to cancel out; before the first nested block they always do. In the outermost file
      it is exact if and only if nothing but own lines comes before. */
  lemma LocateInvertsFlatten(d: Doc, defaultFile: string, k: nat, offset: int)
    requires Printable(d) && k < Size(d) && OnLine(d, k, offset)
    ensures var (file, line) := LocateOffset(Unlines(Flatten(d)), defaultFile, offset);
            match PlaceOf(d, 1, k)
            case Some(p) =>
              file == p.file && (LineNumber(p.body, p.at).Some? ==>
                line == LineNumber(p.body, p.at).value + Drift(p.body, p.at)
                && (line == LineNumber(p.body, p.at).value <==> Drift(p.body, p.at) == 0)
                && (NoBlockBefore(p.body, p.at) ==> line == LineNumber(p.body, p.at).value))
            case None =>
              file == defaultFile && line == k + 1 && (LineNumber(d, k).Some? ==>
                (line == LineNumber(d, k).value <==> OnlyOwnBefore(d, k)))
  {
    hide *;
    var text := Unlines(Flatten(d));
    OffsetIsOnFlatLine(d, k, offset);
    FlattenedScan(d);
    PlaceIsInnermost(d, 1, k);
    SortKeepsRegions(RegionsOf(d, 1));
    var p := PlaceOf(d, 1, k);
    SortedInnermost(RegionsOf(d, 1), k + 1, p);
    LocateUnfolds(text, defaultFile, offset);
    if p.Some? {
      CountInPlace(d, 1, false, k);
      if LineNumber(p.value.body, p.value.at).Some? {
        OwnLinesCountNumbers(p.value.body, p.value.at);
      }
    } else if LineNumber(d, k).Some? {
      TopLineNumber(d, k);
    }
  }

  /** A file that includes a file of two lines and has a line of its own behind that. */
  function TwoLinesNested(file: string, nested: string, a: string, b: string, c: string): Doc {
    Inlined(file, Inlined(nested, Own(a, Own(b, Nothing)), Own(c, Nothing)), Nothing)
  }

  lemma NestedShape(file: string, nested: string, a: string, b: string, c: string)
    ensures var d := TwoLinesNested(file, nested, a, b, c);
            && Size(d) == 7 && PlaceOf(d, 1, 5).Some? && PlaceOf(d, 1, 5).value.file == file
            && LineNumber(PlaceOf(d, 1, 5).value.body, PlaceOf(d, 1, 5).value.at) == Some(2)
            && Drift(PlaceOf(d, 1, 5).value.body, PlaceOf(d, 1, 5).value.at) == 1
  {
    var inner := Own(a, Own(b, Nothing));
    var body := Inlined(nested, inner, Own(c, Nothing));
    assert Size(Own(b, Nothing)) == 1 && Size(Own(c, Nothing)) == 1;
    assert Size(inner) == 2;
    assert Size(body) == 5;
    hide Flatten;
    assert OwnLines(inner, 2) == 1 + OwnLines(Own(b, Nothing), 1) == 2;
    assert PlaceOf(body, 2, 4) == PlaceOf(Own(c, Nothing), 6, 0) == None;
    assert Drift(body, 4) == 1 + Drift(Own(c, Nothing), 0);
    assert LineNumber(body, 4) == Later(LineNumber(Own(c, Nothing), 0));
  }

  /** The line behind the nested block is the second one of its file, but is located at line 3. */
  lemma NestedLinesShiftNumbers(file: string, nested: string, a: string, b: string, c: string, defaultFile: string,
                                offset: int)
    requires Printable(TwoLinesNested(file, nested, a, b, c)) && Size(TwoLinesNested(file, nested, a, b, c)) == 7
    requires OnLine(TwoLinesNested(file, nested, a, b, c), 5, offset)
    ensures var d := TwoLinesNested(file, nested, a, b, c);
            && LocateOffset(Unlines(Flatten(d)), defaultFile, offset) == (file, 3)
            && PlaceOf(d, 1, 5).Some? && PlaceOf(d, 1, 5).value.file == file
            && LineNumber(PlaceOf(d, 1, 5).value.body, PlaceOf(d, 1, 5).value.at) == Some(2)
  {
    hide *;
    NestedShape(file, nested, a, b, c);
    LocateInvertsFlatten(TwoLinesNested(file, nested, a, b, c), defaultFile, 5, offset);
  }

  /** Such files exist. */
  lemma NestedLinesArePrintable()
    ensures Printable(TwoLinesNested("x.tex", "y.tex", "a", "b", "c"))
    ensures Flatten(TwoLinesNested("x.tex", "y.tex", "a", "b", "c"))
         == [INLINED + "x.tex", INLINED + "y.tex", "a", "b", END + "y.tex", "c", END + "x.tex"]
  {
    LetterIsPlain("a");
    LetterIsPlain("b");
    LetterIsPlain("c");
    hide IsOpening, IsClosing, IsNote;
    var inner := Own("a", Own("b", Nothing));
    assert Flatten(inner) == ["a"] + (["b"] + []) == ["a", "b"];
    assert Flatten(Inlined("y.tex", inner, Own("c", Nothing))) == [INLINED + "y.tex", "a", "b", END + "y.tex", "c"];
  }

  lemma LetterIsPlain(l: string)
    requires |l| == 1 && 'a' <= l[0] <= 'z'
    ensures (forall f :: !IsOpening(l, f) && !IsClosing(l, f)) && !IsNote(l)
  {
    ClassifyMeans(l);
    assert !(INLINED <= l) && !(END <= l);
    assert TrimLeft(l) == l;
    assert !(MISSING <= l) && !(CYCLE <= l);
  }

  lemma LocateUnfolds(text: string, defaultFile: string, offset: int)
    ensures LocateOffset(text, defaultFile, offset)
         == match Innermost(Regions(text), FlatLine(text, offset))
            case None => (defaultFile, FlatLine(text, offset))
            case Some(r) =>
              var orig := FlatLine(text, offset) - r.start
                          - CountBetween(ScanText(text).synthetic, r.start, FlatLine(text, offset));
              (r.file, if orig < 1 then 1 else orig)
  {
  }

  /** Sorting does not change which region the search picks. */
  lemma SortedInnermost(rs: seq<Region>, line: nat, p: Option<Place>)
    requires IsInnermost(rs, line, p)
    ensures match p
            case None => Innermost(SortByStart(rs), line) == None
            case Some(x) =>
              var r := Innermost(SortByStart(rs), line);
              r.Some? && r.value.file == x.file && r.value.start == x.start
  {
    SortKeepsRegions(rs);
    var sorted := SortByStart(rs);
    forall q ensures q in sorted <==> q in rs {
      assert q in multiset(sorted) <==> q in multiset(rs);
    }
    InnermostCovers(sorted, line);
  }

  // Texts that do not come from the flattener

  /** Neither a note nor a marker of the end of some other block. */
  ghost predicate IsContent(line: string) {
    !IsNote(line) && forall f :: !IsClosing(line, f)
  }

  ghost function ContentLines(ls: seq<string>): nat {
    if ls == [] then 0 else ContentLines(ls[1..]) + if IsContent(ls[0]) then 1 else 0
  }

  /** No further block is opened, and the one of the file is not closed. */
  ghost predicate StaysOpen(ls: seq<string>, file: string) {
    forall l :: l in ls ==> '\n' !in l && !IsClosing(l, file) && forall f :: !IsOpening(l, f)
  }

  function Extras(ls: seq<string>, idx: nat): seq<nat> {
    if ls == [] then [] else (if Classify(ls[0]).Plain? then [] else [idx]) + Extras(ls[1..], idx + 1)
  }

  lemma StepInOpenBlock(st: Scan, idx: nat, line: string, file: string, start: nat)
    requires st.stack == [Open(file, start)] && StaysOpen([line], file)
    ensures Step(st, idx, Classify(line))
         == st.(synthetic := st.synthetic + if Classify(line).Plain? then [] else [idx])
    ensures Classify(line).Plain? <==> IsContent(line)
  {
    ClassifyMeans(line);
    assert line in [line];
    hide Classify, IsOpening, IsClosing, IsNote;
  }

  lemma {:induction false} ScanOpenBlock(st: Scan, idx: nat, ls: seq<string>, file: string, start: nat)
    requires st.stack == [Open(file, start)] && StaysOpen(ls, file)
    ensures ScanFrom(st, idx, ls) == st.(synthetic := st.synthetic + Extras(ls, idx))
    decreases |ls|
  {
    hide Step, Classify, IsOpening, IsClosing;
    if ls != [] {
      assert ls == [ls[0]] + ls[1..];
      StepInOpenBlock(st, idx, ls[0], file, start);
      ScanLine(st, idx, ls[0], ls[1..]);
      ScanOpenBlock(Step(st, idx, Classify(ls[0])), idx + 1, ls[1..], file, start);
    }
  }

  lemma {:induction false} CountExtras(ls: seq<string>, file: string, idx: nat, lo: nat, k: nat)
    requires StaysOpen(ls, file) && lo < idx && k <= |ls|
    ensures CountBetween(Extras(ls, idx), lo, idx + k - 1) + ContentLines(ls[..k]) == k
    decreases |ls|
  {
    hide Classify, IsOpening, IsClosing, IsNote, IsContent, CountBetween;
    if k == 0 {
      ExtrasBounds(ls, idx);
      forall i | 0 <= i < |Extras(ls, idx)| ensures Extras(ls, idx)[i] >= idx {
        assert Extras(ls, idx)[i] in Extras(ls, idx);
      }
      NoneBetween(Extras(ls, idx), lo, idx - 1);
    } else {
      assert ls == [ls[0]] + ls[1..];
      StepInOpenBlock(Scan([Open(file, 0)], [], []), idx, ls[0], file, 0);
      CountExtras(ls[1..], file, idx + 1, lo, k - 1);
      assert ls[..k][1..] == ls[1..][..k - 1];
      CountConcat(if Classify(ls[0]).Plain? then [] else [idx], Extras(ls[1..], idx + 1), lo, idx + k - 1);
      CountOne(idx, lo, idx + k - 1);
      NoneBetween([], lo, idx + k - 1);
    }
  }

  lemma {:induction false} ExtrasBounds(ls: seq<string>, idx: nat)
    ensures forall n :: n in Extras(ls, idx) ==> n >= idx
    decreases |ls|
  {
    hide Classify;
    if ls != [] {
      ExtrasBounds(ls[1..], idx + 1);
    }
  }

  /** A block that is never closed reaches to the end of the text: its lines are located in its file, numbered without
      notes and without end markers of other files, which close nothing. */
  lemma OpenBlockReachesEnd(file: string, ls: seq<string>, defaultFile: string, k: nat, offset: int)
    requires IsOpening("% [flatten-tex.py] inlined: " + file, file) && '\n' !in file && StaysOpen(ls, file)
    requires 1 <= k <= |ls|
    requires FlatLine(Unlines(["% [flatten-tex.py] inlined: " + file] + ls), offset) == k + 1
    ensures LocateOffset(Unlines(["% [flatten-tex.py] inlined: " + file] + ls), defaultFile, offset)
         == (file, if ContentLines(ls[..k]) < 1 then 1 else ContentLines(ls[..k]))
  {
    hide *;
    var first := INLINED + file;
    assert first == "% [flatten-tex.py] inlined: " + file by {
      InlinedText(file);
    }
    var text := Unlines([first] + ls);
    var st := Scan([Open(file, 1)], [], []);
    OpenBlockLines(file, ls);
    OpenBlockScan(file, ls);
    OpenBlockRegion(file, ls, text, k + 1);
    CountExtras(ls, file, 2, 1, k);
    LocateUnfolds(text, defaultFile, offset);
  }

  lemma InlinedText(file: string)
    ensures INLINED + file == "% [flatten-tex.py] inlined: " + file
  {
  }

  lemma OpenBlockLines(file: string, ls: seq<string>)
    requires '\n' !in file && StaysOpen(ls, file)
    ensures Lines(Unlines([INLINED + file] + ls)) == [INLINED + file] + ls
  {
    NoBreakInMarkers();
    hide IsOpening, IsClosing;
    forall l | l in [INLINED + file] + ls ensures '\n' !in l {
      assert l == INLINED + file || l in ls;
    }
    LinesOfUnlines([INLINED + file] + ls);
  }

  lemma OpenBlockScan(file: string, ls: seq<string>)
    requires IsOpening(INLINED + file, file) && StaysOpen(ls, file)
    ensures ScanFrom(Scan([], [], []), 1, [INLINED + file] + ls) == Scan([Open(file, 1)], [], Extras(ls, 2))
  {
    ClassifyMeans(INLINED + file);
    assert Classify(INLINED + file) == Opens(file);
    hide Classify, IsOpening, IsClosing, StaysOpen, Extras, ScanFrom;
    assert [] + [Open(file, 1)] == [Open(file, 1)];
    assert Step(Scan([], [], []), 1, Opens(file)) == Scan([Open(file, 1)], [], []);
    ScanLine(Scan([], [], []), 1, INLINED + file, ls);
    ScanOpenBlock(Scan([Open(file, 1)], [], []), 2, ls, file, 1);
    assert [] + Extras(ls, 2) == Extras(ls, 2);
  }

  lemma OpenBlockRegion(file: string, ls: seq<string>, text: string, line: nat)
    requires Lines(text) == [INLINED + file] + ls && 2 <= line <= |ls| + 1
    requires ScanFrom(Scan([], [], []), 1, [INLINED + file] + ls) == Scan([Open(file, 1)], [], Extras(ls, 2))
    ensures ScanText(text).synthetic == Extras(ls, 2)
    ensures Innermost(Regions(text), line) == Some(Region(file, 1, |ls| + 1))
  {
    hide ScanFrom, Lines, Extras;
    var st := ScanText(text);
    var r := Region(file, 1, |ls| + 1);
    assert st.stack[..|st.stack| - 1] == [];
    assert CloseAll(st, |ls| + 1) == [r];
    assert [r][..0] == [];
    assert SortByStart([r]) == [r];
    assert Innermost([], line) == None;
  }
}

/** How a continuity pack is cut into lines (`split_inject_lines`, src/continuity.rs). */
module InjectLines {
  import opened Ordering
  import opened Text

  datatype InjectLine = InjectLine(section: string, line: string, claim: bool, protect: bool, heading: bool,
                                   nowFloor: bool)

  /** What the splitting loop carries from line to line. */
  datatype SplitState = SplitState(section: string, claim: bool, protect: bool, floorUsed: nat)

  const START := SplitState("", false, false, 0)

  /** Length of the first line, its newline included. */
  function LineLength(s: string): (n: nat)
    ensures n <= |s| && (s != [] ==> n > 0)
    ensures forall i :: 0 <= i < n - 1 ==> s[i] != '\n'
    ensures n < |s| ==> s[n - 1] == '\n'
  {
    if s == [] then 0
    else if s[0] == '\n' then 1
    else 1 + LineLength(s[1..])
  }

  function SplitInclusive(s: string): seq<string>
    decreases |s|
  {
    if s == [] then [] else [s[..LineLength(s)]] + SplitInclusive(s[LineLength(s)..])
  }

  function Join(pieces: seq<string>): string {
    if pieces == [] then [] else pieces[0] + Join(pieces[1..])
  }

  function TrimNewlines(s: string): string {
    if s != [] && (s[|s| - 1] == '\n' || s[|s| - 1] == '\r') then TrimNewlines(s[..|s| - 1]) else s
  }

  function TrimStartMatches(s: string, pat: string): string
    requires pat != []
  {
    if StartsWith(s, pat) then TrimStartMatches(s[|pat|..], pat) else s
  }

  function SectionKey(heading: string): string {
    if StartsWith(heading, "INDEX HEALTH") then "INDEX HEALTH"
    else if StartsWith(heading, "DECISIONS") then "DECISIONS"
    else if StartsWith(heading, "SOURCES") then "SOURCES"
    else if StartsWith(heading, "HONESTY") then "HONESTY"
    else if StartsWith(heading, "PEERS") then "PEERS"
    else if StartsWith(heading, "TASKS") then "TASKS"
    else if StartsWith(heading, "NOW") then "NOW"
    else heading
  }

  predicate ClaimSection(section: string) {
    section == "NOW" || section == "PEERS" || section == "DECISIONS" || section == "TASKS"
  }

  predicate ProtectedSection(section: string) { section == "SOURCES" || section == "INDEX HEALTH" }

  predicate Addressed(section: string) { StartsWith(section, "ADDRESSED TO") }

  predicate HonestyHead(section: string, body: string) {
    || (section == "" && StartsWith(body, "# "))
    || (section == "HONESTY"
        && (StartsWith(body, "window:") || StartsWith(body, "unbounded history:") || StartsWith(body, "labels:")))
  }

  /** The state a heading leaves behind. */
  function Enter(st: SplitState, body: string): SplitState {
    if StartsWith(body, "## ") then
      var section := SectionKey(TrimStartMatches(body, "## "));
      SplitState(section, ClaimSection(section), ProtectedSection(section), st.floorUsed)
    else st
  }

  /** One line of the loop: its record and the state after it. */
  function Classify(st0: SplitState, piece: string, floor: nat): (InjectLine, SplitState) {
    var body := TrimNewlines(piece);
    var heading := StartsWith(body, "## ");
    var st := Enter(st0, body);
    var nowFloor := st.section == "NOW" && !heading && !Blank(body) && st.floorUsed < floor;
    var used := if nowFloor then st.floorUsed + 1 else st.floorUsed;
    var newest := nowFloor && used == 1;
    (InjectLine(st.section, piece, st.claim, st.protect || newest || HonestyHead(st.section, body), heading, nowFloor),
     st.(floorUsed := used))
  }

  function Lines(pieces: seq<string>, st: SplitState, floor: nat): (r: seq<InjectLine>)
    ensures |r| == |pieces|
  {
    if pieces == [] then []
    else
      var (line, st') := Classify(st, pieces[0], floor);
      [line] + Lines(pieces[1..], st', floor)
  }

  /** The lines of a pack. */
  function SplitLines(out: string, floor: nat): seq<InjectLine> {
    Lines(SplitInclusive(out), START, floor)
  }

  method SplitInjectLines(out: string, floor: nat) returns (lines: seq<InjectLine>)
    ensures lines == SplitLines(out, floor)
  {
    hide Classify;
    var pieces := SplitInclusive(out);
    lines := [];
    var st := START;
    for i := 0 to |pieces|
      invariant lines + Lines(pieces[i..], st, floor) == Lines(pieces, START, floor)
    {
      assert pieces[i..][0] == pieces[i] && pieces[i..][1..] == pieces[i + 1..];
      var (line, st') := Classify(st, pieces[i], floor);
      assert lines + ([line] + Lines(pieces[i + 1..], st', floor)) == (lines + [line]) + Lines(pieces[i + 1..], st', floor);
      lines := lines + [line];
      st := st';
    }
    assert pieces[|pieces|..] == [];
  }

  function Texts(lines: seq<InjectLine>): seq<string> {
    Map((l: InjectLine) => l.line, lines)
  }

  lemma {:induction false} PiecesJoin(s: string)
    ensures Join(SplitInclusive(s)) == s
    decreases |s|
  {
    if s != [] {
      PiecesJoin(s[LineLength(s)..]);
      assert s == s[..LineLength(s)] + s[LineLength(s)..];
      assert SplitInclusive(s)[1..] == SplitInclusive(s[LineLength(s)..]);
    }
  }

  lemma {:induction false} LinesKeepText(pieces: seq<string>, st: SplitState, floor: nat)
    ensures Texts(Lines(pieces, st, floor)) == pieces
    decreases |pieces|
  {
    hide Enter;
    if pieces != [] {
      var (line, st') := Classify(st, pieces[0], floor);
      LinesKeepText(pieces[1..], st', floor);
      assert Lines(pieces, st, floor)[1..] == Lines(pieces[1..], st', floor);
      assert Texts(Lines(pieces, st, floor)) == [pieces[0]] + Texts(Lines(pieces[1..], st', floor));
    }
  }

  // ---- Every line of a pack, said of its text and its neighbours

  /** A body line of the NOW section that is not blank. */
  predicate NowRow(l: InjectLine) { l.section == "NOW" && !l.heading && !Blank(l.line) }

  function NowRows(lines: seq<InjectLine>): (n: nat)
    ensures n <= |lines|
  {
    if lines == [] then 0
    else NowRows(lines[..|lines| - 1]) + (if NowRow(lines[|lines| - 1]) then 1 else 0)
  }

  function FloorLines(lines: seq<InjectLine>): (n: nat)
    ensures n <= |lines|
  {
    if lines == [] then 0
    else FloorLines(lines[..|lines| - 1]) + (if lines[|lines| - 1].nowFloor then 1 else 0)
  }

  const NAMES := ["INDEX HEALTH", "DECISIONS", "SOURCES", "HONESTY", "PEERS", "TASKS", "NOW"]

  function Marks(k: nat): string { if k == 0 then "" else "## " + Marks(k - 1) }

  predicate LineEnds(s: string) { forall c :: c in s ==> c == '\n' || c == '\r' }

  /** A heading line: marks, a title that starts with none and ends in no line end, and line ends. */
  predicate Titled(line: string, marks: nat, title: string, ends: string) {
    && marks > 0 && line == Marks(marks) + title + ends && LineEnds(ends) && !("## " <= title)
    && (title == "" || (title[|title| - 1] != '\n' && title[|title| - 1] != '\r'))
  }

  /** A section goes by the listed name its title starts with, else by the whole title. */
  ghost predicate Named(title: string, section: string) {
    && (forall i :: 0 <= i < |NAMES| && NAMES[i] <= title ==> section == NAMES[i])
    && ((forall i :: 0 <= i < |NAMES| ==> !(NAMES[i] <= title)) ==> section == title)
  }

  /** The flags of a line of section `l.section`, when `before` says how many NOW rows come before it. */
  ghost predicate FlagsMean(l: InjectLine, before: nat, floor: nat) {
    && (l.heading <==> "## " <= l.line)
    && (l.claim <==> l.section == "NOW" || l.section == "PEERS" || l.section == "DECISIONS" || l.section == "TASKS")
    && (l.nowFloor <==> NowRow(l) && before < floor)
    && (l.protect
        <==> || l.section == "SOURCES" || l.section == "INDEX HEALTH"
             || (NowRow(l) && before == 0 && floor > 0)
             || (l.section == "" && "# " <= l.line)
             || (l.section == "HONESTY"
                 && ("window:" <= l.line || "unbounded history:" <= l.line || "labels:" <= l.line)))
  }

  /** A heading line names its section; any other line is of the section of the line before it. */
  ghost predicate SectionMeans(l: InjectLine, before: string) {
    if "## " <= l.line then
      exists marks, title, ends :: Titled(l.line, marks, title, ends) && Named(title, l.section)
    else l.section == before
  }

  lemma {:induction false} TrimKeepsPrefix(p: string, s: string)
    requires forall c :: c in p ==> c != '\n' && c != '\r'
    ensures p <= TrimNewlines(s) <==> p <= s
    decreases |s|
  {
    if s != [] && (s[|s| - 1] == '\n' || s[|s| - 1] == '\r') {
      TrimKeepsPrefix(p, s[..|s| - 1]);
      var last := s[|s| - 1];
      assert last !in p && last in s;
      assert p <= s ==> p != s;
      assert s == s[..|s| - 1] + [last];
    }
  }

  lemma {:induction false} TrimLeavesEnds(s: string) returns (ends: string)
    ensures s == TrimNewlines(s) + ends && LineEnds(ends)
    ensures var body := TrimNewlines(s); body == "" || (body[|body| - 1] != '\n' && body[|body| - 1] != '\r')
    decreases |s|
  {
    if s != [] && (s[|s| - 1] == '\n' || s[|s| - 1] == '\r') {
      var inner := TrimLeavesEnds(s[..|s| - 1]);
      var last := s[|s| - 1];
      ends := inner + [last];
      assert s == s[..|s| - 1] + [last];
      assert forall c :: c in ends ==> c in inner || c == last;
    } else {
      ends := "";
    }
  }

  lemma TrimKeepsBlank(s: string)
    ensures Blank(TrimNewlines(s)) <==> Blank(s)
  {
    hide TrimNewlines;
    var ends := TrimLeavesEnds(s);
    var body := TrimNewlines(s);
    assert forall i :: 0 <= i < |body| ==> s[i] == body[i];
    assert forall i :: |body| <= i < |s| ==> s[i] == ends[i - |body|] && s[i] in ends;
  }

  lemma {:induction false} StripMarks(body: string) returns (marks: nat)
    ensures body == Marks(marks) + TrimStartMatches(body, "## ")
    ensures !("## " <= TrimStartMatches(body, "## ")) && (marks > 0 <==> "## " <= body)
    decreases |body|
  {
    if "## " <= body {
      var inner := StripMarks(body[3..]);
      marks := inner + 1;
      assert body == "## " + body[3..];
    } else {
      marks := 0;
    }
  }

  lemma SectionKeyIsNamed(title: string)
    ensures Named(title, SectionKey(title))
  {
    assert forall i :: 0 <= i < |NAMES| && NAMES[i] <= title ==> title[0] == NAMES[i][0];
    assert NAMES[0] == "INDEX HEALTH" && NAMES[1] == "DECISIONS" && NAMES[2] == "SOURCES" && NAMES[3] == "HONESTY";
    assert NAMES[4] == "PEERS" && NAMES[5] == "TASKS" && NAMES[6] == "NOW";
  }

  lemma HeadingNames(piece: string)
    requires "## " <= piece
    ensures exists marks, title, ends ::
              Titled(piece, marks, title, ends) && Named(title, SectionKey(TrimStartMatches(TrimNewlines(piece), "## ")))
  {
    TrimKeepsPrefix("## ", piece);
    hide TrimNewlines, TrimStartMatches, SectionKey, Named;
    var body := TrimNewlines(piece);
    var ends := TrimLeavesEnds(piece);
    var marks := StripMarks(body);
    var title := TrimStartMatches(body, "## ");
    SectionKeyIsNamed(title);
    if title != "" { assert title[|title| - 1] == body[|body| - 1]; }
    assert Titled(piece, marks, title, ends);
  }

  /** The state of the loop after lines with this last section and this many NOW rows. */
  ghost predicate StateMeans(st: SplitState, section: string, rows: nat, floor: nat) {
    && st.section == section
    && (st.claim <==> section == "NOW" || section == "PEERS" || section == "DECISIONS" || section == "TASKS")
    && (st.protect <==> section == "SOURCES" || section == "INDEX HEALTH")
    && st.floorUsed == if rows < floor then rows else floor
  }

  lemma EnterMeans(st: SplitState, piece: string, floor: nat, before: string, rows: nat)
    requires StateMeans(st, before, rows, floor)
    ensures var next := Enter(st, TrimNewlines(piece));
            && StateMeans(next, next.section, rows, floor)
            && (if "## " <= piece then
                  exists marks, title, ends :: Titled(piece, marks, title, ends) && Named(title, next.section)
                else next.section == before)
  {
    TrimKeepsPrefix("## ", piece);
    if "## " <= piece { HeadingNames(piece); }
    hide TrimNewlines, TrimStartMatches, SectionKey, Titled, Named;
  }

  lemma HonestyMeans(section: string, piece: string)
    ensures HonestyHead(section, TrimNewlines(piece))
            <==> || (section == "" && "# " <= piece)
                 || (section == "HONESTY"
                     && ("window:" <= piece || "unbounded history:" <= piece || "labels:" <= piece))
  {
    TrimKeepsPrefix("# ", piece);
    TrimKeepsPrefix("window:", piece);
    TrimKeepsPrefix("unbounded history:", piece);
    TrimKeepsPrefix("labels:", piece);
    hide TrimNewlines;
  }

  lemma ClassifyMeans(st: SplitState, piece: string, floor: nat, before: string, rows: nat)
    requires StateMeans(st, before, rows, floor)
    ensures var (l, next) := Classify(st, piece, floor);
            && l.line == piece && SectionMeans(l, before) && FlagsMean(l, rows, floor)
            && StateMeans(next, l.section, if NowRow(l) then rows + 1 else rows, floor)
  {
    EnterMeans(st, piece, floor, before, rows);
    TrimKeepsPrefix("## ", piece);
    TrimKeepsBlank(piece);
    HonestyMeans(Enter(st, TrimNewlines(piece)).section, piece);
    hide TrimNewlines, Enter, HonestyHead, Blank, Titled, Named;
  }

  /** The first lines of a split and the state after them. */
  ghost function StateAfter(pieces: seq<string>, st: SplitState, floor: nat): SplitState {
    if pieces == [] then st else StateAfter(pieces[1..], Classify(st, pieces[0], floor).1, floor)
  }

  lemma {:induction false} LinesAppend(a: seq<string>, b: seq<string>, st: SplitState, floor: nat)
    ensures Lines(a + b, st, floor) == Lines(a, st, floor) + Lines(b, StateAfter(a, st, floor), floor)
    ensures StateAfter(a + b, st, floor) == StateAfter(b, StateAfter(a, st, floor), floor)
  {
    hide Classify;
    if a == [] {
      assert a + b == b;
    } else {
      assert (a + b)[0] == a[0] && (a + b)[1..] == a[1..] + b;
      LinesAppend(a[1..], b, Classify(st, a[0], floor).1, floor);
    }
  }

  ghost predicate LinesMean(lines: seq<InjectLine>, floor: nat) {
    forall i :: 0 <= i < |lines| ==>
      && SectionMeans(lines[i], LastSection(lines[..i]))
      && FlagsMean(lines[i], NowRows(lines[..i]), floor)
  }

  function LastSection(lines: seq<InjectLine>): string {
    if lines == [] then "" else lines[|lines| - 1].section
  }

  lemma {:induction false} EveryLineMeans(pieces: seq<string>, floor: nat)
    ensures var lines := Lines(pieces, START, floor);
            && LinesMean(lines, floor)
            && StateMeans(StateAfter(pieces, START, floor), LastSection(lines), NowRows(lines), floor)
            && FloorLines(lines) == if NowRows(lines) < floor then NowRows(lines) else floor
    decreases |pieces|
  {
    hide SectionMeans, FlagsMean, NowRow, Classify, Lines, StateAfter;
    if pieces == [] {
      NoLines(floor);
    } else {
      var n := |pieces| - 1;
      var before, piece := pieces[..n], pieces[n];
      assert pieces == before + [piece];
      EveryLineMeans(before, floor);
      LinesAppend(before, [piece], START, floor);
      var st, lines := StateAfter(before, START, floor), Lines(before, START, floor);
      OneLine(piece, st, floor);
      ClassifyMeans(st, piece, floor, LastSection(lines), NowRows(lines));
      var (l, next) := Classify(st, piece, floor);
      OneMoreLine(lines, l, floor);
    }
  }

  lemma OneMoreLine(lines: seq<InjectLine>, l: InjectLine, floor: nat)
    requires LinesMean(lines, floor)
    requires SectionMeans(l, LastSection(lines)) && FlagsMean(l, NowRows(lines), floor)
    ensures LinesMean(lines + [l], floor) && LastSection(lines + [l]) == l.section
    ensures NowRows(lines + [l]) == NowRows(lines) + if NowRow(l) then 1 else 0
    ensures FloorLines(lines + [l]) == FloorLines(lines) + if NowRow(l) && NowRows(lines) < floor then 1 else 0
  {
    var all, n := lines + [l], |lines|;
    assert all[..n] == lines;
    assert l.nowFloor <==> NowRow(l) && NowRows(lines) < floor;
    hide SectionMeans, FlagsMean, NowRow, FloorLines;
    forall i | 0 <= i < |all|
      ensures SectionMeans(all[i], LastSection(all[..i])) && FlagsMean(all[i], NowRows(all[..i]), floor)
    {
      if i < n { assert all[..i] == lines[..i] && all[i] == lines[i]; }
    }
  }

  lemma NoLines(floor: nat)
    ensures Lines([], START, floor) == [] && StateAfter([], START, floor) == START
  {
  }

  lemma OneLine(piece: string, st: SplitState, floor: nat)
    ensures Lines([piece], st, floor) == [Classify(st, piece, floor).0]
    ensures StateAfter([piece], st, floor) == Classify(st, piece, floor).1
  {
    hide Classify;
    assert [piece][1..] == [];
    assert Lines([], Classify(st, piece, floor).1, floor) == [];
  }

  /** What every line of a split is, said of its text and the lines before it. A heading line names its section and
      any other stays in it; claim lines and protected lines are those of the listed sections; the first `floor` rows
      of NOW are its floor, and there are as many as that allows; the first of them is protected, and so are the pack
      title and the head of HONESTY. */
  lemma SplitMeans(out: string, floor: nat, i: nat)
    requires i < |SplitLines(out, floor)|
    ensures var lines := SplitLines(out, floor);
            var l, before := lines[i], NowRows(lines[..i]);
            && SectionMeans(l, if i == 0 then "" else lines[i - 1].section)
            && (l.heading <==> "## " <= l.line)
            && (l.claim <==> l.section == "NOW" || l.section == "PEERS" || l.section == "DECISIONS" || l.section == "TASKS")
            && (l.nowFloor <==> l.section == "NOW" && !l.heading && !Blank(l.line) && before < floor)
            && (l.protect
                <==> || l.section == "SOURCES" || l.section == "INDEX HEALTH"
                     || (l.section == "NOW" && !l.heading && !Blank(l.line) && before == 0 && floor > 0)
                     || (l.section == "" && "# " <= l.line)
                     || (l.section == "HONESTY"
                         && ("window:" <= l.line || "unbounded history:" <= l.line || "labels:" <= l.line)))
            && FloorLines(lines) == if NowRows(lines) < floor then NowRows(lines) else floor
  {
    hide Lines, SectionMeans, FlagsMean, NowRows, FloorLines, SplitInclusive, Blank;
    EveryLineMeans(SplitInclusive(out), floor);
    var lines := SplitLines(out, floor);
    assert SectionMeans(lines[i], LastSection(lines[..i])) && FlagsMean(lines[i], NowRows(lines[..i]), floor);
    FlagsUnfold(lines[i], NowRows(lines[..i]), floor);
  }

  lemma FlagsUnfold(l: InjectLine, before: nat, floor: nat)
    requires FlagsMean(l, before, floor)
    ensures l.heading <==> "## " <= l.line
    ensures l.claim <==> l.section == "NOW" || l.section == "PEERS" || l.section == "DECISIONS" || l.section == "TASKS"
    ensures l.nowFloor <==> l.section == "NOW" && !l.heading && !Blank(l.line) && before < floor
    ensures l.protect
            <==> || l.section == "SOURCES" || l.section == "INDEX HEALTH"
                 || (l.section == "NOW" && !l.heading && !Blank(l.line) && before == 0 && floor > 0)
                 || (l.section == "" && "# " <= l.line)
                 || (l.section == "HONESTY"
                     && ("window:" <= l.line || "unbounded history:" <= l.line || "labels:" <= l.line))
  {
    hide Blank;
  }

  /** A line ends at a line feed or at the end of the pack, and nowhere else. */
  lemma {:induction false} PiecesAreLines(s: string, i: nat)
    requires i < |SplitInclusive(s)|
    ensures var piece := SplitInclusive(s)[i];
            && piece != "" && (forall j :: 0 <= j < |piece| - 1 ==> piece[j] != '\n')
            && (i + 1 < |SplitInclusive(s)| ==> piece[|piece| - 1] == '\n')
    decreases |s|
  {
    if i > 0 { PiecesAreLines(s[LineLength(s)..], i - 1); }
  }

  lemma LineIsPiece(out: string, floor: nat, i: nat)
    requires i < |SplitLines(out, floor)|
    ensures |SplitInclusive(out)| == |SplitLines(out, floor)| && SplitLines(out, floor)[i].line == SplitInclusive(out)[i]
  {
    hide Lines;
    LinesKeepText(SplitInclusive(out), START, floor);
    assert Texts(SplitLines(out, floor))[i] == SplitLines(out, floor)[i].line;
  }

  /** The split of a pack: the lines joined are its text, and each ends at a line feed or at the end of the pack, and
      nowhere else. */
  lemma SplitKeepsText(out: string, floor: nat)
    ensures Join(Texts(SplitLines(out, floor))) == out
    ensures forall i :: 0 <= i < |SplitLines(out, floor)| ==>
              var line := SplitLines(out, floor)[i].line;
              && line != "" && (forall j :: 0 <= j < |line| - 1 ==> line[j] != '\n')
              && (i + 1 < |SplitLines(out, floor)| ==> line[|line| - 1] == '\n')
  {
    hide Lines, SplitInclusive;
    PiecesJoin(out);
    LinesKeepText(SplitInclusive(out), START, floor);
    assert forall i :: 0 <= i < |SplitLines(out, floor)| ==> SplitLines(out, floor)[i].line == SplitInclusive(out)[i] by {
      forall i | 0 <= i < |SplitLines(out, floor)| { LineIsPiece(out, floor, i); }
    }
    forall i | 0 <= i < |SplitInclusive(out)| { PiecesAreLines(out, i); }
    if SplitInclusive(out) != [] { LineIsPiece(out, floor, 0); }
  }

  /** The flags of a line agree with its section. */
  ghost predicate Sound(l: InjectLine) {
    && (l.claim <==> l.section == "NOW" || l.section == "PEERS" || l.section == "DECISIONS" || l.section == "TASKS")
    && (l.section == "SOURCES" || l.section == "INDEX HEALTH" ==> l.protect)
    && (l.nowFloor ==> l.section == "NOW" && !l.heading)
    && (l.protect ==> || l.section == "SOURCES" || l.section == "INDEX HEALTH" || l.section == ""
                      || l.section == "HONESTY" || l.nowFloor)
  }

  lemma SplitSound(out: string, floor: nat, i: nat)
    requires i < |SplitLines(out, floor)|
    ensures Sound(SplitLines(out, floor)[i])
  {
    SplitMeans(out, floor, i);
    hide SplitLines, SectionMeans, Blank;
  }
}

/** The inject budget (`bounded_inject` and the line dropper under it, src/continuity.rs).

    The dropper asks seven questions about the lines still kept, and the sixth depends on a
    count taken afresh each time. The main results say that this amounts to one fixed order of
    the lines, and that the text returned keeps as much of that order as fits. */
module InjectBudget {
  import opened Ordering
  import opened Text
  import opened InjectLines

  // ---- The five tests that look at a single line

  predicate OuterClaim(l: InjectLine) { l.claim && !l.protect && !l.nowFloor && !l.heading }

  predicate OpenWorkRow(l: InjectLine) { l.section == "OPEN WORK" && !l.heading }

  predicate Unprotected(l: InjectLine) { !l.protect && !l.nowFloor && !l.heading && !Addressed(l.section) }

  predicate AddressedRow(l: InjectLine) { Addressed(l.section) && !l.heading }

  predicate FloorLine(l: InjectLine) { l.nowFloor && !l.protect }

  predicate ProtectedBody(l: InjectLine) { l.protect && !l.heading && !Blank(l.line) }

  /** The last index below `n` that satisfies `p`. */
  function LastIndex(p: nat -> bool, n: nat): (r: Option<nat>)
    ensures r.None? ==> forall i :: 0 <= i < n ==> !p(i)
    ensures r.Some? ==> r.value < n && p(r.value) && forall i :: r.value < i < n ==> !p(i)
  {
    if n == 0 then None
    else if p(n - 1) then Some(n - 1)
    else LastIndex(p, n - 1)
  }

  /** The last kept line that satisfies `pred`. */
  function LastInjectLine(lines: seq<InjectLine>, keep: seq<bool>, pred: InjectLine -> bool): (r: Option<nat>)
    requires |keep| == |lines|
    ensures r.None? ==> forall i: nat :: i < |lines| && keep[i] ==> !pred(lines[i])
    ensures r.Some? ==> r.value < |lines| && keep[r.value] && pred(lines[r.value])
    ensures r.Some? ==> forall i: nat :: r.value < i < |lines| && keep[i] ==> !pred(lines[i])
  {
    var p := (i: nat) => i < |lines| && keep[i] && pred(lines[i]);
    assert forall i: nat :: i < |lines| && keep[i] && pred(lines[i]) ==> p(i);
    LastIndex(p, |lines|)
  }

  predicate BodyLine(lines: seq<InjectLine>, keep: seq<bool>, i: nat, section: string)
    requires |keep| == |lines| && i < |lines|
  {
    keep[i] && ProtectedBody(lines[i]) && lines[i].section == section
  }

  /** The kept non-blank protected body lines of a section among the first `n`. */
  ghost function BodyOf(lines: seq<InjectLine>, keep: seq<bool>, n: nat, section: string): set<nat>
    requires |keep| == |lines| && n <= |lines|
  {
    set i: nat | i < n && BodyLine(lines, keep, i, section)
  }

  /** A protected body line its section can spare. */
  ghost predicate Extra(lines: seq<InjectLine>, keep: seq<bool>, i: nat)
    requires |keep| == |lines|
  {
    && i < |lines| && keep[i] && lines[i].protect && !lines[i].heading
    && (Blank(lines[i].line) || |BodyOf(lines, keep, |lines|, lines[i].section)| > 1)
  }

  ghost function IsExtra(lines: seq<InjectLine>, keep: seq<bool>): nat -> bool
    requires |keep| == |lines|
  {
    (i: nat) => Extra(lines, keep, i)
  }

  ghost function LastExtra(lines: seq<InjectLine>, keep: seq<bool>): Option<nat>
    requires |keep| == |lines|
  {
    LastIndex(IsExtra(lines, keep), |lines|)
  }

  function Or(a: Option<nat>, b: Option<nat>): Option<nat> {
    if a.Some? then a else b
  }

  /** The line the next drop takes, as the source's chain of questions finds it. */
  ghost function NextDrop(lines: seq<InjectLine>, keep: seq<bool>): Option<nat>
    requires |keep| == |lines|
  {
    Or(LastInjectLine(lines, keep, OuterClaim),
    Or(LastInjectLine(lines, keep, OpenWorkRow),
    Or(LastInjectLine(lines, keep, Unprotected),
    Or(LastInjectLine(lines, keep, AddressedRow),
    Or(LastInjectLine(lines, keep, FloorLine),
    Or(LastExtra(lines, keep),
       LastInjectLine(lines, keep, (l: InjectLine) => true)))))))
  }

  method LastExtraProtectedLine(lines: seq<InjectLine>, keep: seq<bool>) returns (r: Option<nat>)
    requires |keep| == |lines|
    ensures r == LastExtra(lines, keep)
  {
    var bodyCount: map<string, nat> := map[];
    for i := 0 to |lines|
      invariant forall s :: (if s in bodyCount then bodyCount[s] else 0) == |BodyOf(lines, keep, i, s)|
    {
      var s0 := lines[i].section;
      forall s { BodyOfSnoc(lines, keep, i, s); }
      if keep[i] && lines[i].protect && !lines[i].heading && !Blank(lines[i].line) {
        bodyCount := bodyCount[s0 := (if s0 in bodyCount then bodyCount[s0] else 0) + 1];
      }
    }
    var n: nat := |lines|;
    while n > 0
      invariant n <= |lines|
      invariant LastIndex(IsExtra(lines, keep), n) == LastExtra(lines, keep)
    {
      n := n - 1;
      var l := lines[n];
      var count := if l.section in bodyCount then bodyCount[l.section] else 0;
      assert count == |BodyOf(lines, keep, |lines|, l.section)|;
      if keep[n] && l.protect && !l.heading && (Blank(l.line) || count > 1) {
        return Some(n);
      }
    }
    return None;
  }

  lemma BodyOfSnoc(lines: seq<InjectLine>, keep: seq<bool>, n: nat, s: string)
    requires |keep| == |lines| && n < |lines|
    ensures |BodyOf(lines, keep, n + 1, s)|
            == |BodyOf(lines, keep, n, s)|
               + (if BodyLine(lines, keep, n, s) then 1 else 0)
  {
    hide BodyLine;
    if BodyLine(lines, keep, n, s) {
      assert BodyOf(lines, keep, n + 1, s) == BodyOf(lines, keep, n, s) + {n};
    } else {
      assert BodyOf(lines, keep, n + 1, s) == BodyOf(lines, keep, n, s);
    }
  }

  method NextInjectDrop(lines: seq<InjectLine>, keep: seq<bool>) returns (r: Option<nat>)
    requires |keep| == |lines|
    ensures r == NextDrop(lines, keep)
  {
    r := LastInjectLine(lines, keep, OuterClaim);
    if r.Some? { return; }
    r := LastInjectLine(lines, keep, OpenWorkRow);
    if r.Some? { return; }
    r := LastInjectLine(lines, keep, Unprotected);
    if r.Some? { return; }
    r := LastInjectLine(lines, keep, AddressedRow);
    if r.Some? { return; }
    r := LastInjectLine(lines, keep, FloorLine);
    if r.Some? { return; }
    r := LastExtraProtectedLine(lines, keep);
    if r.Some? { return; }
    r := LastInjectLine(lines, keep, (l: InjectLine) => true);
  }

  // ---- The fixed order

  function Tier(l: InjectLine): (t: nat)
    ensures 1 <= t <= 6
    ensures t == 6 ==> l.heading || l.protect
  {
    if OuterClaim(l) then 1
    else if OpenWorkRow(l) then 2
    else if Unprotected(l) then 3
    else if AddressedRow(l) then 4
    else if FloorLine(l) then 5
    else 6
  }

  /** A heading, or the first non-blank protected line of its section. */
  predicate Anchor(lines: seq<InjectLine>, i: nat)
    requires i < |lines|
  {
    || lines[i].heading
    || (ProtectedBody(lines[i])
        && forall j :: 0 <= j < i ==> !(Tier(lines[j]) == 6 && ProtectedBody(lines[j])
                                        && lines[j].section == lines[i].section))
  }

  function Rank(lines: seq<InjectLine>, i: nat): nat
    requires i < |lines|
  {
    if Tier(lines[i]) < 6 then Tier(lines[i]) else if Anchor(lines, i) then 7 else 6
  }

  /** Lower rank first, and from the tail within a rank. */
  predicate GoesBefore(lines: seq<InjectLine>, i: nat, j: nat)
    requires i < |lines| && j < |lines|
  {
    Rank(lines, i) < Rank(lines, j) || (Rank(lines, i) == Rank(lines, j) && i > j)
  }

  /** Everything dropped goes before everything kept. */
  ghost predicate Frontier(lines: seq<InjectLine>, keep: seq<bool>): (r: bool)
    ensures r ==> |keep| == |lines|
  {
    && |keep| == |lines|
    && forall i: nat, j: nat :: i < |lines| && j < |lines| && !keep[i] && keep[j] ==> GoesBefore(lines, i, j)
  }

  ghost predicate First(lines: seq<InjectLine>, keep: seq<bool>, i: nat): (r: bool)
    requires |keep| == |lines|
    ensures r ==> i < |lines| && keep[i]
  {
    && i < |lines| && keep[i]
    && forall j: nat :: j < |lines| && keep[j] && j != i ==> GoesBefore(lines, i, j)
  }

  /** Each line-local question takes the first line in the order when no earlier question has an answer. */
  lemma TierDrop(lines: seq<InjectLine>, keep: seq<bool>, pred: InjectLine -> bool, t: nat)
    requires |keep| == |lines| && t <= 5
    requires forall l: InjectLine :: Tier(l) == t ==> pred(l)
    requires forall i: nat :: i < |lines| && keep[i] ==> Tier(lines[i]) >= t && (pred(lines[i]) ==> Tier(lines[i]) == t)
    ensures match LastInjectLine(lines, keep, pred)
            case Some(i) => First(lines, keep, i)
            case None => forall i: nat :: i < |lines| && keep[i] ==> Tier(lines[i]) > t
  {
    hide Tier, Anchor;
  }

  lemma {:induction false} AnchorOfSection(lines: seq<InjectLine>, i: nat) returns (a: nat)
    requires i < |lines| && Tier(lines[i]) == 6 && ProtectedBody(lines[i])
    ensures a <= i && Tier(lines[a]) == 6 && ProtectedBody(lines[a]) && lines[a].section == lines[i].section
    ensures Anchor(lines, a)
    decreases i
  {
    hide Tier, ProtectedBody;
    if Anchor(lines, i) {
      a := i;
    } else {
      var j :| 0 <= j < i && Tier(lines[j]) == 6 && ProtectedBody(lines[j]) && lines[j].section == lines[i].section;
      a := AnchorOfSection(lines, j);
    }
  }

  /** Every kept line that is not an anchor can be spared. */
  lemma SpareIsExtra(lines: seq<InjectLine>, keep: seq<bool>, i: nat)
    requires Frontier(lines, keep) && i < |lines| && keep[i] && Rank(lines, i) == 6
    ensures Extra(lines, keep, i)
  {
    var l := lines[i];
    assert Tier(l) == 6 && !l.heading && l.protect;
    if !Blank(l.line) {
      var a := AnchorOfSection(lines, i);
      assert a != i && Rank(lines, a) == 7;
      assert keep[a];
      var body := BodyOf(lines, keep, |lines|, l.section);
      assert {a, i} <= body;
      SubsetSize({a, i}, body);
    }
  }

  /** An anchor that can be spared is followed by a line that can be spared and is none. */
  lemma ExtraAnchorIsNotLast(lines: seq<InjectLine>, keep: seq<bool>, i: nat) returns (j: nat)
    requires |keep| == |lines| && Extra(lines, keep, i) && Rank(lines, i) == 7
    requires forall k: nat :: k < |lines| && keep[k] ==> Tier(lines[k]) == 6
    ensures i < j < |lines| && keep[j] && Rank(lines, j) == 6
  {
    var body := BodyOf(lines, keep, |lines|, lines[i].section);
    assert ProtectedBody(lines[i]);
    assert i in body;
    assert |body - {i}| == |body| - 1;
    j :| j in body - {i};
    assert !(j < i);
    assert !Anchor(lines, j);
  }

  /** Once only protected lines and headings are left, the last two questions follow the order too. */
  lemma ExtraDrop(lines: seq<InjectLine>, keep: seq<bool>)
    requires Frontier(lines, keep)
    requires forall i: nat :: i < |lines| && keep[i] ==> Tier(lines[i]) == 6
    ensures match Or(LastExtra(lines, keep), LastInjectLine(lines, keep, (l: InjectLine) => true))
            case Some(i) => First(lines, keep, i)
            case None => forall i: nat :: i < |lines| ==> !keep[i]
  {
    hide Tier, Anchor;
    var p := IsExtra(lines, keep);
    forall i: nat | i < |lines| && keep[i] && Rank(lines, i) == 6
      ensures p(i)
    {
      SpareIsExtra(lines, keep, i);
    }
    match LastIndex(p, |lines|)
    case Some(i) =>
      if Rank(lines, i) == 7 {
        var j := ExtraAnchorIsNotLast(lines, keep, i);
      }
    case None =>
      assert forall i: nat :: i < |lines| && keep[i] ==> Rank(lines, i) == 7;
  }

  /** The seven questions and their fresh counts find the first kept line of one fixed order. */
  lemma NextDropIsFirst(lines: seq<InjectLine>, keep: seq<bool>)
    requires Frontier(lines, keep)
    ensures match NextDrop(lines, keep)
            case Some(i) => First(lines, keep, i)
            case None => forall i: nat :: i < |lines| ==> !keep[i]
  {
    hide LastInjectLine, LastExtra, First, Frontier;
    TierDrop(lines, keep, OuterClaim, 1);
    if LastInjectLine(lines, keep, OuterClaim).None? {
      TierDrop(lines, keep, OpenWorkRow, 2);
      if LastInjectLine(lines, keep, OpenWorkRow).None? {
        TierDrop(lines, keep, Unprotected, 3);
        if LastInjectLine(lines, keep, Unprotected).None? {
          TierDrop(lines, keep, AddressedRow, 4);
          if LastInjectLine(lines, keep, AddressedRow).None? {
            TierDrop(lines, keep, FloorLine, 5);
            if LastInjectLine(lines, keep, FloorLine).None? {
              ExtraDrop(lines, keep);
            }
          }
        }
      }
    }
  }

  ghost predicate Within(a: seq<bool>, b: seq<bool>) {
    |a| == |b| && forall i :: 0 <= i < |a| && a[i] ==> b[i]
  }

  /** The states the dropper can reach form a chain. */
  lemma FrontiersNest(lines: seq<InjectLine>, a: seq<bool>, b: seq<bool>)
    requires Frontier(lines, a) && Frontier(lines, b)
    ensures Within(a, b) || Within(b, a)
  {
    hide Rank;
    if !Within(a, b) && !Within(b, a) {
      var i: nat :| i < |a| && a[i] && !b[i];
      var j: nat :| j < |b| && b[j] && !a[j];
    }
  }

  lemma DropKeepsFrontier(lines: seq<InjectLine>, keep: seq<bool>, i: nat)
    requires Frontier(lines, keep) && First(lines, keep, i)
    ensures Frontier(lines, keep[i := false])
  {
    hide GoesBefore;
  }

  /** No reachable state lies strictly between a state and the next one. */
  lemma NothingBetween(lines: seq<InjectLine>, keep: seq<bool>, i: nat, other: seq<bool>)
    requires Frontier(lines, keep) && First(lines, keep, i) && Frontier(lines, other)
    requires Within(other, keep) && !Within(other, keep[i := false])
    ensures other == keep
  {
    hide Rank;
    assert other[i];
    forall j: nat | j < |keep| && keep[j]
      ensures other[j]
    {
      assert j != i ==> GoesBefore(lines, i, j);
      assert j != i ==> !GoesBefore(lines, j, i);
    }
  }

  // ---- The omission marker

  predicate CountsDroppedRows(section: string) { section == "OPEN WORK" || Addressed(section) }

  /** A dropped non-blank line of a named section. */
  predicate Lost(lines: seq<InjectLine>, keep: seq<bool>, i: nat)
    requires |keep| == |lines| && i < |lines|
  {
    !keep[i] && lines[i].section != "" && !Blank(lines[i].line)
  }

  function Names(lines: seq<InjectLine>, keep: seq<bool>, n: nat): seq<string>
    requires |keep| == |lines| && n <= |lines|
  {
    if n == 0 then []
    else
      var names := Names(lines, keep, n - 1);
      if Lost(lines, keep, n - 1) && lines[n - 1].section !in names then names + [lines[n - 1].section] else names
  }

  predicate LostRow(lines: seq<InjectLine>, keep: seq<bool>, i: nat, section: string)
    requires |keep| == |lines| && i < |lines|
  {
    Lost(lines, keep, i) && !lines[i].heading && lines[i].section == section
  }

  ghost function LostRows(lines: seq<InjectLine>, keep: seq<bool>, n: nat, section: string): set<nat>
    requires |keep| == |lines| && n <= |lines|
  {
    set i: nat | i < n && LostRow(lines, keep, i, section)
  }

  function Label(name: string, rows: nat): (r: string)
    ensures name <= r
  {
    if rows == 0 then name else name + " (" + Decimal(rows) + " " + (if rows == 1 then "row" else "rows") + ")"
  }

  ghost function RowDrops(lines: seq<InjectLine>, keep: seq<bool>, section: string): nat
    requires |keep| == |lines|
  {
    if CountsDroppedRows(section) then |LostRows(lines, keep, |lines|, section)| else 0
  }

  ghost function Shortened(lines: seq<InjectLine>, keep: seq<bool>): seq<string>
    requires |keep| == |lines|
  {
    var names := Names(lines, keep, |lines|);
    seq(|names|, i requires 0 <= i < |names| => Label(names[i], RowDrops(lines, keep, names[i])))
  }

  function CommaJoin(names: seq<string>): string {
    if names == [] then [] else if |names| == 1 then names[0] else names[0] + ", " + CommaJoin(names[1..])
  }

  function InjectOmissionMarker(shortened: seq<string>): string {
    if shortened == [] then
      "\n[continuity pack truncated at inject budget; content omitted; claim lines retained whole]\n"
    else
      "\n[continuity pack truncated at inject budget; shortened: " + CommaJoin(shortened)
      + "; claim lines retained whole]\n"
  }

  /** A section is named exactly when it lost a non-blank line, and only once. */
  lemma {:induction false} NamesExact(lines: seq<InjectLine>, keep: seq<bool>, n: nat)
    requires |keep| == |lines| && n <= |lines|
    ensures forall s :: s in Names(lines, keep, n)
              <==> exists i: nat :: i < n && !keep[i] && s != "" && lines[i].section == s && !Blank(lines[i].line)
    ensures Distinct(Names(lines, keep, n))
    decreases n
  {
    hide Blank;
    if n > 0 { NamesExact(lines, keep, n - 1); }
  }

  /** Section `s` lost its first line before section `t` lost one. */
  ghost predicate LostBefore(lines: seq<InjectLine>, keep: seq<bool>, n: nat, s: string, t: string)
    requires |keep| == |lines| && n <= |lines|
  {
    exists i: nat :: i < n && Lost(lines, keep, i) && lines[i].section == s
      && forall j: nat :: j <= i && Lost(lines, keep, j) ==> lines[j].section != t
  }

  /** Sections are named in the order of their first losses. */
  lemma {:induction false} NamesInOrder(lines: seq<InjectLine>, keep: seq<bool>, n: nat, p: nat, q: nat)
    requires |keep| == |lines| && n <= |lines| && p < q < |Names(lines, keep, n)|
    ensures LostBefore(lines, keep, n, Names(lines, keep, n)[p], Names(lines, keep, n)[q])
    decreases n
  {
    hide Blank;
    NamesExact(lines, keep, n - 1);
    var before, names := Names(lines, keep, n - 1), Names(lines, keep, n);
    assert names[p] == before[p] && before[p] in before;
    if q < |before| {
      NamesInOrder(lines, keep, n - 1, p, q);
    } else {
      assert Distinct(names) by { NamesExact(lines, keep, n); }
      assert names[q] !in before;
    }
  }

  method ShortenedInjectSections(lines: seq<InjectLine>, keep: seq<bool>) returns (r: seq<string>)
    requires |keep| == |lines|
    ensures r == Shortened(lines, keep)
  {
    var names: seq<string> := [];
    var rowDrops: map<string, nat> := map[];
    assert forall s :: |LostRows(lines, keep, 0, s)| == 0;
    hide LostRows, CountsDroppedRows, Blank, Label;
    for i := 0 to |lines|
      invariant names == Names(lines, keep, i)
      invariant forall s :: (if s in rowDrops then rowDrops[s] else 0)
                            == if CountsDroppedRows(s) then |LostRows(lines, keep, i, s)| else 0
    {
      forall s { LostRowsSnoc(lines, keep, i, s); }
      var l := lines[i];
      if keep[i] || l.section == "" || Blank(l.line) { continue; }
      if l.section !in names { names := names + [l.section]; }
      if !l.heading && CountsDroppedRows(l.section) {
        rowDrops := rowDrops[l.section := (if l.section in rowDrops then rowDrops[l.section] else 0) + 1];
      }
    }
    r := [];
    for i := 0 to |names|
      invariant r == Shortened(lines, keep)[..i]
    {
      var count := if names[i] in rowDrops then rowDrops[names[i]] else 0;
      assert count == RowDrops(lines, keep, names[i]);
      r := r + [Label(names[i], count)];
    }
  }

  lemma LostRowsSnoc(lines: seq<InjectLine>, keep: seq<bool>, n: nat, s: string)
    requires |keep| == |lines| && n < |lines|
    ensures |LostRows(lines, keep, n + 1, s)|
            == |LostRows(lines, keep, n, s)|
               + (if LostRow(lines, keep, n, s) then 1 else 0)
  {
    hide LostRow;
    if LostRow(lines, keep, n, s) {
      assert LostRows(lines, keep, n + 1, s) == LostRows(lines, keep, n, s) + {n};
    } else {
      assert LostRows(lines, keep, n + 1, s) == LostRows(lines, keep, n, s);
    }
  }

  /** What the marker says of a section that lost lines: its name and, for OPEN WORK and ADDRESSED TO, how many rows
      that are not blank went. */
  lemma LabelSays(lines: seq<InjectLine>, keep: seq<bool>, p: nat)
    requires |keep| == |lines| && p < |Shortened(lines, keep)|
    ensures p < |Names(lines, keep, |lines|)|
    ensures var name := Names(lines, keep, |lines|)[p];
            var rows := |set i: nat | i < |lines| && !keep[i] && lines[i].section == name && !lines[i].heading
                                      && !Blank(lines[i].line)|;
            Shortened(lines, keep)[p]
            == if rows == 0 || (name != "OPEN WORK" && !("ADDRESSED TO" <= name)) then name
               else if rows == 1 then name + " (1 row)"
               else name + " (" + Decimal(rows) + " rows)"
  {
    hide Blank;
    var names := Names(lines, keep, |lines|);
    var name := names[p];
    NamesExact(lines, keep, |lines|);
    assert name in names;
    assert LostRows(lines, keep, |lines|, name)
        == set i: nat | i < |lines| && !keep[i] && lines[i].section == name && !lines[i].heading && !Blank(lines[i].line);
    assert Decimal(1) == "1";
  }

  /** Every label stands in the marker. */
  lemma {:induction false} MarkerHolds(shortened: seq<string>, p: nat) returns (before: string, after: string)
    requires p < |shortened|
    ensures InjectOmissionMarker(shortened) == before + shortened[p] + after
  {
    hide CommaJoin;
    var head, tail := JoinHolds(shortened, p);
    before := "\n[continuity pack truncated at inject budget; shortened: " + head;
    after := tail + "; claim lines retained whole]\n";
  }

  lemma {:induction false} JoinHolds(names: seq<string>, p: nat) returns (before: string, after: string)
    requires p < |names|
    ensures CommaJoin(names) == before + names[p] + after
    decreases |names|
  {
    if p == 0 {
      before, after := "", if |names| == 1 then "" else ", " + CommaJoin(names[1..]);
    } else {
      var head, tail := JoinHolds(names[1..], p - 1);
      before, after := names[0] + ", " + head, tail;
    }
  }

  // ---- The budget loop

  /** The kept lines, whole and in order. */
  function KeptText(lines: seq<InjectLine>, keep: seq<bool>): string
    requires |keep| == |lines|
  {
    if lines == [] then []
    else if keep[0] then lines[0].line + KeptText(lines[1..], keep[1..])
    else KeptText(lines[1..], keep[1..])
  }

  function KeptInjectChars(lines: seq<InjectLine>, keep: seq<bool>): (n: nat)
    requires |keep| == |lines|
    ensures n == |KeptText(lines, keep)|
  {
    if lines == [] then 0
    else (if keep[0] then |lines[0].line| else 0) + KeptInjectChars(lines[1..], keep[1..])
  }

  ghost function Bounded(lines: seq<InjectLine>, keep: seq<bool>): string
    requires |keep| == |lines|
  {
    KeptText(lines, keep) + InjectOmissionMarker(Shortened(lines, keep))
  }

  ghost predicate Fits(lines: seq<InjectLine>, keep: seq<bool>, budget: nat)
    requires |keep| == |lines|
  {
    |Bounded(lines, keep)| <= budget
  }

  /** Nothing in the order fits that keeps a line `keep` does not. */
  ghost predicate NothingMoreFits(lines: seq<InjectLine>, keep: seq<bool>, budget: nat) {
    forall other :: Frontier(lines, other) && !Within(other, keep) ==> !Fits(lines, other, budget)
  }

  ghost predicate Largest(lines: seq<InjectLine>, keep: seq<bool>, budget: nat): (r: bool)
    ensures r ==> |keep| == |lines|
  {
    Frontier(lines, keep) && Fits(lines, keep, budget) && NothingMoreFits(lines, keep, budget)
  }

  /** What the reserve returns: the largest selection that fits with its own marker, or the bare marker cut to size
      when no selection fits. */
  ghost predicate ReservedTail(lines: seq<InjectLine>, budget: nat, r: string) {
    || (exists keep :: Largest(lines, keep, budget) && r == Bounded(lines, keep))
    || ((forall keep :: Frontier(lines, keep) ==> !Fits(lines, keep, budget))
        && r == Take(InjectOmissionMarker([]), budget))
  }

  lemma OneStepTighter(lines: seq<InjectLine>, keep: seq<bool>, i: nat, budget: nat)
    requires Frontier(lines, keep) && First(lines, keep, i)
    requires NothingMoreFits(lines, keep, budget) && !Fits(lines, keep, budget)
    ensures NothingMoreFits(lines, keep[i := false], budget)
  {
    hide Fits, Frontier, First, Within;
    forall other | Frontier(lines, other) && !Within(other, keep[i := false])
      ensures !Fits(lines, other, budget)
    {
      if Within(other, keep) { NothingBetween(lines, keep, i, other); }
    }
  }

  lemma NothingKeptIsSmallest(lines: seq<InjectLine>, keep: seq<bool>, budget: nat)
    requires |keep| == |lines| && forall i: nat :: i < |lines| ==> !keep[i]
    requires NothingMoreFits(lines, keep, budget) && !Fits(lines, keep, budget)
    ensures forall other :: Frontier(lines, other) ==> !Fits(lines, other, budget)
  {
    hide Fits;
    forall other | Frontier(lines, other)
      ensures !Fits(lines, other, budget)
    {
      if Within(other, keep) { assert other == keep; }
    }
  }

  ghost function KeptIndices(keep: seq<bool>): set<nat> { set i: nat | i < |keep| && keep[i] }

  method ReserveInjectTail(out: string, budget: nat, floor: nat) returns (r: string)
    ensures ReservedTail(SplitLines(out, floor), budget, r)
  {
    hide Frontier, First, Fits, NothingMoreFits, Shortened, SplitLines, KeptText, NextDrop, ReservedTail, Bounded,
         InjectOmissionMarker;
    var lines := SplitInjectLines(out, floor);
    var keep := new bool[|lines|](_ => true);
    assert Frontier(lines, keep[..]) by { AllKeptIsFrontier(lines, keep[..]); }
    assert NothingMoreFits(lines, keep[..], budget) by { AllKeptIsLargest(lines, keep[..], budget); }
    while true
      invariant Frontier(lines, keep[..]) && NothingMoreFits(lines, keep[..], budget)
      decreases KeptIndices(keep[..])
    {
      ghost var was := keep[..];
      var shortened := ShortenedInjectSections(lines, keep[..]);
      var marker := InjectOmissionMarker(shortened);
      if KeptInjectChars(lines, keep[..]) + |marker| <= budget {
        var bounded := PushKept(lines, keep[..]);
        assert Fits(lines, was, budget) by { FitsMeans(lines, was, budget); }
        LargestIsReserved(lines, was, budget);
        return bounded + marker;
      }
      assert !Fits(lines, was, budget) by { FitsMeans(lines, was, budget); }
      NextDropIsFirst(lines, was);
      var next := NextInjectDrop(lines, keep[..]);
      match next {
        case Some(index) =>
          DropKeepsFrontier(lines, was, index);
          OneStepTighter(lines, was, index, budget);
          keep[index] := false;
          assert keep[..] == was[index := false];
          assert index in KeptIndices(was) && index !in KeptIndices(keep[..]);
        case None =>
          NothingKeptIsSmallest(lines, was, budget);
          NothingIsReserved(lines, budget);
          return Take(InjectOmissionMarker([]), budget);
      }
    }
  }

  lemma AllKeptIsFrontier(lines: seq<InjectLine>, keep: seq<bool>)
    requires |keep| == |lines| && forall i :: 0 <= i < |keep| ==> keep[i]
    ensures Frontier(lines, keep)
  {
  }

  lemma AllKeptIsLargest(lines: seq<InjectLine>, keep: seq<bool>, budget: nat)
    requires |keep| == |lines| && forall i :: 0 <= i < |keep| ==> keep[i]
    ensures NothingMoreFits(lines, keep, budget)
  {
    hide Fits;
  }

  lemma LargestIsReserved(lines: seq<InjectLine>, keep: seq<bool>, budget: nat)
    requires Frontier(lines, keep) && Fits(lines, keep, budget) && NothingMoreFits(lines, keep, budget)
    ensures ReservedTail(lines, budget, KeptText(lines, keep) + InjectOmissionMarker(Shortened(lines, keep)))
  {
    hide Frontier, Fits, NothingMoreFits, KeptText, Shortened, InjectOmissionMarker;
    assert Largest(lines, keep, budget);
  }

  lemma NothingIsReserved(lines: seq<InjectLine>, budget: nat)
    requires forall keep :: Frontier(lines, keep) ==> !Fits(lines, keep, budget)
    ensures ReservedTail(lines, budget, Take(InjectOmissionMarker([]), budget))
  {
    hide Frontier, Fits, Take, InjectOmissionMarker;
  }

  lemma FitsMeans(lines: seq<InjectLine>, keep: seq<bool>, budget: nat)
    requires |keep| == |lines|
    ensures Fits(lines, keep, budget)
            <==> |KeptText(lines, keep)| + |InjectOmissionMarker(Shortened(lines, keep))| <= budget
  {
  }

  method PushKept(lines: seq<InjectLine>, keep: seq<bool>) returns (bounded: string)
    requires |keep| == |lines|
    ensures bounded == KeptText(lines, keep)
  {
    bounded := "";
    for i := 0 to |lines|
      invariant bounded + KeptText(lines[i..], keep[i..]) == KeptText(lines, keep)
    {
      assert lines[i..][1..] == lines[i + 1..] && keep[i..][1..] == keep[i + 1..];
      if keep[i] { bounded := bounded + lines[i].line; }
    }
  }

  const INJECT_CHAR_BUDGET: nat := 24_000
  const NOW_INJECT_FLOOR: nat := 5

  method BoundedInject(out: string) returns (r: string)
    ensures |r| <= INJECT_CHAR_BUDGET
    ensures |out| <= INJECT_CHAR_BUDGET ==> r == out
    ensures |out| > INJECT_CHAR_BUDGET ==> ReservedTail(SplitLines(out, NOW_INJECT_FLOOR), INJECT_CHAR_BUDGET, r)
  {
    if |out| <= INJECT_CHAR_BUDGET { return out; }
    r := ReserveInjectTail(out, INJECT_CHAR_BUDGET, NOW_INJECT_FLOOR);
    ReservedFits(SplitLines(out, NOW_INJECT_FLOOR), INJECT_CHAR_BUDGET, r);
  }

  lemma ReservedFits(lines: seq<InjectLine>, budget: nat, r: string)
    requires ReservedTail(lines, budget, r)
    ensures |r| <= budget
  {
    hide KeptText, Shortened, Frontier, NothingMoreFits;
  }

  /** The largest selection is one, and it decides the text. */
  lemma ReservedTailIsUnique(lines: seq<InjectLine>, budget: nat, r: string, s: string)
    requires ReservedTail(lines, budget, r) && ReservedTail(lines, budget, s)
    ensures r == s
  {
    hide Fits, Bounded, Frontier;
    if a :| Largest(lines, a, budget) && r == Bounded(lines, a) {
      var b :| Largest(lines, b, budget) && s == Bounded(lines, b);
      assert Within(a, b) && Within(b, a);
      assert a == b;
    }
  }

  /** A kept line stands in the text between what is kept before it and after it; a dropped one does not. */
  lemma {:induction false} KeptTextAt(lines: seq<InjectLine>, keep: seq<bool>, i: nat)
    requires |keep| == |lines| && i < |lines|
    ensures KeptText(lines, keep)
            == KeptText(lines[..i], keep[..i]) + (if keep[i] then lines[i].line else "")
               + KeptText(lines[i + 1..], keep[i + 1..])
    ensures KeptText([], []) == ""
    decreases i
  {
    if i > 0 {
      KeptTextAt(lines[1..], keep[1..], i - 1);
      assert lines[..i][1..] == lines[1..][..i - 1] && keep[..i][1..] == keep[1..][..i - 1];
      assert lines[1..][i..] == lines[i + 1..] && keep[1..][i..] == keep[i + 1..];
    } else {
      assert lines[..0] == [] && keep[..0] == [];
    }
  }

  lemma {:induction false} KeepingAllKeepsText(lines: seq<InjectLine>, keep: seq<bool>)
    requires |keep| == |lines| && forall i :: 0 <= i < |keep| ==> keep[i]
    ensures KeptText(lines, keep) == Join(Texts(lines))
    decreases |lines|
  {
    if lines != [] {
      KeepingAllKeepsText(lines[1..], keep[1..]);
      assert Texts(lines)[1..] == Texts(lines[1..]);
    }
  }

  /** Over budget, the marker always costs at least one line. */
  lemma OverBudgetLosesALine(out: string, floor: nat, budget: nat, keep: seq<bool>)
    requires |out| > budget && Largest(SplitLines(out, floor), keep, budget)
    ensures exists i :: 0 <= i < |keep| && !keep[i]
  {
    hide SplitLines, Shortened, KeptText;
    var lines := SplitLines(out, floor);
    if forall i :: 0 <= i < |keep| ==> keep[i] {
      KeepingAllKeepsText(lines, keep);
      SplitKeepsText(out, floor);
    }
  }

  // ---- What the order means for a pack

  /** Survivors of one of the five line-local tiers are its first lines. */
  lemma SurvivorsArePrefix(lines: seq<InjectLine>, keep: seq<bool>, i: nat, j: nat)
    requires Frontier(lines, keep) && i < j < |lines|
    requires Tier(lines[i]) == Tier(lines[j]) && Tier(lines[i]) <= 5 && keep[j]
    ensures keep[i]
  {
    hide Tier;
    assert !keep[i] ==> GoesBefore(lines, i, j);
  }

  /** Who may have gone while a line is kept, by section and flags: the order is claim lines outside the floor, OPEN
      WORK rows, other unprotected lines, ADDRESSED TO rows, floor lines, protected lines and headings, and within each
      of the first five the tail goes first. */
  lemma PackOrder(out: string, floor: nat, keep: seq<bool>, gone: nat, kept: nat)
    requires Frontier(SplitLines(out, floor), keep)
    requires gone < |keep| && kept < |keep| && !keep[gone] && keep[kept]
    ensures var g, k := SplitLines(out, floor)[gone], SplitLines(out, floor)[kept];
            && (k.claim && !k.protect && !k.nowFloor && !k.heading ==>
                  g.claim && !g.protect && !g.nowFloor && !g.heading && gone > kept)
            && (k.section == "OPEN WORK" && !k.heading ==>
                  || (g.claim && !g.protect && !g.nowFloor && !g.heading)
                  || (g.section == "OPEN WORK" && !g.heading && gone > kept))
            && (!k.protect && !k.nowFloor && !k.heading && !("ADDRESSED TO" <= k.section) ==>
                  && !g.protect && !g.nowFloor && !g.heading && !("ADDRESSED TO" <= g.section)
                  && (g.claim || g.section == "OPEN WORK" || gone > kept))
            && ("ADDRESSED TO" <= k.section && !k.heading ==>
                  !g.protect && !g.nowFloor && !g.heading && ("ADDRESSED TO" <= g.section ==> gone > kept))
            && (k.nowFloor && !k.protect ==> !g.protect && !g.heading && (g.nowFloor ==> gone > kept))
            && (!k.heading && !k.protect ==> !g.heading && !g.protect)
            && (!k.heading ==> !g.heading || gone > kept)
  {
    var lines := SplitLines(out, floor);
    SplitSound(out, floor, gone);
    SplitSound(out, floor, kept);
    TierOfSound(lines[gone]);
    TierOfSound(lines[kept]);
    assert GoesBefore(lines, gone, kept);
    assert lines[gone].heading ==> Rank(lines, gone) == 7;
    hide SplitLines, Tier, Sound, Anchor;
  }

  /** The tier of a line whose flags agree with its section. */
  lemma TierOfSound(l: InjectLine)
    requires Sound(l)
    ensures Tier(l) == 1 <==> l.claim && !l.protect && !l.nowFloor && !l.heading
    ensures Tier(l) == 2 <==> l.section == "OPEN WORK" && !l.heading
    ensures Tier(l) == 4 <==> "ADDRESSED TO" <= l.section && !l.heading
    ensures Tier(l) == 5 <==> l.nowFloor && !l.protect
    ensures Tier(l) == 6 <==> l.protect || l.heading
  {
    assert "ADDRESSED TO" <= l.section ==> l.section[0] == 'A';
    assert l.section == "OPEN WORK" ==> l.section[0] == 'O';
    assert l.claim ==> l.section[0] in "NPDT";
    assert l.section == "SOURCES" || l.section == "INDEX HEALTH" || l.section == "HONESTY" ==> l.section[0] in "SIH";
  }

  /** The promise for the newest NOW rows. Once one of the first `floor` rows of NOW has gone, no OPEN WORK row, no
      ADDRESSED TO row and no claim line outside those rows is left; and once the first of them has, only headings and
      the protected lines of the pack title, HONESTY, SOURCES and INDEX HEALTH are. */
  lemma FloorOutlivesRows(out: string, floor: nat, keep: seq<bool>, i: nat, j: nat)
    requires Frontier(SplitLines(out, floor), keep) && i < |keep| && j < |keep| && !keep[i] && keep[j]
    requires var lines := SplitLines(out, floor);
             && lines[i].section == "NOW" && !("## " <= lines[i].line) && !Blank(lines[i].line)
             && NowRows(lines[..i]) < floor
    ensures var lines := SplitLines(out, floor);
            var l := lines[j];
            "## " <= l.line
            || (&& l.section != "OPEN WORK" && !("ADDRESSED TO" <= l.section)
                && l.section != "PEERS" && l.section != "DECISIONS" && l.section != "TASKS"
                && (l.section == "NOW" ==> !Blank(l.line) && NowRows(lines[..j]) < floor)
                && (NowRows(lines[..i]) == 0 ==>
                      || l.section == "SOURCES" || l.section == "INDEX HEALTH" || l.section == "HONESTY"
                      || (l.section == "" && "# " <= l.line)))
  {
    PackOrder(out, floor, keep, i, j);
    SplitMeans(out, floor, i);
    SplitMeans(out, floor, j);
    var lines := SplitLines(out, floor);
    assert NowRow(lines[i]);
    if i < j { NowRowsGrow(lines, i, j); }
    if j < i && NowRow(lines[j]) { NowRowsGrow(lines, j, i); }
    hide SplitLines, SectionMeans, Frontier, Blank, NowRows;
  }

  lemma {:induction false} NowRowsGrow(lines: seq<InjectLine>, i: nat, j: nat)
    requires i < j <= |lines| && NowRow(lines[i])
    ensures NowRows(lines[..j]) > 0
    decreases j
  {
    hide NowRow;
    assert lines[..j][..j - 1] == lines[..j - 1];
    if i < j - 1 { NowRowsGrow(lines, i, j - 1); }
  }

  /** A protected line that is neither blank nor a heading, and the first such line of its section. */
  ghost predicate FirstOfSection(lines: seq<InjectLine>, a: nat) {
    && a < |lines| && lines[a].protect && !lines[a].heading && !Blank(lines[a].line)
    && forall b :: 0 <= b < a && lines[b].section == lines[a].section ==>
         !(lines[b].protect && !lines[b].heading && !Blank(lines[b].line))
  }

  /** The first non-blank protected line of a section goes, like a heading, only after every line that is neither, and
      from the tail. */
  lemma FirstProtectedLineOutlives(out: string, floor: nat, keep: seq<bool>, a: nat, j: nat)
    requires Frontier(SplitLines(out, floor), keep) && a < |keep| && j < |keep| && !keep[a] && keep[j]
    requires SplitLines(out, floor)[a].heading || FirstOfSection(SplitLines(out, floor), a)
    ensures j < a && (SplitLines(out, floor)[j].heading || FirstOfSection(SplitLines(out, floor), j))
  {
    hide SplitLines, Tier, Sound;
    var lines := SplitLines(out, floor);
    forall i: nat | i < |lines|
      ensures Tier(lines[i]) == 6 <==> lines[i].protect || lines[i].heading
    {
      SplitSound(out, floor, i);
      TierOfSound(lines[i]);
    }
    assert GoesBefore(lines, a, j);
    hide Blank;
  }

  // ---- Dropping a line can lengthen the text

  lemma {:induction false} FirstLine(a: string, rest: string)
    requires '\n' !in a
    ensures LineLength(a + "\n" + rest) == |a| + 1
  {
    var s := a + "\n" + rest;
    if a != [] {
      assert a[0] in a && s[1..] == a[1..] + "\n" + rest;
      FirstLine(a[1..], rest);
    }
  }

  lemma TwoPieces(a: string, b: string)
    requires '\n' !in a && '\n' !in b
    ensures SplitInclusive(a + "\n" + b + "\n") == [a + "\n", b + "\n"]
  {
    hide LineLength;
    var s, t := a + "\n" + b + "\n", b + "\n";
    assert s == a + "\n" + t && t == b + "\n" + "";
    FirstLine(a, t);
    FirstLine(b, "");
    assert s[..|a| + 1] == a + "\n" && s[|a| + 1..] == t;
    assert t[..|b| + 1] == t && t[|b| + 1..] == "";
    assert SplitInclusive("") == [];
    assert SplitInclusive(t) == [t];
  }

  /** A text on one line, without line ends, that is no heading. */
  predicate PlainLine(s: string) {
    s != "" && '\n' !in s && '\r' !in s && !StartsWith(s, "## ")
  }

  /** A pack of one section under its own name and one row. */
  function SmallPack(name: string, row: string): string { "## " + name + "\n" + row + "\n" }

  lemma LineEndGoes(s: string)
    requires s != "" && '\n' !in s && '\r' !in s
    ensures TrimNewlines(s + "\n") == s
  {
    assert (s + "\n")[..|s + "\n"| - 1] == s;
    assert s[|s| - 1] in s;
  }

  lemma SmallPackLines(name: string, row: string, floor: nat)
    requires PlainLine(name) && SectionKey(name) == name && PlainLine(row)
    ensures var lines := SplitLines(SmallPack(name, row), floor);
            && |lines| == 2 && lines[0].heading && !lines[0].nowFloor && !lines[1].heading
            && lines[0].line == "## " + name + "\n" && lines[1].line == row + "\n"
            && lines[0].section == name && lines[1].section == name
  {
    hide SplitInclusive, SectionKey, TrimNewlines, ClaimSection, ProtectedSection, Blank, HonestyHead;
    var heading := "## " + name;
    assert "## " <= heading && heading[3..] == name;
    TwoPieces(heading, row);
    LineEndGoes(heading);
    LineEndGoes(row);
    assert TrimStartMatches(heading, "## ") == name;
    var pieces := [heading + "\n", row + "\n"];
    assert pieces[1..] == [row + "\n"] && pieces[1..][1..] == [];
    var (first, st) := Classify(START, pieces[0], floor);
    var (second, _) := Classify(st, pieces[1], floor);
    assert Lines(pieces[1..], st, floor) == [second];
    assert Lines(pieces, START, floor) == [first] + [second];
  }

  lemma RowGoesFirst(lines: seq<InjectLine>)
    requires |lines| == 2 && lines[0].heading && !lines[0].nowFloor
    ensures Frontier(lines, [true, true]) && Frontier(lines, [true, false])
  {
  }

  lemma RowLost(lines: seq<InjectLine>)
    requires |lines| == 2 && lines[1].section != "" && !Blank(lines[1].line)
    ensures |Shortened(lines, [true, false])| == 1 && lines[1].section <= Shortened(lines, [true, false])[0]
    ensures Shortened(lines, [true, true]) == []
  {
    hide Label, Blank, RowDrops;
    assert Names(lines, [true, false], 0) == [] && Names(lines, [true, true], 0) == [];
    assert Names(lines, [true, false], 1) == [] && Names(lines, [true, true], 1) == [];
  }

  lemma KeptOfTwo(lines: seq<InjectLine>)
    requires |lines| == 2
    ensures KeptText(lines, [true, true]) == lines[0].line + lines[1].line
    ensures KeptText(lines, [true, false]) == lines[0].line
  {
    assert lines[1..][0] == lines[1] && lines[1..][1..] == [];
    assert [true, true][1..] == [true] && [true, false][1..] == [false];
    assert KeptText([], []) == [];
    assert KeptText(lines[1..], [true]) == lines[1].line + KeptText([], [true][1..]);
    assert KeptText(lines[1..], [false]) == KeptText([], [false][1..]);
  }

  /** In a pack of one section and one row, whenever the section's name is the longer: the dropper's next state after
      "everything kept" makes a longer text. What shrinks at each turn of the loop is the number of kept lines. */
  lemma DroppingCanLengthen(name: string, row: string, floor: nat)
    requires PlainLine(name) && SectionKey(name) == name && PlainLine(row) && !Blank(row) && |name| > |row| + 5
    ensures var lines := SplitLines(SmallPack(name, row), floor);
            && |lines| == 2 && Frontier(lines, [true, true]) && Frontier(lines, [true, false])
            && |Bounded(lines, [true, false])| > |Bounded(lines, [true, true])|
  {
    hide SplitLines, Shortened, Frontier, KeptText, SectionKey, Blank;
    var lines := SplitLines(SmallPack(name, row), floor);
    SmallPackLines(name, row, floor);
    RowGoesFirst(lines);
    assert !Blank(row + "\n") by { LongerIsNotBlank(row); }
    RowLost(lines);
    KeptOfTwo(lines);
    var shortened := Shortened(lines, [true, false]);
    assert CommaJoin(shortened) == shortened[0];
  }

  lemma LongerIsNotBlank(row: string)
    requires !Blank(row)
    ensures !Blank(row + "\n")
  {
    var i :| 0 <= i < |row| && !IsWhitespace(row[i]);
    assert (row + "\n")[i] == row[i];
  }
}

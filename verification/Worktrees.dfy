/** Who holds which branch (`parse_worktrees`, src/open_work.rs), from `git worktree list --porcelain -z`. */
module Worktrees {
  import opened Text

  const NUL: char := 0 as char

  datatype HeldBy = HeldBy(path: string, prunable: bool)

  /** The record being read. */
  datatype Pending = Pending(path: Option<string>, branch: Option<string>, prunable: bool)

  const CLEAR := Pending(None, None, false)

  type Held = map<string, HeldBy>

  predicate PrunableField(field: string) { field == "prunable" || StartsWith(field, "prunable ") }

  /** One field of the listing; `canon` resolves a path that exists and leaves any other alone. */
  function Step(canon: string -> string, field: string, p: Pending, held: Held): (Pending, Held) {
    if field == "" then
      (CLEAR, if p.path.Some? && p.branch.Some? then held[p.branch.value := HeldBy(p.path.value, p.prunable)] else held)
    else if StartsWith(field, "worktree ") then (p.(path := Some(canon(field[9..]))), held)
    else if StartsWith(field, "branch ") then (p.(branch := Some(field[7..])), held)
    else if PrunableField(field) then (p.(prunable := true), held)
    else (p, held)
  }

  function Steps(canon: string -> string, fields: seq<string>, p: Pending, held: Held): (Pending, Held)
    decreases |fields|
  {
    if fields == [] then (p, held)
    else
      var (p', held') := Step(canon, fields[0], p, held);
      Steps(canon, fields[1..], p', held')
  }

  method ParseWorktrees(raw: string, canon: string -> string) returns (held: Held)
    ensures held == Steps(canon, Fields(raw, NUL) + [""], CLEAR, map[]).1
  {
    held := map[];
    var path: Option<string>, branch: Option<string>, prunable := None, None, false;
    var fields := Fields(raw, NUL) + [""];
    for i := 0 to |fields|
      invariant Steps(canon, fields[i..], Pending(path, branch, prunable), held) == Steps(canon, fields, CLEAR, map[])
    {
      assert fields[i..][0] == fields[i] && fields[i..][1..] == fields[i + 1..];
      var field := fields[i];
      if field == "" {
        if path.Some? && branch.Some? { held := held[branch.value := HeldBy(path.value, prunable)]; }
        path, branch, prunable := None, None, false;
      } else if StartsWith(field, "worktree ") {
        path := Some(canon(field[9..]));
      } else if StartsWith(field, "branch ") {
        branch := Some(field[7..]);
      } else if PrunableField(field) {
        prunable := true;
      }
    }
  }

  // ---- Round trip

  /** A worktree as git lists it: `others` are the lines the parser has no use for (HEAD, detached, bare, locked). */
  datatype Worktree = Worktree(path: string, others: seq<string>, branch: Option<string>, prunable: Option<string>)

  predicate Ignored(line: string) {
    && line != "" && !StartsWith(line, "worktree ") && !StartsWith(line, "branch ") && !PrunableField(line)
  }

  /** No field holds a NUL and no other line looks like one the parser reads. */
  predicate Listable(w: Worktree) {
    && NUL !in w.path && (w.branch.Some? ==> NUL !in w.branch.value) && (w.prunable.Some? ==> NUL !in w.prunable.value)
    && forall i :: 0 <= i < |w.others| ==> Ignored(w.others[i]) && NUL !in w.others[i]
  }

  function BranchLines(w: Worktree): seq<string> { if w.branch.Some? then ["branch " + w.branch.value] else [] }

  function PrunableLines(w: Worktree): seq<string> {
    if w.prunable.None? then [] else if w.prunable.value == "" then ["prunable"] else ["prunable " + w.prunable.value]
  }

  function RecordLines(w: Worktree): seq<string> {
    ["worktree " + w.path] + w.others + BranchLines(w) + PrunableLines(w)
  }

  /** The fields of a listing: each record's lines and an empty one. */
  function Listing(ws: seq<Worktree>): seq<string> {
    if ws == [] then [] else RecordLines(ws[0]) + [""] + Listing(ws[1..])
  }

  /** Every field ends in a NUL. */
  function Terminated(fields: seq<string>): string {
    if fields == [] then [] else fields[0] + [NUL] + Terminated(fields[1..])
  }

  /** The worktree that holds each branch; the last one listed wins. */
  function Holders(canon: string -> string, ws: seq<Worktree>, held: Held): Held
    decreases |ws|
  {
    if ws == [] then held
    else
      Holders(canon, ws[1..],
              if ws[0].branch.Some? then held[ws[0].branch.value := HeldBy(canon(ws[0].path), ws[0].prunable.Some?)]
              else held)
  }

  lemma {:induction false} StepsAppend(canon: string -> string, a: seq<string>, b: seq<string>, p: Pending, held: Held)
    ensures var (p', held') := Steps(canon, a, p, held);
            Steps(canon, a + b, p, held) == Steps(canon, b, p', held')
    decreases |a|
  {
    hide Step;
    if a == [] {
      assert a + b == b;
    } else {
      var (p', held') := Step(canon, a[0], p, held);
      assert (a + b)[0] == a[0] && (a + b)[1..] == a[1..] + b;
      StepsAppend(canon, a[1..], b, p', held');
    }
  }

  lemma {:induction false} IgnoredSteps(canon: string -> string, lines: seq<string>, p: Pending, held: Held)
    requires forall i :: 0 <= i < |lines| ==> Ignored(lines[i])
    ensures Steps(canon, lines, p, held) == (p, held)
    decreases |lines|
  {
    if lines != [] { IgnoredSteps(canon, lines[1..], p, held); }
  }

  lemma OneStep(canon: string -> string, field: string, p: Pending, held: Held)
    ensures Steps(canon, [field], p, held) == Step(canon, field, p, held)
  {
    hide Step;
    var (p', held') := Step(canon, field, p, held);
    assert [field][1..] == [];
    assert Steps(canon, [], p', held') == (p', held');
  }

  lemma RecordSteps(canon: string -> string, w: Worktree, held: Held)
    requires Listable(w)
    ensures Steps(canon, RecordLines(w), CLEAR, held)
            == (Pending(Some(canon(w.path)), w.branch, w.prunable.Some?), held)
  {
    hide Steps;
    var head, mid := ["worktree " + w.path], ["worktree " + w.path] + w.others;
    var p1 := CLEAR.(path := Some(canon(w.path)));
    OneStep(canon, head[0], CLEAR, held);
    assert head[0][9..] == w.path;
    StepsAppend(canon, head, w.others, CLEAR, held);
    IgnoredSteps(canon, w.others, p1, held);
    BranchSteps(canon, w, p1, held);
    var p2 := p1.(branch := w.branch);
    StepsAppend(canon, mid, BranchLines(w), CLEAR, held);
    PrunableSteps(canon, w, p2, held);
    StepsAppend(canon, mid + BranchLines(w), PrunableLines(w), CLEAR, held);
  }

  lemma BranchSteps(canon: string -> string, w: Worktree, p: Pending, held: Held)
    requires p.branch == None
    ensures Steps(canon, BranchLines(w), p, held) == (p.(branch := w.branch), held)
  {
    hide Steps;
    match w.branch
    case Some(name) =>
      var line := "branch " + name;
      OneStep(canon, line, p, held);
      assert line[0] == 'b' && line[7..] == name;
    case None => assert Steps(canon, [], p, held) == (p, held) by { NoSteps(canon, p, held); }
  }

  lemma PrunableSteps(canon: string -> string, w: Worktree, p: Pending, held: Held)
    requires !p.prunable
    ensures Steps(canon, PrunableLines(w), p, held) == (p.(prunable := w.prunable.Some?), held)
  {
    hide Steps;
    NoSteps(canon, p, held);
    if w.prunable.Some? {
      var line := PrunableLines(w)[0];
      assert PrunableLines(w) == [line] && line[0] == 'p' && PrunableField(line);
      OneStep(canon, line, p, held);
    }
  }

  lemma NoSteps(canon: string -> string, p: Pending, held: Held)
    ensures Steps(canon, [], p, held) == (p, held)
  {
  }

  lemma {:induction false} ListingSteps(canon: string -> string, ws: seq<Worktree>, held: Held)
    requires forall i :: 0 <= i < |ws| ==> Listable(ws[i])
    ensures Steps(canon, Listing(ws), CLEAR, held) == (CLEAR, Holders(canon, ws, held))
    decreases |ws|
  {
    hide Steps, RecordLines, Listable;
    if ws == [] {
      NoSteps(canon, CLEAR, held);
    } else {
      var w := ws[0];
      RecordSteps(canon, w, held);
      var p := Pending(Some(canon(w.path)), w.branch, w.prunable.Some?);
      OneStep(canon, "", p, held);
      StepsAppend(canon, RecordLines(w), [""], CLEAR, held);
      var after := Step(canon, "", p, held).1;
      StepsAppend(canon, RecordLines(w) + [""], Listing(ws[1..]), CLEAR, held);
      ListingSteps(canon, ws[1..], after);
    }
  }

  lemma {:induction false} FieldsOfTerminated(fields: seq<string>)
    requires forall i :: 0 <= i < |fields| ==> NUL !in fields[i]
    ensures Fields(Terminated(fields), NUL) == fields + [""]
  {
    if fields != [] {
      FieldsOfTerminated(fields[1..]);
      FieldsCut(fields[0], NUL, Terminated(fields[1..]));
      assert fields == [fields[0]] + fields[1..];
    }
  }

  lemma {:induction false} ListingHasNoNul(ws: seq<Worktree>)
    requires forall i :: 0 <= i < |ws| ==> Listable(ws[i])
    ensures forall i :: 0 <= i < |Listing(ws)| ==> NUL !in Listing(ws)[i]
    decreases |ws|
  {
    hide Ignored;
    if ws != [] {
      ListingHasNoNul(ws[1..]);
      LinesHaveNoNul(ws[0]);
    }
  }

  lemma LinesHaveNoNul(w: Worktree)
    requires Listable(w)
    ensures forall i :: 0 <= i < |RecordLines(w)| ==> NUL !in RecordLines(w)[i]
  {
    hide Ignored;
    assert NUL !in "worktree " && NUL !in "branch " && NUL !in "prunable" && NUL !in "prunable ";
  }

  /** Parsing what git lists gives back, for every branch, the worktree that holds it, its path resolved and its
      prunable mark; worktrees without a branch leave no trace. */
  lemma WorktreesRoundTrip(canon: string -> string, ws: seq<Worktree>)
    requires forall i :: 0 <= i < |ws| ==> Listable(ws[i])
    ensures Steps(canon, Fields(Terminated(Listing(ws)), NUL) + [""], CLEAR, map[]).1 == Holders(canon, ws, map[])
  {
    hide Steps, Listing, Terminated, Holders, Listable;
    ListingHasNoNul(ws);
    FieldsOfTerminated(Listing(ws));
    ListingSteps(canon, ws, map[]);
    var held := Holders(canon, ws, map[]);
    OneStep(canon, "", CLEAR, held);
    StepsAppend(canon, Listing(ws), [""], CLEAR, map[]);
    StepsAppend(canon, Listing(ws) + [""], [""], CLEAR, map[]);
  }

  /** The closing empty field of the last record may be missing. */
  lemma LastTerminatorOptional(canon: string -> string, ws: seq<Worktree>, last: Worktree)
    requires Listable(last) && forall i :: 0 <= i < |ws| ==> Listable(ws[i])
    ensures Steps(canon, Fields(Terminated(Listing(ws) + RecordLines(last)), NUL) + [""], CLEAR, map[]).1
            == Holders(canon, [last], Holders(canon, ws, map[]))
  {
    hide Steps, Listing, Terminated, Listable, RecordLines;
    ListingHasNoNul(ws);
    LinesHaveNoNul(last);
    var fields := Listing(ws) + RecordLines(last);
    FieldsOfTerminated(fields);
    ListingSteps(canon, ws, map[]);
    var held := Holders(canon, ws, map[]);
    RecordSteps(canon, last, held);
    StepsAppend(canon, Listing(ws), RecordLines(last), CLEAR, map[]);
    StepsAppend(canon, fields, [""], CLEAR, map[]);
    StepsAppend(canon, fields + [""], [""], CLEAR, map[]);
    var p := Pending(Some(canon(last.path)), last.branch, last.prunable.Some?);
    OneStep(canon, "", p, held);
    OneStep(canon, "", CLEAR, Step(canon, "", p, held).1);
  }
}

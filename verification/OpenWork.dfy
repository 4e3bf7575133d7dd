/** Open work across checkouts under one shared budget (src/open_work.rs). */
module OpenWork {
  import opened Ordering
  import opened Text
  import Worktrees

  const BRANCH_CAP: nat := 50
  const COMMIT_CAP: nat := 200
  const CHECKOUT_CAP: nat := 4

  /** The answer of one git call. */
  datatype Git<+T> = Ok(value: T) | Err(message: string)

  datatype CherryLine = Plus(sha: string) | Minus(sha: string) | Other

  datatype CommitFacts = CommitFacts(sha: string, subject: string, authorTime: int, sessionIds: seq<string>)

  type HeldBy = Worktrees.HeldBy

  /** What git answers about one local branch. */
  datatype BranchView = BranchView(reference: string, ahead: Git<nat>, cherry: Git<seq<CherryLine>>,
                                   facts: string -> Git<CommitFacts>, reapplied: Option<string>)

  /** What git answers about one checkout; branches are listed newest committer date first. */
  datatype CheckoutView = CheckoutView(head: Git<string>, headRef: Option<string>,
                                       worktrees: Git<map<string, HeldBy>>, branches: Git<seq<BranchView>>)

  datatype OpenBranch = OpenBranch(branch: string, worktree: Option<HeldBy>, openCommits: nat,
                                   integratedCommits: nat, newest: CommitFacts, reapplied: Option<string>)

  datatype Caps = Caps(branches: nat, commits: nat)

  datatype Scan = Scan(headSha: Option<string>, branchesTotal: nat, branchesExamined: nat, commitsExamined: nat,
                       overBudget: seq<(string, nat)>, rows: seq<OpenBranch>, worktreesUnknown: bool,
                       gitErrors: nat, firstGitError: Option<string>)

  function Sub(a: nat, b: nat): nat { if a >= b then a - b else 0 }

  function ShortName(reference: string): string {
    if StartsWith(reference, "refs/heads/") then reference[11..] else reference
  }

  // One branch

  /** How an examined branch ends. */
  datatype Verdict =
    | NotAhead
    | OverBudget(name: string, ahead: nat)
    | GitError(message: string)
    | Integrated
    | Row(row: OpenBranch)

  /** A verdict and the commits `git cherry` examined to reach it. */
  datatype Judged = Judged(verdict: Verdict, charge: nat)

  function CountPlus(lines: seq<CherryLine>): nat {
    if lines == [] then 0 else (if lines[0].Plus? then 1 else 0) + CountPlus(lines[1..])
  }

  function CountMinus(lines: seq<CherryLine>): nat {
    if lines == [] then 0 else (if lines[0].Minus? then 1 else 0) + CountMinus(lines[1..])
  }

  /** The last `+` line: the newest commit HEAD lacks. */
  function NewestPlus(lines: seq<CherryLine>): Option<string> {
    if lines == [] then None
    else if lines[|lines| - 1].Plus? then Some(lines[|lines| - 1].sha)
    else NewestPlus(lines[..|lines| - 1])
  }

  function Judge(b: BranchView, held: map<string, HeldBy>, room: nat): Judged {
    match b.ahead
    case Err(e) => Judged(GitError(e), 0)
    case Ok(ahead) =>
      if ahead == 0 then Judged(NotAhead, 0)
      else if ahead > room then Judged(OverBudget(ShortName(b.reference), ahead), 0)
      else
        match b.cherry
        case Err(e) => Judged(GitError(e), 0)
        case Ok(lines) =>
          var charge := CountPlus(lines) + CountMinus(lines);
          match NewestPlus(lines)
          case None => Judged(Integrated, charge)
          case Some(sha) =>
            match b.facts(sha)
            case Err(e) => Judged(GitError(e), charge)
            case Ok(facts) =>
              var worktree := if b.reference in held then Some(held[b.reference]) else None;
              Judged(Row(OpenBranch(ShortName(b.reference), worktree, CountPlus(lines), CountMinus(lines),
                                    facts, b.reapplied)), charge)
  }

  /** Position `n` holds the newest commit HEAD lacks. */
  ghost predicate LastPlus(lines: seq<CherryLine>, n: nat) {
    n < |lines| && lines[n].Plus? && forall m :: n < m < |lines| ==> !lines[m].Plus?
  }

  lemma {:induction false} CountsMean(lines: seq<CherryLine>)
    ensures CountPlus(lines) == |set i: nat | i < |lines| && lines[i].Plus?|
    ensures CountMinus(lines) == |set i: nat | i < |lines| && lines[i].Minus?|
    decreases |lines|
  {
    var plus := set i: nat | i < |lines| && lines[i].Plus?;
    var minus := set i: nat | i < |lines| && lines[i].Minus?;
    assert forall i: nat :: i > 0 && i < |lines| ==> lines[i] == lines[1..][i - 1];
    if lines == [] {
      assert plus == {} && minus == {};
    } else {
      var rest := lines[1..];
      CountsMean(rest);
      ShiftedCount((set i: nat | i < |rest| && rest[i].Plus?), plus, lines[0].Plus?);
      ShiftedCount((set i: nat | i < |rest| && rest[i].Minus?), minus, lines[0].Minus?);
    }
  }

  /** Moving every index up by one, and perhaps adding the first, keeps count. */
  lemma {:induction false} ShiftedCount(rest: set<nat>, all: set<nat>, first: bool)
    requires forall i: nat :: i in rest <==> i + 1 in all
    requires 0 in all <==> first
    ensures |all| == |rest| + if first then 1 else 0
    decreases |rest|
  {
    if i :| i in rest {
      ShiftedCount(rest - {i}, all - {i + 1}, first);
    } else {
      forall i: nat | i in all
        ensures i == 0
      {
        assert i > 0 ==> i - 1 in rest;
      }
      assert all == if first then {0} else {};
    }
  }

  lemma {:induction false} NewestPlusMeans(lines: seq<CherryLine>)
    ensures match NewestPlus(lines)
            case Some(sha) => exists n: nat :: LastPlus(lines, n) && lines[n].sha == sha
            case None => forall i :: 0 <= i < |lines| ==> !lines[i].Plus?
    decreases |lines|
  {
    if lines != [] && !lines[|lines| - 1].Plus? {
      var init := lines[..|lines| - 1];
      NewestPlusMeans(init);
      if NewestPlus(init).Some? {
        var n: nat :| LastPlus(init, n) && init[n].sha == NewestPlus(init).value;
        assert LastPlus(lines, n);
      }
    } else if lines != [] {
      assert LastPlus(lines, |lines| - 1);
    }
  }

  /** How a branch ends, by what git answers. It is counted ahead first; `git cherry` is asked only when it is ahead and
      fits the room that is left; a row needs a commit HEAD lacks, and tells of the last one listed. The charge is the
      number of commits `git cherry` listed. */
  lemma JudgeMeans(b: BranchView, held: map<string, HeldBy>, room: nat)
    ensures var j := Judge(b, held, room);
            var asked := b.ahead.Ok? && 0 < b.ahead.value <= room;
            && (j.verdict.NotAhead? <==> b.ahead.Ok? && b.ahead.value == 0)
            && (j.verdict.OverBudget? <==> b.ahead.Ok? && b.ahead.value > room)
            && (j.verdict.OverBudget? ==> j.verdict.ahead == b.ahead.value && Names(j.verdict.name, b.reference))
            && (j.verdict.Integrated?
                <==> asked && b.cherry.Ok? && forall i :: 0 <= i < |b.cherry.value| ==> !b.cherry.value[i].Plus?)
            && (b.ahead.Err? ==> j.verdict == GitError(b.ahead.message))
            && (asked && b.cherry.Err? ==> j.verdict == GitError(b.cherry.message))
            && (asked && b.cherry.Ok? ==>
                  forall n: nat :: LastPlus(b.cherry.value, n) ==>
                    match b.facts(b.cherry.value[n].sha)
                    case Err(e) => j.verdict == GitError(e)
                    case Ok(facts) => j.verdict.Row? && j.verdict.row.newest == facts)
            && (j.verdict.Row? ==>
                  var lines, row := b.cherry.value, j.verdict.row;
                  && asked && b.cherry.Ok? && (exists n: nat :: LastPlus(lines, n))
                  && Names(row.branch, b.reference) && row.reapplied == b.reapplied
                  && row.worktree == (if b.reference in held then Some(held[b.reference]) else None)
                  && row.openCommits == |set i: nat | i < |lines| && lines[i].Plus?|
                  && row.integratedCommits == |set i: nat | i < |lines| && lines[i].Minus?|)
            && j.charge == (if asked && b.cherry.Ok? then
                              |set i: nat | i < |b.cherry.value| && b.cherry.value[i].Plus?|
                              + |set i: nat | i < |b.cherry.value| && b.cherry.value[i].Minus?|
                            else 0)
  {
    if b.cherry.Ok? {
      CountsMean(b.cherry.value);
      NewestPlusMeans(b.cherry.value);
    }
    hide CountPlus, CountMinus, NewestPlus;
  }

  /** The name of a branch is its reference without `refs/heads/` in front, if that is there. */
  predicate Names(name: string, reference: string) {
    if "refs/heads/" <= reference then reference == "refs/heads/" + name else name == reference
  }

  function Charges(js: seq<Judged>): nat { Sum(Map((j: Judged) => j.charge, js)) }

  /** Judging a list of branches under one commit budget. */
  function JudgeAll(bs: seq<BranchView>, held: map<string, HeldBy>, room: nat): (js: seq<Judged>)
    ensures |js| == |bs|
  {
    if bs == [] then []
    else
      var j := Judge(bs[0], held, room);
      [j] + JudgeAll(bs[1..], held, Sub(room, j.charge))
  }

  lemma ChargesAppend(a: seq<Judged>, b: seq<Judged>)
    ensures Charges(a + b) == Charges(a) + Charges(b)
  {
    var f := (j: Judged) => j.charge;
    assert Map(f, a + b) == Map(f, a) + Map(f, b);
    SumAppend(Map(f, a), Map(f, b));
  }

  lemma NoCharges()
    ensures Charges([]) == 0
  {
  }

  lemma ChargesOne(j: Judged)
    ensures Charges([j]) == j.charge
  {
    var f := (x: Judged) => x.charge;
    assert Map(f, [j]) == [j.charge];
    assert Sum([j.charge]) == j.charge + Sum([]);
  }

  /** Stopping and resuming with what is left of the budget changes nothing. */
  lemma {:induction false} JudgeAllAppend(a: seq<BranchView>, b: seq<BranchView>, held: map<string, HeldBy>, room: nat)
    ensures JudgeAll(a + b, held, room)
            == JudgeAll(a, held, room) + JudgeAll(b, held, Sub(room, Charges(JudgeAll(a, held, room))))
    decreases |a|
  {
    hide Judge, Charges;
    if a == [] {
      assert a + b == b;
      NoCharges();
    } else {
      var j := Judge(a[0], held, room);
      var ab := a + b;
      assert ab[0] == a[0] && ab[1..] == a[1..] + b;
      var left := Sub(room, j.charge);
      JudgeAllAppend(a[1..], b, held, left);
      var rest := JudgeAll(a[1..], held, left);
      ChargesAppend([j], rest);
      ChargesOne(j);
      assert Sub(room, Charges(JudgeAll(a, held, room))) == Sub(left, Charges(rest));
      var tail := JudgeAll(b, held, Sub(left, Charges(rest)));
      assert [j] + (rest + tail) == ([j] + rest) + tail;
    }
  }

  /** `git cherry` lists no more commits than `rev-list --count` found ahead, or is never asked. */
  predicate HonestBranch(b: BranchView) {
    b.ahead.Ok? && b.ahead.value > 0 && b.cherry.Ok? ==>
      CountPlus(b.cherry.value) + CountMinus(b.cherry.value) <= b.ahead.value
  }

  ghost predicate WellListed(bs: seq<BranchView>) { forall i :: 0 <= i < |bs| ==> HonestBranch(bs[i]) }

  /** An honest branch never costs more than there is room for. */
  lemma HonestCharge(b: BranchView, held: map<string, HeldBy>, room: nat)
    requires HonestBranch(b)
    ensures Judge(b, held, room).charge <= room
  {
  }

  lemma {:induction false} ChargesBounded(bs: seq<BranchView>, held: map<string, HeldBy>, room: nat)
    requires WellListed(bs)
    ensures Charges(JudgeAll(bs, held, room)) <= room
    decreases |bs|
  {
    if bs == [] {
      assert Charges([]) == 0;
    } else {
      var j := Judge(bs[0], held, room);
      HonestCharge(bs[0], held, room);
      ChargesBounded(bs[1..], held, room - j.charge);
      ChargesAppend([j], JudgeAll(bs[1..], held, room - j.charge));
      ChargesOne(j);
    }
  }

  /** Every amount of room can be what an honest branch leaves over. */
  lemma RoomBefore(b: BranchView, held: map<string, HeldBy>, left: nat) returns (room: nat)
    requires HonestBranch(b)
    ensures room - Judge(b, held, room).charge == left
  {
    room := left;
    if b.ahead.Ok? && b.ahead.value > 0 && b.cherry.Ok? {
      var charge := CountPlus(b.cherry.value) + CountMinus(b.cherry.value);
      if left + charge >= b.ahead.value { room := left + charge; }
    }
  }

  /** A list with a dishonest branch overspends for some budget: one that leaves exactly its ahead count for it. */
  lemma {:induction false} DishonestOverspends(bs: seq<BranchView>, held: map<string, HeldBy>) returns (room: nat)
    requires !WellListed(bs)
    ensures Charges(JudgeAll(bs, held, room)) > room
    decreases |bs|
  {
    hide Judge, HonestBranch, Charges;
    if HonestBranch(bs[0]) {
      var left := DishonestOverspends(bs[1..], held);
      room := RoomBefore(bs[0], held, left);
    } else {
      room := DishonestRoom(bs[0], held);
    }
    var j := Judge(bs[0], held, room);
    ChargesAppend([j], JudgeAll(bs[1..], held, Sub(room, j.charge)));
    ChargesOne(j);
  }

  lemma DishonestRoom(b: BranchView, held: map<string, HeldBy>) returns (room: nat)
    requires !HonestBranch(b)
    ensures Judge(b, held, room).charge > room
  {
    room := b.ahead.value;
  }

  /** The scan keeps within every commit budget if and only if `git cherry` lists, for each branch that is ahead, no
      more commits than it is ahead. */
  lemma CommitCapIff(bs: seq<BranchView>, held: map<string, HeldBy>)
    ensures (forall room: nat :: Charges(JudgeAll(bs, held, room)) <= room) <==> WellListed(bs)
  {
    if WellListed(bs) {
      forall room: nat
        ensures Charges(JudgeAll(bs, held, room)) <= room
      {
        ChargesBounded(bs, held, room);
      }
    } else {
      var room := DishonestOverspends(bs, held);
      assert Charges(JudgeAll(bs, held, room)) > room;
    }
  }

  // One checkout

  function RowsOf(js: seq<Judged>): seq<OpenBranch> {
    if js == [] then []
    else RowsOf(js[..|js| - 1]) + (if js[|js| - 1].verdict.Row? then [js[|js| - 1].verdict.row] else [])
  }

  function OverOf(js: seq<Judged>): seq<(string, nat)> {
    if js == [] then []
    else
      var v := js[|js| - 1].verdict;
      OverOf(js[..|js| - 1]) + (if v.OverBudget? then [(v.name, v.ahead)] else [])
  }

  function ErrorsOf(js: seq<Judged>): seq<string> {
    if js == [] then []
    else
      var v := js[|js| - 1].verdict;
      ErrorsOf(js[..|js| - 1]) + (if v.GitError? then [v.message] else [])
  }

  function CountVerdicts(js: seq<Judged>, p: Verdict -> bool): nat {
    if js == [] then 0
    else CountVerdicts(js[..|js| - 1], p) + (if p(js[|js| - 1].verdict) then 1 else 0)
  }

  predicate NewestFirst(a: OpenBranch, b: OpenBranch) {
    a.newest.authorTime > b.newest.authorTime
    || (a.newest.authorTime == b.newest.authorTime && LexLeq(a.branch, b.branch))
  }

  /** Branches other than HEAD's own; none when HEAD or the branch list cannot be read. */
  function OtherBranches(v: CheckoutView): seq<BranchView> {
    if v.head.Err? || v.branches.Err? then []
    else Filter(v.branches.value, (b: BranchView) => Some(b.reference) != v.headRef)
  }

  function Held(v: CheckoutView): map<string, HeldBy> {
    if v.worktrees.Ok? then v.worktrees.value else map[]
  }

  function Judgements(v: CheckoutView, caps: Caps): seq<Judged> {
    JudgeAll(Take(OtherBranches(v), caps.branches), Held(v), caps.commits)
  }

  /** Errors in the order they are noted. */
  function Errors(v: CheckoutView, caps: Caps): seq<string> {
    match v.head
    case Err(e) => [e]
    case Ok(_) =>
      (if v.worktrees.Err? then [v.worktrees.message] else [])
      + (if v.branches.Err? then [v.branches.message] else [])
      + ErrorsOf(Judgements(v, caps))
  }

  /** What a scan reports, read off the judgements. */
  function ScanReport(v: CheckoutView, caps: Caps): Scan {
    var js := Judgements(v, caps);
    var errors := Errors(v, caps);
    Scan(if v.head.Ok? then Some(v.head.value) else None,
         |OtherBranches(v)|, |js|, Charges(js), OverOf(js), SortBy(RowsOf(js), NewestFirst),
         v.head.Ok? && v.worktrees.Err?, |errors|, if errors == [] then None else Some(errors[0]))
  }

  lemma ScanCosts(v: CheckoutView, caps: Caps)
    ensures ScanReport(v, caps).branchesExamined == |Judgements(v, caps)|
    ensures ScanReport(v, caps).commitsExamined == Charges(Judgements(v, caps))
  {
  }

  function NoteError(s: Scan, e: string): Scan {
    s.(gitErrors := s.gitErrors + 1, firstGitError := if s.firstGitError.None? then Some(e) else s.firstGitError)
  }

  lemma {:induction false} JudgeAllSnoc(bs: seq<BranchView>, i: nat, held: map<string, HeldBy>, room: nat)
    requires i < |bs|
    ensures var js := JudgeAll(bs[..i], held, room);
            JudgeAll(bs[..i + 1], held, room) == js + [Judge(bs[i], held, Sub(room, Charges(js)))]
  {
    assert bs[..i + 1] == bs[..i] + [bs[i]];
    JudgeAllAppend(bs[..i], [bs[i]], held, room);
    var left := Sub(room, Charges(JudgeAll(bs[..i], held, room)));
    assert [bs[i]][1..] == [];
    assert JudgeAll([bs[i]], held, left) == [Judge(bs[i], held, left)] + [];
  }

  /** The two counters and the newest `+` of one `git cherry` answer. */
  method ReadCherry(lines: seq<CherryLine>) returns (plus: nat, minus: nat, newest: Option<string>)
    ensures plus == CountPlus(lines) && minus == CountMinus(lines) && newest == NewestPlus(lines)
  {
    plus, minus, newest := 0, 0, None;
    for i := 0 to |lines|
      invariant plus + CountPlus(lines[i..]) == CountPlus(lines)
      invariant minus + CountMinus(lines[i..]) == CountMinus(lines)
      invariant newest == NewestPlus(lines[..i])
    {
      assert lines[i..][1..] == lines[i + 1..];
      assert lines[..i + 1][..i] == lines[..i];
      match lines[i] {
        case Plus(sha) => plus, newest := plus + 1, Some(sha);
        case Minus(_) => minus := minus + 1;
        case Other =>
      }
    }
    assert lines[..|lines|] == lines;
  }

  ghost predicate Progress(scan: Scan, v: CheckoutView, js: seq<Judged>)
    requires v.head.Ok?
  {
    && scan.headSha == Some(v.head.value)
    && scan.branchesTotal == |OtherBranches(v)| && scan.branchesExamined == |js|
    && scan.commitsExamined == Charges(js) && scan.overBudget == OverOf(js) && scan.rows == RowsOf(js)
    && scan.worktreesUnknown == v.worktrees.Err?
    && var errors := (if v.worktrees.Err? then [v.worktrees.message] else []) + ErrorsOf(js);
       scan.gitErrors == |errors| && scan.firstGitError == if errors == [] then None else Some(errors[0])
  }

  /** One branch of the scan loop. */
  method ExamineBranch(scan0: Scan, v: CheckoutView, b: BranchView, caps: Caps, ghost js: seq<Judged>)
    returns (scan: Scan)
    requires v.head.Ok? && Progress(scan0, v, js)
    ensures Progress(scan, v, js + [Judge(b, Held(v), Sub(caps.commits, Charges(js)))])
  {
    ghost var judged := Judge(b, Held(v), Sub(caps.commits, Charges(js)));
    ghost var all := js + [judged];
    assert all[..|all| - 1] == js;
    ChargesAppend(js, [judged]);
    ChargesOne(judged);
    scan := scan0.(branchesExamined := scan0.branchesExamined + 1);
    if b.ahead.Err? {
      scan := NoteError(scan, b.ahead.message);
      return;
    }
    var ahead := b.ahead.value;
    if ahead == 0 {
      return;
    }
    if scan.commitsExamined + ahead > caps.commits {
      scan := scan.(overBudget := scan.overBudget + [(ShortName(b.reference), ahead)]);
      return;
    }
    if b.cherry.Err? {
      scan := NoteError(scan, b.cherry.message);
      return;
    }
    var plus, minus, newest := ReadCherry(b.cherry.value);
    scan := scan.(commitsExamined := scan.commitsExamined + plus + minus);
    if newest.None? {
      return;
    }
    match b.facts(newest.value) {
      case Err(e) =>
        scan := NoteError(scan, e);
      case Ok(facts) =>
        var held := Held(v);
        var worktree := if b.reference in held then Some(held[b.reference]) else None;
        scan := scan.(rows := scan.rows + [OpenBranch(ShortName(b.reference), worktree, plus, minus, facts, b.reapplied)]);
    }
  }

  /** Examines one checkout within `caps`. */
  method ScanCheckout(v: CheckoutView, caps: Caps) returns (scan: Scan)
    ensures scan == ScanReport(v, caps)
  {
    scan := Scan(None, 0, 0, 0, [], [], false, 0, None);
    assert JudgeAll([], Held(v), caps.commits) == [] && Charges([]) == 0;
    if v.head.Err? {
      scan := NoteError(scan, v.head.message);
      return;
    }
    scan := scan.(headSha := Some(v.head.value));
    if v.worktrees.Err? {
      scan := NoteError(scan.(worktreesUnknown := true), v.worktrees.message);
    }
    if v.branches.Err? {
      scan := NoteError(scan, v.branches.message);
      return;
    }
    scan := scan.(branchesTotal := |OtherBranches(v)|);
    var chosen := Take(OtherBranches(v), caps.branches);
    assert chosen[..0] == [];
    for i := 0 to |chosen|
      invariant Progress(scan, v, JudgeAll(chosen[..i], Held(v), caps.commits))
    {
      JudgeAllSnoc(chosen, i, Held(v), caps.commits);
      scan := ExamineBranch(scan, v, chosen[i], caps, JudgeAll(chosen[..i], Held(v), caps.commits));
    }
    assert chosen[..|chosen|] == chosen;
    scan := scan.(rows := SortBy(scan.rows, NewestFirst));
  }

  lemma {:induction false} VerdictsPartition(js: seq<Judged>)
    ensures |js| == CountVerdicts(js, (v: Verdict) => v.NotAhead?) + |OverOf(js)| + |ErrorsOf(js)|
                    + CountVerdicts(js, (v: Verdict) => v.Integrated?) + |RowsOf(js)|
  {
    if js != [] { VerdictsPartition(js[..|js| - 1]); }
  }

  /** Every examined branch is accounted for exactly once, examination stops at the branch cap, and
      when git lists honestly no more commits are examined than the commit cap. */
  lemma ScanAccounts(v: CheckoutView, caps: Caps)
    ensures var js := Judgements(v, caps);
            var scan := ScanReport(v, caps);
            && scan.branchesExamined <= caps.branches && scan.branchesExamined <= scan.branchesTotal
            && (WellListed(OtherBranches(v)) ==> scan.commitsExamined <= caps.commits)
            && scan.branchesExamined
               == CountVerdicts(js, (x: Verdict) => x.NotAhead?) + |scan.overBudget| + |ErrorsOf(js)|
                  + CountVerdicts(js, (x: Verdict) => x.Integrated?) + |scan.rows|
  {
    var js := Judgements(v, caps);
    VerdictsPartition(js);
    if WellListed(OtherBranches(v)) {
      ChargesBounded(Take(OtherBranches(v), caps.branches), Held(v), caps.commits);
    }
    SortByPermutes(RowsOf(js), NewestFirst);
  }

  /** Some branch ends this way. */
  ghost predicate Reached(js: seq<Judged>, v: Verdict) { exists i :: 0 <= i < |js| && js[i].verdict == v }

  lemma {:induction false} ListedVerdicts(js: seq<Judged>)
    ensures forall row :: row in RowsOf(js) <==> Reached(js, Row(row))
    ensures forall over :: over in OverOf(js) <==> Reached(js, OverBudget(over.0, over.1))
    ensures forall e :: e in ErrorsOf(js) <==> Reached(js, GitError(e))
    decreases |js|
  {
    if js != [] {
      var init, last := js[..|js| - 1], js[|js| - 1];
      ListedVerdicts(init);
      assert js == init + [last];
      forall v: Verdict
        ensures Reached(js, v) <==> Reached(init, v) || last.verdict == v
      {
        if i :| 0 <= i < |init| && init[i].verdict == v { assert js[i] == init[i]; }
        if last.verdict == v { assert js[|init|].verdict == v; }
      }
    }
  }

  lemma {:induction false} RoomPassesOn(bs: seq<BranchView>, held: map<string, HeldBy>, room: nat, i: nat)
    requires i < |bs|
    ensures var js := JudgeAll(bs, held, room);
            js[i] == Judge(bs[i], held, Sub(room, Charges(js[..i])))
  {
    hide Judge, Charges;
    var before, js := JudgeAll(bs[..i], held, room), JudgeAll(bs, held, room);
    JudgeAllSnoc(bs, i, held, room);
    assert bs == bs[..i + 1] + bs[i + 1..];
    JudgeAllAppend(bs[..i + 1], bs[i + 1..], held, room);
    assert js[..i] == before;
  }

  /** What a scan of a readable checkout reports. Examined are the first `caps.branches` of the branches that are not
      HEAD's own, each judged with the commits that those before it have left over; the rows, the over-budget list and
      the errors are exactly theirs, and the rows stand newest first, then by name. */
  lemma ScanMeans(v: CheckoutView, caps: Caps)
    requires v.head.Ok? && v.branches.Ok?
    ensures var js, scan, bs := Judgements(v, caps), ScanReport(v, caps), OtherBranches(v);
            && (forall b :: b in bs <==> b in v.branches.value && v.headRef != Some(b.reference))
            && scan.branchesTotal == |bs| && scan.branchesExamined == |js|
            && |js| == (if |bs| < caps.branches then |bs| else caps.branches)
            && (forall i :: 0 <= i < |js| ==>
                  js[i] == Judge(bs[i], Held(v), Sub(caps.commits, Charges(js[..i]))))
            && (forall row :: row in scan.rows <==> Reached(js, Row(row)))
            && (forall over :: over in scan.overBudget <==> Reached(js, OverBudget(over.0, over.1)))
            && (forall i, j :: 0 <= i < j < |scan.rows| ==>
                  && scan.rows[i].newest.authorTime >= scan.rows[j].newest.authorTime
                  && (scan.rows[i].newest.authorTime == scan.rows[j].newest.authorTime ==>
                        LexLeq(scan.rows[i].branch, scan.rows[j].branch)))
            && (scan.gitErrors == 0
                <==> v.worktrees.Ok? && forall i :: 0 <= i < |js| ==> !js[i].verdict.GitError?)
            && scan.commitsExamined == Charges(js)
  {
    hide Judge, Charges, NewestFirst, SortBy, LexLeq;
    var js, bs := Judgements(v, caps), OtherBranches(v);
    var own := (b: BranchView) => Some(b.reference) != v.headRef;
    FilterMembers(v.branches.value, own);
    var chosen := Take(bs, caps.branches);
    forall i | 0 <= i < |js|
      ensures js[i] == Judge(bs[i], Held(v), Sub(caps.commits, Charges(js[..i])))
    {
      RoomPassesOn(chosen, Held(v), caps.commits, i);
    }
    ListedVerdicts(js);
    NoErrorsMeans(js);
    hide JudgeAll, RowsOf, OverOf, ErrorsOf, Reached;
    RowOrder(RowsOf(js));
    SameElements(RowsOf(js), SortBy(RowsOf(js), NewestFirst));
  }

  lemma NoErrorsMeans(js: seq<Judged>)
    ensures ErrorsOf(js) == [] <==> forall i :: 0 <= i < |js| ==> !js[i].verdict.GitError?
  {
    ListedVerdicts(js);
    hide ErrorsOf;
    if ErrorsOf(js) != [] { assert Reached(js, GitError(ErrorsOf(js)[0])); }
    if i :| 0 <= i < |js| && js[i].verdict.GitError? { assert Reached(js, GitError(js[i].verdict.message)); }
  }

  lemma RowOrder(rows: seq<OpenBranch>)
    ensures var sorted := SortBy(rows, NewestFirst);
            && multiset(sorted) == multiset(rows)
            && forall i, j :: 0 <= i < j < |sorted| ==>
                 && sorted[i].newest.authorTime >= sorted[j].newest.authorTime
                 && (sorted[i].newest.authorTime == sorted[j].newest.authorTime ==>
                       LexLeq(sorted[i].branch, sorted[j].branch))
  {
    forall x: OpenBranch, y: OpenBranch
      ensures NewestFirst(x, y) || NewestFirst(y, x)
    {
      LexTotal(x.branch, y.branch);
    }
    forall x: OpenBranch, y: OpenBranch, z: OpenBranch | NewestFirst(x, y) && NewestFirst(y, z)
      ensures NewestFirst(x, z)
    {
      if LexLeq(x.branch, y.branch) && LexLeq(y.branch, z.branch) { LexTransitive(x.branch, y.branch, z.branch); }
    }
    hide LexLeq;
    SortByPermutes(rows, NewestFirst);
    SortBySorted(rows, NewestFirst);
    var sorted := SortBy(rows, NewestFirst);
    assert forall i, j :: 0 <= i < j < |sorted| ==> NewestFirst(sorted[i], sorted[j]);
  }

  /** A listing that breaks the cap: a branch counted one commit ahead whose `git cherry` lists two. */
  lemma CommitCapNeedsListing()
    ensures exists v, caps :: ScanReport(v, caps).commitsExamined > caps.commits
  {
    var b := BranchView("refs/heads/x", Ok(1), Ok([Minus("a"), Minus("b")]), (sha: string) => Err("none"), None);
    var v := CheckoutView(Ok("h"), None, Ok(map[]), Ok([b]));
    var caps := Caps(1, 1);
    var lines := [Minus("a"), Minus("b")];
    assert lines[1..] == [Minus("b")];
    assert lines[..1] == [Minus("a")] && [Minus("a")][..0] == [];
    assert CountMinus(lines) == 2 && CountPlus(lines) == 0;
    assert NewestPlus(lines) == None;
    assert OtherBranches(v) == [b];
    var j := Judge(b, map[], 1);
    assert j == Judged(Integrated, 2);
    assert JudgeAll([b], map[], 1) == [j] + JudgeAll([b][1..], map[], Sub(1, 2));
    ChargesOne(j);
    assert Take([b], 1) == [b];
    assert Judgements(v, caps) == JudgeAll([b], map[], 1) == [j];
    assert ScanReport(v, caps).commitsExamined == 2;
  }

  // All checkouts

  datatype Root = Root(path: string, date: Option<string>, foreign: bool, view: CheckoutView)

  datatype Report = Report(checkouts: seq<Scan>, notExamined: nat, foreign: nat)

  predicate DateLeq(a: Option<string>, b: Option<string>) {
    match (a, b)
    case (None, _) => true
    case (Some(_), None) => false
    case (Some(x), Some(y)) => LexLeq(x, y)
  }

  /** Freshest recorded session first, then by path. */
  predicate FresherFirst(a: Root, b: Root) {
    if a.date == b.date then LexLeq(a.path, b.path) else DateLeq(b.date, a.date)
  }

  /** The state of the collecting loop: the report and what is left of the budget; for the proofs,
      also the checkouts visited and every verdict reached, in order. */
  datatype Collected = Collected(report: Report, left: Caps, visited: seq<CheckoutView>, verdicts: seq<Judged>)

  function CollectStep(c: Collected, r: Root): Collected {
    if |c.report.checkouts| >= CHECKOUT_CAP then
      c.(report := c.report.(notExamined := c.report.notExamined + 1))
    else if r.foreign then
      c.(report := c.report.(foreign := c.report.foreign + 1))
    else
      var scan := ScanReport(r.view, c.left);
      Collected(c.report.(checkouts := c.report.checkouts + [scan]),
                Caps(Sub(c.left.branches, scan.branchesExamined), Sub(c.left.commits, scan.commitsExamined)),
                c.visited + [r.view], c.verdicts + Judgements(r.view, c.left))
  }

  function CollectUpTo(roots: seq<Root>, i: nat): Collected
    requires i <= |roots|
  {
    if i == 0 then Collected(Report([], 0, 0), Caps(BRANCH_CAP, COMMIT_CAP), [], [])
    else CollectStep(CollectUpTo(roots, i - 1), roots[i - 1])
  }

  method Collect(resolved: seq<Root>) returns (report: Report)
    ensures report == CollectUpTo(SortBy(resolved, FresherFirst), |SortBy(resolved, FresherFirst)|).report
  {
    hide ScanReport, SortBy, Judgements, FresherFirst, CollectUpTo;
    var roots := SortBy(resolved, FresherFirst);
    report := Report([], 0, 0);
    CollectNone(roots);
    var budget := Caps(BRANCH_CAP, COMMIT_CAP);
    for i := 0 to |roots|
      invariant report == CollectUpTo(roots, i).report && budget == CollectUpTo(roots, i).left
    {
      CollectNext(roots, i);
      if |report.checkouts| >= CHECKOUT_CAP {
        report := report.(notExamined := report.notExamined + 1);
      } else if roots[i].foreign {
        report := report.(foreign := report.foreign + 1);
      } else {
        var scan := ScanCheckout(roots[i].view, budget);
        budget := Caps(Sub(budget.branches, scan.branchesExamined), Sub(budget.commits, scan.commitsExamined));
        report := report.(checkouts := report.checkouts + [scan]);
      }
    }
  }

  lemma CollectNone(roots: seq<Root>)
    ensures CollectUpTo(roots, 0) == Collected(Report([], 0, 0), Caps(BRANCH_CAP, COMMIT_CAP), [], [])
  {
  }

  lemma CollectNext(roots: seq<Root>, i: nat)
    requires i < |roots|
    ensures CollectUpTo(roots, i + 1) == CollectStep(CollectUpTo(roots, i), roots[i])
  {
  }

  function SumBranches(scans: seq<Scan>): nat { Sum(Map((s: Scan) => s.branchesExamined, scans)) }

  function SumCommits(scans: seq<Scan>): nat { Sum(Map((s: Scan) => s.commitsExamined, scans)) }

  lemma SumsSnoc(scans: seq<Scan>, s: Scan)
    ensures SumBranches(scans + [s]) == SumBranches(scans) + s.branchesExamined
    ensures SumCommits(scans + [s]) == SumCommits(scans) + s.commitsExamined
  {
    var f, g := (x: Scan) => x.branchesExamined, (x: Scan) => x.commitsExamined;
    assert Map(f, scans + [s]) == Map(f, scans) + [f(s)];
    SumAppend(Map(f, scans), [f(s)]);
    assert Map(g, scans + [s]) == Map(g, scans) + [g(s)];
    SumAppend(Map(g, scans), [g(s)]);
  }

  /** Over any list of resolved checkouts: each one is examined, left unexamined or foreign; all scans
      together stay within one branch budget; and within one commit budget when git lists honestly. */
  lemma {:induction false} CollectAccounts(roots: seq<Root>, i: nat)
    requires i <= |roots|
    ensures var c := CollectUpTo(roots, i);
            && |c.report.checkouts| + c.report.notExamined + c.report.foreign == i
            && |c.report.checkouts| <= CHECKOUT_CAP
            && SumBranches(c.report.checkouts) + c.left.branches == BRANCH_CAP
            && ((forall k :: 0 <= k < i ==> WellListed(OtherBranches(roots[k].view))) ==>
                  SumCommits(c.report.checkouts) + c.left.commits == COMMIT_CAP)
  {
    hide ScanReport, Judgements, WellListed;
    if i == 0 {
      assert Map((s: Scan) => s.branchesExamined, []) == [] && Map((s: Scan) => s.commitsExamined, []) == [];
    } else {
      CollectAccounts(roots, i - 1);
      var c, r := CollectUpTo(roots, i - 1), roots[i - 1];
      if |c.report.checkouts| < CHECKOUT_CAP && !r.foreign {
        ScanAccounts(r.view, c.left);
        SumsSnoc(c.report.checkouts, ScanReport(r.view, c.left));
      }
    }
  }

  function Tagged(bs: seq<BranchView>, held: map<string, HeldBy>): seq<(BranchView, map<string, HeldBy>)> {
    Map((b: BranchView) => (b, held), bs)
  }

  /** One flat loop over branches under one commit budget. */
  function FlatJudge(bs: seq<(BranchView, map<string, HeldBy>)>, room: nat): (js: seq<Judged>)
    ensures |js| == |bs|
  {
    if bs == [] then []
    else
      var j := Judge(bs[0].0, bs[0].1, room);
      [j] + FlatJudge(bs[1..], Sub(room, j.charge))
  }

  lemma {:induction false} FlatJudgeTagged(bs: seq<BranchView>, held: map<string, HeldBy>, room: nat)
    ensures FlatJudge(Tagged(bs, held), room) == JudgeAll(bs, held, room)
    decreases |bs|
  {
    if bs != [] {
      assert Tagged(bs, held)[1..] == Tagged(bs[1..], held);
      FlatJudgeTagged(bs[1..], held, Sub(room, Judge(bs[0], held, room).charge));
    }
  }

  lemma {:induction false} FlatJudgeAppend(a: seq<(BranchView, map<string, HeldBy>)>,
                                           b: seq<(BranchView, map<string, HeldBy>)>, room: nat)
    ensures FlatJudge(a + b, room) == FlatJudge(a, room) + FlatJudge(b, Sub(room, Charges(FlatJudge(a, room))))
    decreases |a|
  {
    if a == [] {
      assert a + b == b;
      assert Charges([]) == 0;
    } else {
      var j := Judge(a[0].0, a[0].1, room);
      var ab := a + b;
      assert ab[0] == a[0] && ab[1..] == a[1..] + b;
      var left := Sub(room, j.charge);
      FlatJudgeAppend(a[1..], b, left);
      var rest := FlatJudge(a[1..], left);
      ChargesAppend([j], rest);
      ChargesOne(j);
      assert Sub(room, Charges(FlatJudge(a, room))) == Sub(left, Charges(rest));
      var tail := FlatJudge(b, Sub(left, Charges(rest)));
      assert [j] + (rest + tail) == ([j] + rest) + tail;
    }
  }

  /** The verdicts of the nested loops, checkout after checkout. */
  function NestedJudge(views: seq<CheckoutView>, caps: Caps): seq<Judged> {
    if views == [] then []
    else
      var js := Judgements(views[0], caps);
      js + NestedJudge(views[1..], Caps(Sub(caps.branches, |js|), Sub(caps.commits, Charges(js))))
  }

  function Flattened(views: seq<CheckoutView>): seq<(BranchView, map<string, HeldBy>)> {
    if views == [] then [] else Tagged(OtherBranches(views[0]), Held(views[0])) + Flattened(views[1..])
  }

  /** The nested loops with their budget handed from checkout to checkout judge exactly the branches
      a single flat loop would: the first `caps.branches` of all lists in a row, under one commit
      budget. No hypothesis on what git lists is needed. */
  lemma {:induction false} NestedIsFlat(views: seq<CheckoutView>, caps: Caps)
    ensures NestedJudge(views, caps) == FlatJudge(Take(Flattened(views), caps.branches), caps.commits)
    decreases |views|
  {
    if views != [] {
      var bs, held := OtherBranches(views[0]), Held(views[0]);
      var js := Judgements(views[0], caps);
      var left := Caps(Sub(caps.branches, |js|), Sub(caps.commits, Charges(js)));
      NestedIsFlat(views[1..], left);
      var mine := Take(bs, caps.branches);
      FlatJudgeTagged(mine, held, caps.commits);
      FlatJudgeAppend(Tagged(mine, held), Take(Flattened(views[1..]), left.branches), caps.commits);
      assert Take(Flattened(views), caps.branches)
             == Tagged(mine, held) + Take(Flattened(views[1..]), left.branches);
    }
  }

  lemma {:induction false} NestedSnoc(views: seq<CheckoutView>, v: CheckoutView, caps: Caps)
    ensures var js := NestedJudge(views, caps);
            NestedJudge(views + [v], caps)
            == js + Judgements(v, Caps(Sub(caps.branches, |js|), Sub(caps.commits, Charges(js))))
    decreases |views|
  {
    hide Judgements;
    if views == [] {
      assert ([] + [v])[1..] == [];
      assert Charges([]) == 0;
    } else {
      var head := Judgements(views[0], caps);
      var left := Caps(Sub(caps.branches, |head|), Sub(caps.commits, Charges(head)));
      var all := views + [v];
      assert all[0] == views[0] && all[1..] == views[1..] + [v];
      NestedSnoc(views[1..], v, left);
      var js := NestedJudge(views[1..], left);
      ChargesAppend(head, js);
      var last := Judgements(v, Caps(Sub(left.branches, |js|), Sub(left.commits, Charges(js))));
      assert head + (js + last) == (head + js) + last;
    }
  }

  /** The collecting loop keeps its budget equal to what its verdicts have left over, and reports
      exactly what those verdicts cost. */
  lemma {:induction false} CollectNested(roots: seq<Root>, i: nat)
    requires i <= |roots|
    ensures var c := CollectUpTo(roots, i);
            var all := Caps(BRANCH_CAP, COMMIT_CAP);
            && c.verdicts == NestedJudge(c.visited, all)
            && c.left == Caps(Sub(BRANCH_CAP, |c.verdicts|), Sub(COMMIT_CAP, Charges(c.verdicts)))
            && SumBranches(c.report.checkouts) == |c.verdicts|
            && SumCommits(c.report.checkouts) == Charges(c.verdicts)
  {
    hide ScanReport, Judgements, CollectUpTo, NestedJudge;
    if i == 0 {
      CollectNone(roots);
      assert NestedJudge([], Caps(BRANCH_CAP, COMMIT_CAP)) == [] by { NestedNone(); }
      assert Map((s: Scan) => s.branchesExamined, []) == [] && Map((s: Scan) => s.commitsExamined, []) == [];
      assert Charges([]) == 0;
    } else {
      CollectNested(roots, i - 1);
      CollectNext(roots, i - 1);
      var c, r := CollectUpTo(roots, i - 1), roots[i - 1];
      if |c.report.checkouts| < CHECKOUT_CAP && !r.foreign {
        NestedSnoc(c.visited, r.view, Caps(BRANCH_CAP, COMMIT_CAP));
        SumsSnoc(c.report.checkouts, ScanReport(r.view, c.left));
        ScanCosts(r.view, c.left);
        ChargesAppend(c.verdicts, Judgements(r.view, c.left));
      }
    }
  }

  lemma NestedNone()
    ensures NestedJudge([], Caps(BRANCH_CAP, COMMIT_CAP)) == []
  {
  }

  /** The collection as a whole examines the first BRANCH_CAP branches of the visited checkouts in a row, and
      judges them as one loop with COMMIT_CAP commits to spend would. */
  lemma CollectIsFlat(roots: seq<Root>, i: nat)
    requires i <= |roots|
    ensures var c := CollectUpTo(roots, i);
            && c.verdicts == FlatJudge(Take(Flattened(c.visited), BRANCH_CAP), COMMIT_CAP)
            && SumBranches(c.report.checkouts) == |Take(Flattened(c.visited), BRANCH_CAP)|
            && SumCommits(c.report.checkouts) == Charges(c.verdicts)
  {
    CollectNested(roots, i);
    NestedIsFlat(CollectUpTo(roots, i).visited, Caps(BRANCH_CAP, COMMIT_CAP));
  }

  /** The visited checkouts are the first CHECKOUT_CAP roots whose origin is not another project. */
  lemma {:induction false} VisitsFirstOwn(roots: seq<Root>, i: nat)
    requires i <= |roots|
    ensures var own := Map((r: Root) => r.view, Filter(roots[..i], (r: Root) => !r.foreign));
            var c := CollectUpTo(roots, i);
            c.visited == Take(own, CHECKOUT_CAP) && |c.report.checkouts| == |c.visited|
  {
    hide ScanReport, Judgements, WellListed;
    if i == 0 {
      assert roots[..0] == [];
    } else {
      VisitsFirstOwn(roots, i - 1);
      var keep := (r: Root) => !r.foreign;
      var view := (r: Root) => r.view;
      assert roots[..i] == roots[..i - 1] + [roots[i - 1]];
      FilterAppend(roots[..i - 1], [roots[i - 1]], keep);
      assert [roots[i - 1]][1..] == [];
      assert Filter([roots[i - 1]], keep) == if roots[i - 1].foreign then [] else [roots[i - 1]];
      var before := Filter(roots[..i - 1], keep);
      assert Map(view, before + [roots[i - 1]]) == Map(view, before) + [roots[i - 1].view];
      assert before + [] == before;
    }
  }

  ghost predicate Examined(roots: seq<Root>, k: nat)
    requires k < |roots|
  {
    |CollectUpTo(roots, k).report.checkouts| < CHECKOUT_CAP && !roots[k].foreign
  }

  ghost predicate Unexamined(roots: seq<Root>, k: nat)
    requires k < |roots|
  {
    |CollectUpTo(roots, k).report.checkouts| >= CHECKOUT_CAP
  }

  lemma {:induction false} CheckoutsGrow(roots: seq<Root>, j: nat, k: nat)
    requires j <= k <= |roots|
    ensures |CollectUpTo(roots, j).report.checkouts| <= |CollectUpTo(roots, k).report.checkouts|
  {
    hide ScanReport, Judgements, WellListed;
    if j < k { CheckoutsGrow(roots, j, k - 1); }
  }

  lemma FresherFirstIsOrder()
    ensures TotalPreorder(FresherFirst)
  {
    forall x: Root, y: Root ensures FresherFirst(x, y) || FresherFirst(y, x) {
      LexTotal(x.path, y.path);
      DateTotal(x.date, y.date);
    }
    forall x: Root, y: Root, z: Root | FresherFirst(x, y) && FresherFirst(y, z) ensures FresherFirst(x, z) {
      if x.date == y.date == z.date {
        LexTransitive(x.path, y.path, z.path);
      } else if x.date != y.date && y.date != z.date {
        DateTransitive(z.date, y.date, x.date);
        if x.date == z.date { DateAntisymmetric(x.date, y.date); }
      }
    }
  }

  lemma DateTotal(a: Option<string>, b: Option<string>)
    ensures DateLeq(a, b) || DateLeq(b, a)
  {
    if a.Some? && b.Some? { LexTotal(a.value, b.value); }
  }

  lemma DateTransitive(a: Option<string>, b: Option<string>, c: Option<string>)
    requires DateLeq(a, b) && DateLeq(b, c)
    ensures DateLeq(a, c)
  {
    if a.Some? && b.Some? && c.Some? { LexTransitive(a.value, b.value, c.value); }
  }

  lemma DateAntisymmetric(a: Option<string>, b: Option<string>)
    requires DateLeq(a, b) && DateLeq(b, a)
    ensures a == b
  {
    if a.Some? && b.Some? { LexAntisymmetric(a.value, b.value); }
  }

  /** A checkout left unexamined is never fresher than one that was examined. */
  lemma FreshestExamined(resolved: seq<Root>, j: nat, k: nat)
    requires j < |SortBy(resolved, FresherFirst)| && k < |SortBy(resolved, FresherFirst)|
    requires Examined(SortBy(resolved, FresherFirst), j) && Unexamined(SortBy(resolved, FresherFirst), k)
    ensures var roots := SortBy(resolved, FresherFirst);
            && j < k
            && (match (roots[k].date, roots[j].date)
                case (Some(later), Some(earlier)) => LexLeq(later, earlier)
                case (Some(_), None) => false
                case (None, _) => true)
            && (roots[j].date == roots[k].date ==> LexLeq(roots[j].path, roots[k].path))
  {
    var roots := SortBy(resolved, FresherFirst);
    if k <= j {
      CheckoutsGrow(roots, k, j);
    }
    FresherFirstIsOrder();
    SortBySorted(resolved, FresherFirst);
    assert FresherFirst(roots[j], roots[k]);
    DateTotal(roots[j].date, roots[k].date);
  }
}

/** Capped extraction of intent candidates (src/intents.rs): files are ordered by how much human
    speech they carry, and two accumulators stop growing at one cap. */
module Admission {
  import opened Ordering
  import opened Text

  const MAX_CANDIDATES: nat := 5000

  /** A source file with what its signal lines and its transcript yield. */
  datatype SourceFile<+C, +T> = SourceFile(humanMessages: nat, timestamp: int, sequence: nat, path: string,
                                           signalCandidates: seq<C>, signalTasks: seq<T>,
                                           rawCandidates: seq<C>, rawTasks: seq<T>)

  /** More human messages first, then newest, then highest sequence, then last path. */
  predicate AdmittedFirst<C, T>(a: SourceFile<C, T>, b: SourceFile<C, T>) {
    if a.humanMessages != b.humanMessages then a.humanMessages > b.humanMessages
    else if a.timestamp != b.timestamp then a.timestamp > b.timestamp
    else if a.sequence != b.sequence then a.sequence > b.sequence
    else LexLeq(b.path, a.path)
  }

  lemma AdmittedFirstIsOrder<C, T>(files: seq<SourceFile<C, T>>)
    ensures PreorderOn(files, AdmittedFirst<C, T>)
  {
    forall x, y | x in files && y in files ensures AdmittedFirst(x, y) || AdmittedFirst(y, x) {
      LexTotal(x.path, y.path);
    }
    forall x, y, z | x in files && y in files && z in files && AdmittedFirst(x, y) && AdmittedFirst(y, z)
      ensures AdmittedFirst(x, z)
    {
      if LexLeq(z.path, y.path) && LexLeq(y.path, x.path) { LexTransitive(z.path, y.path, x.path); }
    }
  }

  /** Appends what fits under the cap and counts what does not. `warned` is set by the first overflow. */
  method ExtendWithCap<A>(target: seq<A>, additions: seq<A>, warned: bool)
    returns (r: seq<A>, warned': bool, dropped: nat)
    requires |target| <= MAX_CANDIDATES
    ensures r == Take(target + additions, MAX_CANDIDATES)
    ensures dropped == |target| + |additions| - |r|
    ensures warned' <==> warned || dropped > 0
  {
    var room := if MAX_CANDIDATES >= |target| then MAX_CANDIDATES - |target| else 0;
    if |additions| <= room {
      return target + additions, warned, 0;
    }
    r := target + additions[..room];
    warned' := true;
    dropped := |additions| - room;
    assert r == (target + additions)[..MAX_CANDIDATES];
  }

  function AllCandidates<C, T>(files: seq<SourceFile<C, T>>): seq<C> {
    if files == [] then []
    else
      var last := files[|files| - 1];
      AllCandidates(files[..|files| - 1]) + last.signalCandidates + last.rawCandidates
  }

  function AllTasks<C, T>(files: seq<SourceFile<C, T>>): seq<T> {
    if files == [] then []
    else
      var last := files[|files| - 1];
      AllTasks(files[..|files| - 1]) + last.signalTasks + last.rawTasks
  }

  lemma TakeTwice<A>(s: seq<A>, x: seq<A>, n: nat)
    ensures Take(Take(s, n) + x, n) == Take(s + x, n)
    ensures |Take(s, n)| + |x| - |Take(Take(s, n) + x, n)| == |s| + |x| - |Take(s + x, n)| - (|s| - |Take(s, n)|)
  {
  }

  /** The extraction loop over files in admission order. Each accumulator ends as the first
      MAX_CANDIDATES items all files yield in that order, and its counter as the number of the rest. */
  method Extract<C, T>(admitted: seq<SourceFile<C, T>>)
    returns (candidates: seq<C>, tasks: seq<T>, droppedCandidates: nat, droppedTasks: nat)
    ensures var files := SortBy(admitted, AdmittedFirst<C, T>);
            && candidates == Take(AllCandidates(files), MAX_CANDIDATES)
            && tasks == Take(AllTasks(files), MAX_CANDIDATES)
            && droppedCandidates == |AllCandidates(files)| - |candidates|
            && droppedTasks == |AllTasks(files)| - |tasks|
  {
    hide SortBy, AllCandidates, AllTasks;
    var files := SortBy(admitted, AdmittedFirst<C, T>);
    candidates, tasks, droppedCandidates, droppedTasks := [], [], 0, 0;
    var warned := false;
    NothingYet<C, T>();
    assert files[..0] == [];
    for i := 0 to |files|
      invariant candidates == Take(AllCandidates(files[..i]), MAX_CANDIDATES)
      invariant tasks == Take(AllTasks(files[..i]), MAX_CANDIDATES)
      invariant droppedCandidates == |AllCandidates(files[..i])| - |candidates|
      invariant droppedTasks == |AllTasks(files[..i])| - |tasks|
    {
      var file := files[i];
      ghost var sofar, tasksSofar := AllCandidates(files[..i]), AllTasks(files[..i]);
      OneFileMore(files, i);
      var dropped;
      candidates, warned, dropped := ExtendWithCap(candidates, file.signalCandidates, warned);
      droppedCandidates := droppedCandidates + dropped;
      TakeTwice(sofar, file.signalCandidates, MAX_CANDIDATES);
      tasks, warned, dropped := ExtendWithCap(tasks, file.signalTasks, warned);
      droppedTasks := droppedTasks + dropped;
      TakeTwice(tasksSofar, file.signalTasks, MAX_CANDIDATES);
      candidates, warned, dropped := ExtendWithCap(candidates, file.rawCandidates, warned);
      droppedCandidates := droppedCandidates + dropped;
      TakeTwice(sofar + file.signalCandidates, file.rawCandidates, MAX_CANDIDATES);
      tasks, warned, dropped := ExtendWithCap(tasks, file.rawTasks, warned);
      droppedTasks := droppedTasks + dropped;
      TakeTwice(tasksSofar + file.signalTasks, file.rawTasks, MAX_CANDIDATES);
    }
    assert files[..|files|] == files;
  }

  lemma NothingYet<C, T>()
    ensures AllCandidates<C, T>([]) == [] && AllTasks<C, T>([]) == []
  {
  }

  lemma OneFileMore<C, T>(files: seq<SourceFile<C, T>>, i: nat)
    requires i < |files|
    ensures AllCandidates(files[..i + 1]) == AllCandidates(files[..i]) + files[i].signalCandidates + files[i].rawCandidates
    ensures AllTasks(files[..i + 1]) == AllTasks(files[..i]) + files[i].signalTasks + files[i].rawTasks
  {
    assert files[..i + 1][..i] == files[..i];
  }

  /** How many candidates the files before `f` yield. */
  function Offset<C, T>(files: seq<SourceFile<C, T>>, f: nat): nat
    requires f <= |files|
  {
    |AllCandidates(files[..f])|
  }

  /** The order of admission: of two files the one with more human messages comes first, then the newer, then the one of
      the higher sequence, then the one of the later path. Every file is admitted once. */
  lemma AdmissionOrder<C, T>(admitted: seq<SourceFile<C, T>>, i: nat, j: nat)
    requires i < j < |SortBy(admitted, AdmittedFirst<C, T>)|
    ensures multiset(SortBy(admitted, AdmittedFirst<C, T>)) == multiset(admitted)
    ensures var a, b := SortBy(admitted, AdmittedFirst<C, T>)[i], SortBy(admitted, AdmittedFirst<C, T>)[j];
            && a.humanMessages >= b.humanMessages
            && (a.humanMessages == b.humanMessages ==>
                  && a.timestamp >= b.timestamp
                  && (a.timestamp == b.timestamp ==>
                        && a.sequence >= b.sequence
                        && (a.sequence == b.sequence ==> LexLeq(b.path, a.path))))
  {
    AdmittedFirstIsOrder(admitted);
    SortByPermutes(admitted, AdmittedFirst<C, T>);
    SortBySortedOn(admitted, AdmittedFirst<C, T>);
    var files := SortBy(admitted, AdmittedFirst<C, T>);
    assert AdmittedFirst(files[i], files[j]);
    hide SortBy, LexLeq;
  }

  /** What the files yield, file by file: after the candidates of the files before it come those of a file's signal
      lines and then those of its transcript, and nothing else; so for tasks. */
  lemma {:induction false} YieldedInOrder<C, T>(files: seq<SourceFile<C, T>>, f: nat)
    requires f < |files|
    ensures AllCandidates(files[..f]) + files[f].signalCandidates + files[f].rawCandidates <= AllCandidates(files)
    ensures AllTasks(files[..f]) + files[f].signalTasks + files[f].rawTasks <= AllTasks(files)
    ensures AllCandidates<C, T>([]) == [] && AllTasks<C, T>([]) == []
    decreases |files|
  {
    hide AllCandidates, AllTasks;
    var n := |files| - 1;
    NothingYet<C, T>();
    OneFileMore(files, n);
    assert files[..n + 1] == files;
    if f < n {
      YieldedInOrder(files[..n], f);
      assert files[..n][..f] == files[..f];
    }
  }

  /** Some candidate of file `f` made it under the cap. */
  ghost predicate KeptSome<C, T>(files: seq<SourceFile<C, T>>, f: nat) {
    f < |files| && Offset(files, f) < Offset(files, f + 1) && Offset(files, f) < MAX_CANDIDATES
  }

  /** Some candidate of file `f` was dropped. */
  ghost predicate LostSome<C, T>(files: seq<SourceFile<C, T>>, f: nat) {
    f < |files| && Offset(files, f) < Offset(files, f + 1) && Offset(files, f + 1) > MAX_CANDIDATES
  }

  lemma {:induction false} OffsetGrows<C, T>(files: seq<SourceFile<C, T>>, f: nat, g: nat)
    requires f <= g <= |files|
    ensures Offset(files, f) <= Offset(files, g)
  {
    hide AllCandidates;
    if f < g {
      OffsetGrows(files, f, g - 1);
      OneFileMore(files, g - 1);
    }
  }

  /** A candidate is dropped only when the cap is full, and only files with at least as many human
      messages as its own fill it. */
  lemma OnlyHeavierFilesFillTheCap<C, T>(admitted: seq<SourceFile<C, T>>, lost: nat, kept: nat)
    requires var files := SortBy(admitted, AdmittedFirst<C, T>); LostSome(files, lost) && KeptSome(files, kept)
    ensures var files := SortBy(admitted, AdmittedFirst<C, T>);
            && |Take(AllCandidates(files), MAX_CANDIDATES)| == MAX_CANDIDATES
            && kept <= lost && files[kept].humanMessages >= files[lost].humanMessages
  {
    hide AllCandidates, SortBy;
    var files := SortBy(admitted, AdmittedFirst<C, T>);
    OffsetGrows(files, lost + 1, |files|);
    assert files[..|files|] == files;
    if kept > lost { OffsetGrows(files, lost + 1, kept); }
    AdmittedFirstIsOrder(admitted);
    SortBySortedOn(admitted, AdmittedFirst<C, T>);
    assert kept < lost ==> AdmittedFirst(files[kept], files[lost]);
  }
}

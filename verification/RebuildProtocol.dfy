/** The dashboard rebuild protocol (src/dashboard_server.rs).

    Requests share one `rebuilding` flag, released by a drop guard, and one snapshot behind a lock.
    A request is a sequence of atomic steps; any number of requests interleave, and a request may be
    cancelled wherever it awaits. */
module RebuildProtocol {
  import opened Ordering
  import opened Text

  const U64_MAX: nat := 0xFFFF_FFFF_FFFF_FFFF

  datatype ScanStatus = NotScanned | Ready

  datatype Stats = Stats(sessions: nat, chunks: nat)

  datatype Payload = Payload(generatedAt: string, stats: Stats, assumptions: seq<string>, records: seq<string>)

  datatype Build = Build(payload: Payload, generatedAt: int)

  datatype Snapshot = Snapshot(payload: Payload, generatedAt: int, stats: Stats, assumptions: seq<string>,
                               buildCount: nat, lastError: Option<string>, scanStatus: ScanStatus)

  datatype BuildResult = Built(build: Build) | BuildError(message: string)

  function SaturatingAdd(a: nat, b: nat): nat {
    if a + b <= U64_MAX then a + b else U64_MAX
  }

  /** A snapshot made from a finished build at startup. */
  function FromBuild(b: Build): Snapshot {
    Snapshot(b.payload, b.generatedAt, b.payload.stats, b.payload.assumptions, 1, None, Ready)
  }

  /** A snapshot that has not been scanned yet. */
  function Deferred(now: int, note: string): Snapshot {
    Snapshot(Payload("", Stats(0, 0), [note], []), now, Stats(0, 0), [note], 0, None, NotScanned)
  }

  function WithBuild(s: Snapshot, b: Build): Snapshot {
    Snapshot(b.payload, b.generatedAt, b.payload.stats, b.payload.assumptions,
             SaturatingAdd(s.buildCount, 1), None, Ready)
  }

  function WithError(s: Snapshot, message: string): Snapshot {
    s.(lastError := Some(message))
  }

  /** The state shared by all requests; each method is one atomic section. */
  class DashboardServerState {
    var rebuilding: bool
    var payload: Payload
    var generatedAt: int
    var stats: Stats
    var assumptions: seq<string>
    var buildCount: nat
    var lastError: Option<string>
    var scanStatus: ScanStatus

    function View(): Snapshot reads this {
      Snapshot(payload, generatedAt, stats, assumptions, buildCount, lastError, scanStatus)
    }

    constructor (initial: Snapshot)
      ensures View() == initial && !rebuilding
    {
      rebuilding := false;
      payload, generatedAt := initial.payload, initial.generatedAt;
      stats, assumptions := initial.stats, initial.assumptions;
      buildCount, lastError, scanStatus := initial.buildCount, initial.lastError, initial.scanStatus;
    }

    /** `rebuilding.swap(true)`: the caller owns the guard when this answers false. */
    method SwapFlag() returns (was: bool)
      modifies this
      ensures was == old(rebuilding) && rebuilding
      ensures View() == old(View())
    {
      was := rebuilding;
      rebuilding := true;
    }

    /** The guard's drop. */
    method DropGuard()
      modifies this
      ensures !rebuilding && View() == old(View())
    {
      rebuilding := false;
    }

    /** The section of `rebuild_snapshot` under the write lock. A published build replaces every
        field; a failed one only leaves its message. */
    method RebuildSnapshot(result: BuildResult) returns (response: Option<nat>)
      modifies this
      ensures rebuilding == old(rebuilding)
      ensures result.Built? ==>
                && payload == result.build.payload && generatedAt == result.build.generatedAt
                && stats == result.build.payload.stats && assumptions == result.build.payload.assumptions
                && buildCount == (if old(buildCount) < U64_MAX then old(buildCount) + 1 else U64_MAX)
                && lastError == None && scanStatus == Ready && response == Some(buildCount)
      ensures result.BuildError? ==>
                View() == old(View()).(lastError := Some(result.message)) && response == None
      ensures View() == match result
                        case Built(build) => WithBuild(old(View()), build)
                        case BuildError(message) => WithError(old(View()), message)
    {
      match result {
        case BuildError(message) =>
          lastError := Some(message);
          return None;
        case Built(build) =>
          stats := build.payload.stats;
          assumptions := build.payload.assumptions;
          payload := build.payload;
          generatedAt := build.generatedAt;
          buildCount := SaturatingAdd(buildCount, 1);
          lastError := None;
          scanStatus := Ready;
          return Some(buildCount);
      }
    }
  }

  // The protocol

  datatype Kind = Browse | Regenerate

  datatype Answer = Served | StillReading | Conflict | Forbidden | Failed(message: string)
                  | Rebuilt(count: nat) | Cancelled

  /** Where one request stands. From `Building` until `Finished` it owns the drop guard. */
  datatype Phase =
    | Arrived(kind: Kind)
    | SawDeferred
    | Building(kind: Kind)
    | HasResult(kind: Kind, result: BuildResult)
    | Settled(kind: Kind, answer: Answer)
    | Finished(answer: Answer)

  predicate Owns(p: Phase) { p.Building? || p.HasResult? || p.Settled? }

  /** `published` is history: the build counts answered by each publish so far. `running` holds the requests whose
      blocking build has not ended; cancelling a request drops its guard but not its build. */
  datatype System = System(flag: bool, snapshot: Snapshot, requests: map<nat, Phase>, published: seq<nat>,
                           running: set<nat>)

  datatype Action =
    | Arrive(id: nat, kind: Kind, admitted: bool)
    | ReadStatus(id: nat)
    | Swap(id: nat)
    | FinishBuild(id: nat, result: BuildResult)
    | WriteSnapshot(id: nat)
    | Release(id: nat)
    | Cancel(id: nat)
    | AbandonedBuildEnds(id: nat)

  function Move(s: System, id: nat, p: Phase): System { s.(requests := s.requests[id := p]) }

  /** One atomic step; a step that does not apply leaves the system alone. */
  function Next(s: System, a: Action): System {
    match a
    case Arrive(id, kind, admitted) =>
      if id in s.requests then s
      else if admitted then Move(s, id, Arrived(kind))
      else Move(s, id, Finished(if kind.Regenerate? then Forbidden else Served))
    case ReadStatus(id) =>
      if id in s.requests && s.requests[id] == Arrived(Browse) then
        Move(s, id, if s.snapshot.scanStatus.NotScanned? then SawDeferred else Finished(Served))
      else s
    case Swap(id) =>
      if id !in s.requests then s
      else if s.requests[id] == SawDeferred then
        if s.flag then Move(s, id, Finished(StillReading))
        else Move(s.(flag := true, running := s.running + {id}), id, Building(Browse))
      else if s.requests[id] == Arrived(Regenerate) then
        if s.flag then Move(s, id, Finished(Conflict))
        else Move(s.(flag := true, running := s.running + {id}), id, Building(Regenerate))
      else s
    case FinishBuild(id, result) =>
      if id in s.requests && s.requests[id].Building? then
        Move(s.(running := s.running - {id}), id, HasResult(s.requests[id].kind, result))
      else s
    case WriteSnapshot(id) =>
      if id in s.requests && s.requests[id].HasResult? then
        var kind := s.requests[id].kind;
        match s.requests[id].result
        case BuildError(message) =>
          Move(s.(snapshot := WithError(s.snapshot, message)), id, Settled(kind, Failed(message)))
        case Built(build) =>
          var snapshot := WithBuild(s.snapshot, build);
          Move(s.(snapshot := snapshot, published := s.published + [snapshot.buildCount]), id,
               Settled(kind, if kind.Browse? then Served else Rebuilt(snapshot.buildCount)))
      else s
    case Release(id) =>
      if id in s.requests && s.requests[id].Settled? then
        Move(s.(flag := false), id, Finished(s.requests[id].answer))
      else s
    case Cancel(id) =>
      // Only where the request awaits: the status read, the blocking build, the write lock.
      if id in s.requests && (s.requests[id].Building? || s.requests[id].HasResult?) then
        Move(s.(flag := false), id, Finished(Cancelled))
      else if id in s.requests && s.requests[id].Arrived? then
        Move(s, id, Finished(Cancelled))
      else s
    case AbandonedBuildEnds(id) =>
      if id in s.requests && s.requests[id] == Finished(Cancelled) then s.(running := s.running - {id}) else s
  }

  /** The requests of a server over its shared state. Every step that swaps or clears the flag or writes the snapshot
      does so by a call of that state, so the step system above is what the class does. */
  class Server {
    const state: DashboardServerState
    var requests: map<nat, Phase>
    ghost var published: seq<nat>
    ghost var running: set<nat>

    ghost function Value(): System
      reads this, state
    {
      System(state.rebuilding, state.View(), requests, published, running)
    }

    constructor (initial: Snapshot)
      ensures fresh(state) && Value() == Start(initial)
    {
      state := new DashboardServerState(initial);
      requests, published, running := map[], [], {};
    }

    method Step(a: Action)
      modifies this, state
      ensures Value() == Next(old(Value()), a)
    {
      hide WithBuild, WithError;
      match a {
        case Arrive(id, kind, admitted) =>
          if id !in requests {
            requests := requests[id := if admitted then Arrived(kind)
                                       else Finished(if kind.Regenerate? then Forbidden else Served)];
          }
        case ReadStatus(id) =>
          if id in requests && requests[id] == Arrived(Browse) {
            requests := requests[id := if state.scanStatus.NotScanned? then SawDeferred else Finished(Served)];
          }
        case Swap(id) =>
          if id in requests && (requests[id] == SawDeferred || requests[id] == Arrived(Regenerate)) {
            var kind := if requests[id].SawDeferred? then Browse else Regenerate;
            var was := state.SwapFlag();
            if !was { running := running + {id}; }
            requests := requests[id := if !was then Building(kind)
                                       else Finished(if kind.Browse? then StillReading else Conflict)];
          }
        case FinishBuild(id, result) =>
          if id in requests && requests[id].Building? {
            requests := requests[id := HasResult(requests[id].kind, result)];
            running := running - {id};
          }
        case WriteSnapshot(id) =>
          if id in requests && requests[id].HasResult? {
            var kind, result := requests[id].kind, requests[id].result;
            var response := state.RebuildSnapshot(result);
            match response {
              case None => requests := requests[id := Settled(kind, Failed(result.message))];
              case Some(count) =>
                published := published + [count];
                requests := requests[id := Settled(kind, if kind.Browse? then Served else Rebuilt(count))];
            }
          }
        case Release(id) =>
          if id in requests && requests[id].Settled? {
            state.DropGuard();
            requests := requests[id := Finished(requests[id].answer)];
          }
        case Cancel(id) =>
          if id in requests && (requests[id].Building? || requests[id].HasResult?) {
            state.DropGuard();
            requests := requests[id := Finished(Cancelled)];
          } else if id in requests && requests[id].Arrived? {
            requests := requests[id := Finished(Cancelled)];
          }
        case AbandonedBuildEnds(id) =>
          if id in requests && requests[id] == Finished(Cancelled) { running := running - {id}; }
      }
    }
  }

  function Start(initial: Snapshot): System { System(false, initial, map[], [], {}) }

  /** The state after the first `n` actions. */
  function Run(s: System, actions: seq<Action>, n: nat): System
    requires n <= |actions|
  {
    if n == 0 then s else Next(Run(s, actions, n - 1), actions[n - 1])
  }

  ghost predicate Holder(s: System, id: nat) { id in s.requests && Owns(s.requests[id]) }

  /** The flag is set exactly when one guard is alive. */
  ghost predicate FlagIsGuard(s: System) {
    && (s.flag <==> exists id :: Holder(s, id))
    && (forall i, j :: Holder(s, i) && Holder(s, j) ==> i == j)
  }

  /** What the snapshot shows always comes from one published payload. */
  ghost predicate Coherent(s: System) {
    s.snapshot.stats == s.snapshot.payload.stats && s.snapshot.assumptions == s.snapshot.payload.assumptions
  }

  /** The build count is the initial one plus the publishes, and so is every answered count, all
      saturating together; the snapshot is ready exactly when it started so or something was published. */
  ghost predicate Counted(s: System, initial: Snapshot) {
    && s.snapshot.buildCount == SaturatingAdd(initial.buildCount, |s.published|)
    && (forall i :: 0 <= i < |s.published| ==> s.published[i] == SaturatingAdd(initial.buildCount, i + 1))
    && (s.snapshot.scanStatus.Ready? <==> initial.scanStatus.Ready? || s.published != [])
  }

  /** A regenerate request answered "rebuilt, count n" only when some publish produced n. */
  ghost predicate AnswersPublished(s: System) {
    forall id :: id in s.requests ==>
      && (s.requests[id].Settled? && s.requests[id].answer.Rebuilt? ==> s.requests[id].answer.count in s.published)
      && (s.requests[id].Finished? && s.requests[id].answer.Rebuilt? ==> s.requests[id].answer.count in s.published)
  }

  ghost predicate Inv(s: System, initial: Snapshot) {
    FlagIsGuard(s) && Coherent(s) && Counted(s, initial) && AnswersPublished(s)
  }

  ghost predicate Initial(snapshot: Snapshot) {
    || (exists b :: snapshot == FromBuild(b))
    || (exists now, note :: snapshot == Deferred(now, note))
  }

  function Actor(a: Action): nat { a.id }

  /** No step moves any request but its own. */
  lemma OthersStay(s: System, a: Action, id: nat)
    requires id != Actor(a)
    ensures id in Next(s, a).requests <==> id in s.requests
    ensures id in s.requests ==> Next(s, a).requests[id] == s.requests[id]
  {
  }

  /** When a request takes or gives up the guard, and what that does to the flag. */
  lemma GuardMoves(s: System, a: Action)
    ensures var s' := Next(s, a);
            var id := Actor(a);
            && (Holder(s, id) && Holder(s', id) ==> s'.flag == s.flag)
            && (!Holder(s, id) && !Holder(s', id) ==> s'.flag == s.flag)
            && (!Holder(s, id) && Holder(s', id) ==> !s.flag && s'.flag)
            && (Holder(s, id) && !Holder(s', id) ==> !s'.flag)
  {
  }

  lemma FlagStep(s: System, a: Action)
    requires FlagIsGuard(s)
    ensures FlagIsGuard(Next(s, a))
  {
    var s', id := Next(s, a), Actor(a);
    GuardMoves(s, a);
    forall i | i != id ensures Holder(s', i) <==> Holder(s, i) { OthersStay(s, a, i); }
    if s'.flag {
      if Holder(s', id) {
      } else {
        var i :| Holder(s, i);
        assert Holder(s', i);
      }
    }
  }

  lemma CountStep(s: System, a: Action, initial: Snapshot)
    requires Counted(s, initial) && initial.buildCount <= U64_MAX
    ensures Counted(Next(s, a), initial)
  {
  }

  lemma CoherentStep(s: System, a: Action)
    requires Coherent(s)
    ensures Coherent(Next(s, a))
  {
  }

  lemma AnswerStep(s: System, a: Action)
    requires AnswersPublished(s)
    ensures AnswersPublished(Next(s, a))
  {
    var s' := Next(s, a);
    forall id | id in s'.requests
      ensures s'.requests[id].Settled? && s'.requests[id].answer.Rebuilt? ==>
                s'.requests[id].answer.count in s'.published
      ensures s'.requests[id].Finished? && s'.requests[id].answer.Rebuilt? ==>
                s'.requests[id].answer.count in s'.published
    {
      if id != Actor(a) { OthersStay(s, a, id); }
    }
  }

  /** Every state of every run, whatever the interleaving, failures and cancellations. */
  lemma {:induction false} RunInvariant(initial: Snapshot, actions: seq<Action>, n: nat)
    requires Initial(initial) && n <= |actions|
    ensures Inv(Run(Start(initial), actions, n), initial)
  {
    hide Next;
    if n > 0 {
      RunInvariant(initial, actions, n - 1);
      var s := Run(Start(initial), actions, n - 1);
      FlagStep(s, actions[n - 1]);
      CoherentStep(s, actions[n - 1]);
      CountStep(s, actions[n - 1], initial);
      AnswerStep(s, actions[n - 1]);
    }
  }

  // What the snapshot shows

  /** The results written under the lock in the first `n` steps of a run, in order. */
  ghost function Writes(initial: Snapshot, actions: seq<Action>, n: nat): seq<BuildResult>
    requires n <= |actions|
  {
    if n == 0 then []
    else
      Writes(initial, actions, n - 1)
      + var (s, a) := (Run(Start(initial), actions, n - 1), actions[n - 1]);
        if a.WriteSnapshot? && a.id in s.requests && s.requests[a.id].HasResult? then [s.requests[a.id].result] else []
  }

  function Builds(writes: seq<BuildResult>): (n: nat)
    ensures n == 0 <==> forall i :: 0 <= i < |writes| ==> writes[i].BuildError?
  {
    if writes == [] then 0 else Builds(writes[..|writes| - 1]) + (if writes[|writes| - 1].Built? then 1 else 0)
  }

  /** The last of the writes that published. */
  ghost predicate LastBuilt(writes: seq<BuildResult>, i: nat) {
    i < |writes| && writes[i].Built? && forall j :: i < j < |writes| ==> writes[j].BuildError?
  }

  ghost predicate Shows(snapshot: Snapshot, initial: Snapshot, writes: seq<BuildResult>) {
    && (forall i: nat :: LastBuilt(writes, i) ==>
          var build := writes[i].build;
          && snapshot.payload == build.payload && snapshot.generatedAt == build.generatedAt
          && snapshot.stats == build.payload.stats && snapshot.assumptions == build.payload.assumptions
          && snapshot.scanStatus == Ready)
    && (Builds(writes) == 0 ==>
          snapshot == initial.(lastError := snapshot.lastError, buildCount := snapshot.buildCount))
    && snapshot.lastError == (if writes == [] then initial.lastError
                              else match writes[|writes| - 1]
                                   case Built(_) => None
                                   case BuildError(message) => Some(message))
    && snapshot.buildCount == (if initial.buildCount + Builds(writes) < U64_MAX
                               then initial.buildCount + Builds(writes) else U64_MAX)
  }

  /** Some build of the run has ended with this result. */
  ghost predicate Ended(actions: seq<Action>, n: nat, result: BuildResult)
    requires n <= |actions|
  {
    exists k :: 0 <= k < n && actions[k].FinishBuild? && actions[k].result == result
  }

  lemma WriteShows(before: Snapshot, initial: Snapshot, writes: seq<BuildResult>, result: BuildResult)
    requires Shows(before, initial, writes)
    ensures Shows(match result
                  case Built(build) => WithBuild(before, build)
                  case BuildError(message) => WithError(before, message), initial, writes + [result])
  {
    var more := writes + [result];
    assert more[..|more| - 1] == writes;
    forall i: nat | LastBuilt(more, i)
      ensures if result.Built? then i == |writes| else LastBuilt(writes, i)
    {
      assert more[|writes|] == result;
      assert forall j :: 0 <= j < |writes| ==> more[j] == writes[j];
    }
  }

  /** The one step that changes the snapshot, and what it writes. */
  lemma SnapshotStep(s: System, a: Action)
    ensures var writes := a.WriteSnapshot? && a.id in s.requests && s.requests[a.id].HasResult?;
            Next(s, a).snapshot == if !writes then s.snapshot
                                   else match s.requests[a.id].result
                                        case Built(build) => WithBuild(s.snapshot, build)
                                        case BuildError(message) => WithError(s.snapshot, message)
    ensures forall id :: id in Next(s, a).requests && Next(s, a).requests[id].HasResult? ==>
              || (id in s.requests && s.requests[id] == Next(s, a).requests[id])
              || (a.FinishBuild? && a.result == Next(s, a).requests[id].result)
  {
    hide WithBuild, WithError;
  }

  lemma {:induction false} RunShows(initial: Snapshot, actions: seq<Action>, n: nat)
    requires initial.buildCount <= U64_MAX && n <= |actions|
    ensures Shows(Run(Start(initial), actions, n).snapshot, initial, Writes(initial, actions, n))
    decreases n
  {
    hide Next, WithBuild, WithError, Shows;
    if n == 0 {
      NothingShown(initial);
    } else {
      RunShows(initial, actions, n - 1);
      var s, a := Run(Start(initial), actions, n - 1), actions[n - 1];
      SnapshotStep(s, a);
      if a.WriteSnapshot? && a.id in s.requests && s.requests[a.id].HasResult? {
        WriteShows(s.snapshot, initial, Writes(initial, actions, n - 1), s.requests[a.id].result);
      } else {
        assert Writes(initial, actions, n) == Writes(initial, actions, n - 1);
      }
    }
  }

  lemma NothingShown(initial: Snapshot)
    requires initial.buildCount <= U64_MAX
    ensures Shows(initial, initial, [])
  {
  }

  ghost predicate AllEnded(s: System, writes: seq<BuildResult>, actions: seq<Action>, n: nat)
    requires n <= |actions|
  {
    && (forall i :: 0 <= i < |writes| ==> Ended(actions, n, writes[i]))
    && (forall id :: id in s.requests && s.requests[id].HasResult? ==> Ended(actions, n, s.requests[id].result))
  }

  lemma {:induction false} WritesEnded(initial: Snapshot, actions: seq<Action>, n: nat)
    requires n <= |actions|
    ensures AllEnded(Run(Start(initial), actions, n), Writes(initial, actions, n), actions, n)
    decreases n
  {
    hide Next, Ended;
    if n > 0 {
      WritesEnded(initial, actions, n - 1);
      var s, before := Run(Start(initial), actions, n - 1), Writes(initial, actions, n - 1);
      SnapshotStep(s, actions[n - 1]);
      EndedLater(actions, n);
      assert AllEnded(s, before, actions, n - 1);
      assert AllEnded(s, before, actions, n);
    }
  }

  lemma EndedLater(actions: seq<Action>, n: nat)
    requires 0 < n <= |actions|
    ensures forall result :: Ended(actions, n - 1, result) ==> Ended(actions, n, result)
    ensures actions[n - 1].FinishBuild? ==> Ended(actions, n, actions[n - 1].result)
  {
  }

  /** In every run the snapshot shows the payload, time, stats and assumptions of the last published build, or is the
      one the run started with. Its error is the message of the last write if that failed, and none if it published;
      its count is the initial one plus the number of published builds, until it saturates; and what was written is
      what a build of the run ended with. */
  lemma SnapshotShowsLastBuild(initial: Snapshot, actions: seq<Action>, n: nat)
    requires Initial(initial) && n <= |actions|
    ensures var s, writes := Run(Start(initial), actions, n).snapshot, Writes(initial, actions, n);
            && (forall i: nat :: LastBuilt(writes, i) ==>
                  && s.payload == writes[i].build.payload && s.generatedAt == writes[i].build.generatedAt
                  && s.stats == writes[i].build.payload.stats && s.assumptions == writes[i].build.payload.assumptions
                  && s.scanStatus == Ready)
            && (Builds(writes) == 0 ==>
                  && s.payload == initial.payload && s.generatedAt == initial.generatedAt
                  && s.stats == initial.stats && s.assumptions == initial.assumptions
                  && s.scanStatus == initial.scanStatus)
            && (if writes == [] then s.lastError == initial.lastError
                else match writes[|writes| - 1]
                     case Built(_) => s.lastError == None
                     case BuildError(message) => s.lastError == Some(message))
            && s.buildCount == (if initial.buildCount + Builds(writes) < U64_MAX
                                then initial.buildCount + Builds(writes) else U64_MAX)
            && (forall i :: 0 <= i < |writes| ==> Ended(actions, n, writes[i]))
  {
    RunShows(initial, actions, n);
    WritesEnded(initial, actions, n);
    hide Run, Writes, Ended, Builds;
  }

  lemma StepMonotone(s: System, a: Action)
    requires s.snapshot.buildCount <= U64_MAX
    ensures var t := Next(s, a);
            && (s.snapshot.scanStatus.Ready? ==> t.snapshot.scanStatus.Ready?)
            && s.snapshot.buildCount <= t.snapshot.buildCount
            && s.published <= t.published
  {
  }

  /** Along every run a ready snapshot stays ready, and the build count never goes down. */
  lemma {:induction false} ReadyForever(initial: Snapshot, actions: seq<Action>, m: nat, n: nat)
    requires Initial(initial) && m <= n <= |actions|
    ensures var s, t := Run(Start(initial), actions, m), Run(Start(initial), actions, n);
            && (s.snapshot.scanStatus.Ready? ==> t.snapshot.scanStatus.Ready?)
            && s.snapshot.buildCount <= t.snapshot.buildCount
            && s.published <= t.published
  {
    hide Next;
    if m < n {
      ReadyForever(initial, actions, m, n - 1);
      RunInvariant(initial, actions, n - 1);
      StepMonotone(Run(Start(initial), actions, n - 1), actions[n - 1]);
    }
  }

  /** Only the request that owns the guard clears the flag or changes the snapshot. */
  lemma OnlyOwnerActs(s: System, a: Action)
    ensures s.flag && !Next(s, a).flag ==> (a.Release? || a.Cancel?) && Holder(s, Actor(a))
    ensures Next(s, a).snapshot != s.snapshot ==> a.WriteSnapshot? && Holder(s, Actor(a))
  {
  }

  /** A request that loses the swap is answered at once, owns nothing, leaves the flag set for the
      winner, and nothing it might still do changes the system. */
  lemma RejectedNeverClears(s: System, id: nat, later: Action)
    requires id in s.requests && s.flag
    requires s.requests[id] == SawDeferred || s.requests[id] == Arrived(Regenerate)
    requires Actor(later) == id
    ensures var s' := Next(s, Swap(id));
            && s'.requests[id] == Finished(if s.requests[id].SawDeferred? then StillReading else Conflict)
            && s'.flag && s'.snapshot == s.snapshot && !Holder(s', id)
            && Next(s', later) == s'
  {
  }

  /** Below saturation, two rebuilds of one run never answer the same count. */
  lemma CountsDistinct(initial: Snapshot, actions: seq<Action>, n: nat, i: nat, j: nat)
    requires Initial(initial) && n <= |actions|
    requires i < j < |Run(Start(initial), actions, n).published|
    ensures var p := Run(Start(initial), actions, n).published;
            p[i] == p[j] <==> p[i] == U64_MAX
  {
    RunInvariant(initial, actions, n);
  }

  /** A browse request that has read "not scanned" and finds the flag free rebuilds, whatever the
      snapshot has become in the meantime. */
  lemma BrowseRebuilds(s: System, actions: seq<Action>, n: nat, id: nat, b: Build)
    requires n + 4 <= |actions|
    requires actions[n] == Swap(id) && actions[n + 1] == FinishBuild(id, Built(b))
    requires actions[n + 2] == WriteSnapshot(id) && actions[n + 3] == Release(id)
    requires var t := Run(s, actions, n); id in t.requests && t.requests[id] == SawDeferred && !t.flag
    ensures var t := Run(s, actions, n);
            var snapshot := WithBuild(t.snapshot, b);
            Run(s, actions, n + 4)
            == System(false, snapshot, t.requests[id := Finished(Served)], t.published + [snapshot.buildCount],
                      t.running - {id})
  {
    var t := Run(s, actions, n);
    var t1 := Next(t, actions[n]);
    var t2 := Next(t1, actions[n + 1]);
    assert Run(s, actions, n + 1) == t1;
    assert Run(s, actions, n + 2) == t2;
    var t3 := Next(t2, actions[n + 2]);
    assert Run(s, actions, n + 3) == t3;
    assert Run(s, actions, n + 4) == Next(t3, actions[n + 3]);
    assert Next(t3, actions[n + 3]).requests == t.requests[id := Finished(Served)];
  }

  lemma TwoReaders(initial: Snapshot, actions: seq<Action>)
    requires initial.scanStatus.NotScanned? && |actions| >= 4
    requires actions[0] == Arrive(0, Browse, true) && actions[1] == Arrive(1, Browse, true)
    requires actions[2] == ReadStatus(0) && actions[3] == ReadStatus(1)
    ensures Run(Start(initial), actions, 4)
            == System(false, initial, map[0 := SawDeferred, 1 := SawDeferred], [], {})
  {
    var s := Start(initial);
    assert Run(s, actions, 0) == s;
    assert Run(s, actions, 1).requests == map[0 := Arrived(Browse)];
    assert Run(s, actions, 2).requests == map[0 := Arrived(Browse), 1 := Arrived(Browse)];
    assert Run(s, actions, 3).requests == map[0 := SawDeferred, 1 := Arrived(Browse)];
    assert Run(s, actions, 4).requests == map[0 := SawDeferred, 1 := SawDeferred];
  }

  lemma TwoReadersRebuildTwice(initial: Snapshot, actions: seq<Action>, b: Build)
    requires initial.scanStatus.NotScanned? && initial.buildCount == 0 && |actions| == 12
    requires actions[0] == Arrive(0, Browse, true) && actions[1] == Arrive(1, Browse, true)
    requires actions[2] == ReadStatus(0) && actions[3] == ReadStatus(1)
    requires actions[4] == Swap(0) && actions[5] == FinishBuild(0, Built(b))
    requires actions[6] == WriteSnapshot(0) && actions[7] == Release(0)
    requires actions[8] == Swap(1) && actions[9] == FinishBuild(1, Built(b))
    requires actions[10] == WriteSnapshot(1) && actions[11] == Release(1)
    ensures Run(Start(initial), actions, 12).published == [1, 2]
  {
    TwoReaders(initial, actions);
    BrowseRebuilds(Start(initial), actions, 4, 0, b);
    BrowseRebuilds(Start(initial), actions, 8, 1, b);
  }

  // Builds that run at once

  /** A running build belongs to a request that waits for it or was cancelled while it did. */
  ghost predicate RunningBelongs(s: System) {
    && (forall id :: id in s.running ==>
          id in s.requests && (s.requests[id].Building? || s.requests[id] == Finished(Cancelled)))
    && (forall id :: id in s.requests && s.requests[id].Building? ==> id in s.running)
  }

  lemma RunningStep(s: System, a: Action)
    requires RunningBelongs(s)
    ensures RunningBelongs(Next(s, a))
  {
    hide WithBuild, WithError;
  }

  lemma {:induction false} RunningInvariant(initial: Snapshot, actions: seq<Action>, n: nat)
    requires n <= |actions|
    ensures RunningBelongs(Run(Start(initial), actions, n))
    decreases n
  {
    hide Next;
    if n > 0 {
      RunningInvariant(initial, actions, n - 1);
      RunningStep(Run(Start(initial), actions, n - 1), actions[n - 1]);
    }
  }

  /** Two builds run at once. */
  ghost predicate Overlap(s: System) { exists i, j :: i in s.running && j in s.running && i != j }

  /** The step gives a request the guard, and a build begins. */
  predicate StartsBuild(s: System, a: Action) {
    && a.Swap? && a.id in s.requests && !s.flag
    && (s.requests[a.id] == SawDeferred || s.requests[a.id] == Arrived(Regenerate))
  }

  lemma OverlapStep(s: System, a: Action)
    requires RunningBelongs(s) && !Overlap(s)
    ensures Overlap(Next(s, a)) <==> StartsBuild(s, a) && s.running != {}
  {
    hide WithBuild, WithError;
    var t := Next(s, a);
    if StartsBuild(s, a) {
      assert a.id !in s.running && t.running == s.running + {a.id};
      if i :| i in s.running { assert i in t.running && a.id in t.running; }
    } else {
      assert t.running <= s.running;
    }
  }

  /** Every running build was abandoned by a cancelled request. */
  ghost predicate AllAbandoned(s: System) {
    forall id :: id in s.running ==> id in s.requests && s.requests[id] == Finished(Cancelled)
  }

  lemma FreeFlagMeansAbandoned(s: System)
    requires FlagIsGuard(s) && RunningBelongs(s) && !s.flag
    ensures AllAbandoned(s)
  {
    forall id | id in s.running
      ensures id in s.requests && s.requests[id] == Finished(Cancelled)
    {
      assert !Holder(s, id);
    }
  }

  /** Of two builds running at once, at least one was abandoned by a cancelled request. */
  lemma OverlapIsAbandoned(initial: Snapshot, actions: seq<Action>, n: nat, i: nat, j: nat)
    requires Initial(initial) && n <= |actions|
    requires var s := Run(Start(initial), actions, n); i in s.running && j in s.running && i != j
    ensures var s := Run(Start(initial), actions, n);
            && i in s.requests && j in s.requests
            && (s.requests[i] == Finished(Cancelled) || s.requests[j] == Finished(Cancelled))
  {
    hide Next;
    RunInvariant(initial, actions, n);
    RunningInvariant(initial, actions, n);
    var s := Run(Start(initial), actions, n);
    assert !(Holder(s, i) && Holder(s, j));
  }

  /** The flag keeps two builds from running at once unless a request takes it while the build of a cancelled one is
      still running: in every run two builds overlap at some moment if and only if that happens at some step. */
  lemma BuildsOverlapIff(initial: Snapshot, actions: seq<Action>)
    requires Initial(initial)
    ensures (exists n: nat :: n <= |actions| && Overlap(Run(Start(initial), actions, n)))
            <==> exists n: nat :: n < |actions| && StartsBuild(Run(Start(initial), actions, n), actions[n])
                   && Run(Start(initial), actions, n).running != {}
    ensures forall n: nat :: n < |actions| && StartsBuild(Run(Start(initial), actions, n), actions[n]) ==>
              AllAbandoned(Run(Start(initial), actions, n))
  {
    hide Next, Initial, Overlap;
    forall n: nat | n < |actions| && StartsBuild(Run(Start(initial), actions, n), actions[n])
      ensures AllAbandoned(Run(Start(initial), actions, n))
    {
      RunInvariant(initial, actions, n);
      RunningInvariant(initial, actions, n);
      FreeFlagMeansAbandoned(Run(Start(initial), actions, n));
    }
    if n: nat :| n <= |actions| && Overlap(Run(Start(initial), actions, n)) {
      var m := FirstOverlap(initial, actions, n);
      assert StartsBuild(Run(Start(initial), actions, m), actions[m]);
    }
    if n: nat :| n < |actions| && StartsBuild(Run(Start(initial), actions, n), actions[n])
                 && Run(Start(initial), actions, n).running != {} {
      if !Overlap(Run(Start(initial), actions, n)) {
        RunningInvariant(initial, actions, n);
        OverlapStep(Run(Start(initial), actions, n), actions[n]);
        assert Overlap(Run(Start(initial), actions, n + 1));
      }
    }
  }

  lemma {:induction false} FirstOverlap(initial: Snapshot, actions: seq<Action>, n: nat) returns (m: nat)
    requires n <= |actions| && Overlap(Run(Start(initial), actions, n))
    ensures m < n && StartsBuild(Run(Start(initial), actions, m), actions[m])
    ensures Run(Start(initial), actions, m).running != {}
    decreases n
  {
    hide Next, StartsBuild;
    assert n > 0;
    m := n - 1;
    var s := Run(Start(initial), actions, m);
    if Overlap(s) {
      m := FirstOverlap(initial, actions, m);
    } else {
      RunningInvariant(initial, actions, m);
      OverlapStep(s, actions[m]);
    }
  }

  // When the on-demand scan happens again

  /** A request from which a publish can still come when no further regenerate request is admitted. */
  predicate MayPublish(p: Phase) {
    p.SawDeferred? || p.Building? || (p.HasResult? && p.result.Built?) || p == Arrived(Regenerate)
  }

  predicate BrowseOnly(actions: seq<Action>) {
    forall k :: 0 <= k < |actions| && actions[k].Arrive? && actions[k].admitted ==> actions[k].kind == Browse
  }

  ghost predicate SomeMayPublish(s: System) { exists id :: id in s.requests && MayPublish(s.requests[id]) }

  /** Some continuation without a further regenerate request publishes. */
  ghost predicate CanPublishAgain(s: System) {
    exists more: seq<Action> :: BrowseOnly(more) && |Run(s, more, |more|).published| > |s.published|
  }

  lemma {:induction false} RunAppend(s: System, a: seq<Action>, b: seq<Action>, n: nat)
    requires n <= |b|
    ensures Run(s, a + b, |a| + n) == Run(Run(s, a, |a|), b, n)
    decreases n
  {
    hide Next;
    if n == 0 {
      RunPrefix(s, a, b, |a|);
    } else {
      RunAppend(s, a, b, n - 1);
      assert (a + b)[|a| + n - 1] == b[n - 1];
    }
  }

  lemma {:induction false} RunPrefix(s: System, a: seq<Action>, b: seq<Action>, n: nat)
    requires n <= |a|
    ensures Run(s, a + b, n) == Run(s, a, n)
    decreases n
  {
    hide Next;
    if n > 0 { RunPrefix(s, a, b, n - 1); }
  }

  lemma StillNoneMayPublish(s: System, a: Action)
    requires s.snapshot.scanStatus.Ready? && !SomeMayPublish(s) && (a.Arrive? && a.admitted ==> a.kind == Browse)
    ensures var t := Next(s, a);
            t.snapshot.scanStatus.Ready? && !SomeMayPublish(t) && t.published == s.published
  {
    hide WithBuild, WithError;
    var t := Next(s, a);
    assert forall id :: id in t.requests ==> id == Actor(a) || (id in s.requests && t.requests[id] == s.requests[id]);
    assert Actor(a) in s.requests ==> !MayPublish(s.requests[Actor(a)]);
    assert t.snapshot == s.snapshot || t.snapshot == WithError(s.snapshot, s.requests[Actor(a)].result.message);
    ErrorKeepsStatus(s.snapshot);
  }

  lemma ErrorKeepsStatus(s: Snapshot)
    ensures forall message :: WithError(s, message).scanStatus == s.scanStatus
  {
  }

  lemma {:induction false} NoneEverPublishes(s: System, more: seq<Action>, n: nat)
    requires s.snapshot.scanStatus.Ready? && !SomeMayPublish(s) && BrowseOnly(more) && n <= |more|
    ensures var t := Run(s, more, n);
            t.snapshot.scanStatus.Ready? && !SomeMayPublish(t) && t.published == s.published
    decreases n
  {
    hide Next, SomeMayPublish;
    if n > 0 {
      NoneEverPublishes(s, more, n - 1);
      StillNoneMayPublish(Run(s, more, n - 1), more[n - 1]);
    }
  }

  const ANY_BUILD := Build(Payload("", Stats(0, 0), [], []), 0)

  lemma OneAction(s: System, a: Action)
    ensures Run(s, [a], 1) == Next(s, a)
  {
    hide Next;
    assert Run(s, [a], 0) == s;
  }

  /** A request that owns the guard, or finds the flag free, can be brought to publish. */
  lemma OwnerPublishes(s: System, id: nat) returns (more: seq<Action>)
    requires id in s.requests && MayPublish(s.requests[id]) && (!Owns(s.requests[id]) ==> !s.flag)
    ensures BrowseOnly(more) && |Run(s, more, |more|).published| == |s.published| + 1
  {
    hide WithBuild;
    var write := WriteSnapshot(id);
    if s.requests[id].HasResult? {
      more := [write];
      OneAction(s, write);
    } else {
      var finish := FinishBuild(id, Built(ANY_BUILD));
      var s1 := if s.requests[id].Building? then s else Next(s, Swap(id));
      var s2 := Next(s1, finish);
      assert Run(s1, [finish, write], 0) == s1;
      assert Run(s1, [finish, write], 1) == s2;
      assert Run(s1, [finish, write], 2) == Next(s2, write);
      more := [finish, write];
      if !s.requests[id].Building? {
        OneAction(s, Swap(id));
        RunAppend(s, [Swap(id)], more, 2);
        more := [Swap(id)] + more;
      }
    }
  }

  /** Whoever owns the guard can be made to give it up. */
  lemma GuardCanGo(s: System, id: nat) returns (a: Action)
    requires FlagIsGuard(s) && s.flag && id in s.requests && !Owns(s.requests[id])
    ensures !a.Arrive? && !Next(s, a).flag && Next(s, a).published == s.published
    ensures id in Next(s, a).requests && Next(s, a).requests[id] == s.requests[id]
  {
    var h :| Holder(s, h);
    assert h != id;
    a := if s.requests[h].Settled? then Release(h) else Cancel(h);
  }

  /** In every run: a published snapshot is published over again, by some continuation that admits no regenerate
      request, if and only if a request stands where a publish can come from: it has read "not scanned", is building,
      holds a built result, or is an admitted regenerate request. */
  lemma PublishesAgainIff(initial: Snapshot, actions: seq<Action>, n: nat)
    requires Initial(initial) && n <= |actions|
    requires Run(Start(initial), actions, n).snapshot.scanStatus.Ready?
    ensures var s := Run(Start(initial), actions, n); CanPublishAgain(s) <==> SomeMayPublish(s)
  {
    hide Next, MayPublish, FlagIsGuard, Initial, Run;
    RunInvariant(initial, actions, n);
    var s := Run(Start(initial), actions, n);
    if SomeMayPublish(s) {
      var id :| id in s.requests && MayPublish(s.requests[id]);
      if Owns(s.requests[id]) || !s.flag {
        var more := OwnerPublishes(s, id);
        assert BrowseOnly(more);
      } else {
        var a := GuardCanGo(s, id);
        var rest := OwnerPublishes(Next(s, a), id);
        OneAction(s, a);
        RunAppend(s, [a], rest, |rest|);
        var more := [a] + rest;
        assert |Run(s, more, |more|).published| > |s.published|;
        assert BrowseOnly(more);
      }
    }
    if CanPublishAgain(s) && !SomeMayPublish(s) {
      var more :| BrowseOnly(more) && |Run(s, more, |more|).published| > |s.published|;
      NoneEverPublishes(s, more, |more|);
    }
  }

  // How often

  /** The requests that have read "not scanned" and not yet tried the flag. */
  function Stale(s: System): set<nat> { set id | id in s.requests && s.requests[id].SawDeferred? }

  predicate InFlight(p: Phase) { p.SawDeferred? || p.Building? || p.HasResult? }

  function Waiting(s: System): set<nat> { set id | id in s.requests && InFlight(s.requests[id]) }

  predicate NoRegenerate(s: System) { forall id :: id in s.requests ==> s.requests[id] != Arrived(Regenerate) }

  lemma StepKeepsNoRegenerate(s: System, a: Action)
    requires NoRegenerate(s) && (a.Arrive? && a.admitted ==> a.kind == Browse)
    ensures NoRegenerate(Next(s, a))
  {
    hide WithBuild, WithError;
  }

  lemma {:induction false} RunHasNoRegenerate(initial: Snapshot, actions: seq<Action>, n: nat)
    requires n <= |actions| && BrowseOnly(actions)
    ensures NoRegenerate(Run(Start(initial), actions, n))
    decreases n
  {
    hide Next;
    if n > 0 {
      RunHasNoRegenerate(initial, actions, n - 1);
      StepKeepsNoRegenerate(Run(Start(initial), actions, n - 1), actions[n - 1]);
    }
  }

  /** Once the snapshot is ready, a step publishes at the cost of a waiting request, and no request joins them. */
  lemma PublishCosts(s: System, a: Action)
    requires NoRegenerate(s) && s.snapshot.scanStatus.Ready?
    ensures |Next(s, a).published| + |Waiting(Next(s, a))| <= |s.published| + |Waiting(s)|
  {
    var t, id := Next(s, a), Actor(a);
    ActorWaits(s, a);
    assert forall i :: i != id ==>
        (i in t.requests <==> i in s.requests) && (i in s.requests ==> t.requests[i] == s.requests[i]) by {
      hide Next;
      forall i | i != id { OthersStay(s, a, i); }
    }
    hide Next, InFlight;
    if |t.published| > |s.published| {
      assert Waiting(t) == Waiting(s) - {id};
    } else {
      assert Waiting(t) <= Waiting(s);
      SubsetSize(Waiting(t), Waiting(s));
    }
  }

  /** In a ready snapshot only the acting request can stop waiting, and none starts; publishing takes one that waits. */
  lemma ActorWaits(s: System, a: Action)
    requires NoRegenerate(s) && s.snapshot.scanStatus.Ready?
    ensures var t, id := Next(s, a), Actor(a);
            && (id in t.requests && InFlight(t.requests[id]) ==> id in s.requests && InFlight(s.requests[id]))
            && (if |t.published| > |s.published| then
                  && |t.published| == |s.published| + 1 && id in s.requests && InFlight(s.requests[id])
                  && !InFlight(t.requests[id])
                else |t.published| == |s.published|)
  {
    hide WithBuild, WithError;
  }

  lemma {:induction false} LaterPublishes(initial: Snapshot, actions: seq<Action>, m: nat, n: nat)
    requires Initial(initial) && BrowseOnly(actions) && m <= n <= |actions|
    requires Run(Start(initial), actions, m).snapshot.scanStatus.Ready?
    ensures var s, t := Run(Start(initial), actions, m), Run(Start(initial), actions, n);
            |t.published| + |Waiting(t)| <= |s.published| + |Waiting(s)|
    decreases n
  {
    hide Next, Waiting;
    if m < n {
      LaterPublishes(initial, actions, m, n - 1);
      RunHasNoRegenerate(initial, actions, n - 1);
      ReadyForever(initial, actions, m, n - 1);
      PublishCosts(Run(Start(initial), actions, n - 1), actions[n - 1]);
    }
  }

  /** Right after a publish the publisher holds the guard, so whoever waits has only read the status. */
  lemma AfterPublishOnlyStale(s: System, a: Action)
    requires FlagIsGuard(s) && |Next(s, a).published| > |s.published|
    ensures Waiting(Next(s, a)) == Stale(s) == Stale(Next(s, a))
    ensures Next(s, a).snapshot.scanStatus.Ready? && |Next(s, a).published| == |s.published| + 1
  {
    assert a.WriteSnapshot? && Holder(s, a.id);
    assert forall id :: id in s.requests && id != a.id ==> !Holder(s, id);
  }

  /** Runs that admit browse requests only: after the first publish at step `m` there are at most as many more as there
      were requests standing at "saw not scanned" at that moment. */
  lemma BrowsePublishesBounded(initial: Snapshot, actions: seq<Action>, m: nat, n: nat)
    requires Initial(initial) && BrowseOnly(actions) && m < n <= |actions|
    requires Run(Start(initial), actions, m).published == [] && Run(Start(initial), actions, m + 1).published != []
    ensures |Run(Start(initial), actions, n).published| <= 1 + |Stale(Run(Start(initial), actions, m))|
  {
    hide Next, Waiting, Stale, FlagIsGuard;
    RunInvariant(initial, actions, m);
    AfterPublishOnlyStale(Run(Start(initial), actions, m), actions[m]);
    LaterPublishes(initial, actions, m + 1, n);
  }

  /** A free flag lets a deferred request publish and be done, leaving the others where they stand. */
  lemma StalePublishes(s: System, id: nat) returns (more: seq<Action>)
    requires id in Stale(s) && !s.flag
    ensures BrowseOnly(more)
    ensures var t := Run(s, more, |more|);
            !t.flag && |t.published| == |s.published| + 1 && Stale(t) == Stale(s) - {id}
  {
    more := [Swap(id), FinishBuild(id, Built(ANY_BUILD)), WriteSnapshot(id), Release(id)];
    assert Run(s, more, 0) == s;
    BrowseRebuilds(s, more, 0, id, ANY_BUILD);
  }

  lemma {:induction false} AllStalePublish(s: System, ids: set<nat>) returns (more: seq<Action>)
    requires ids == Stale(s) && !s.flag
    ensures BrowseOnly(more) && |Run(s, more, |more|).published| == |s.published| + |ids|
    decreases |ids|
  {
    hide Next, Stale;
    if ids == {} {
      more := [];
    } else {
      var id :| id in ids;
      var first := StalePublishes(s, id);
      var t := Run(s, first, |first|);
      var rest := AllStalePublish(t, ids - {id});
      RunAppend(s, first, rest, |rest|);
      more := first + rest;
    }
  }

  /** The bound is met: from the moment the publisher has let go of the guard, every request that stood deferred can
      still publish. */
  lemma BoundIsReached(initial: Snapshot, actions: seq<Action>, n: nat) returns (more: seq<Action>)
    requires n <= |actions| && !Run(Start(initial), actions, n).flag
    ensures BrowseOnly(more)
    ensures var s := Run(Start(initial), actions, n);
            |Run(s, more, |more|).published| == |s.published| + |Stale(s)|
  {
    hide Next, Stale;
    var s := Run(Start(initial), actions, n);
    more := AllStalePublish(s, Stale(s));
  }

  /** It does happen: when two browse requests both read "not scanned" before either swaps the flag, they rebuild one
      after the other. */
  lemma OnDemandScanTwice(now: int, note: string, b: Build) returns (actions: seq<Action>)
    ensures forall k :: 0 <= k < |actions| && actions[k].Arrive? ==> actions[k].kind == Browse
    ensures Run(Start(Deferred(now, note)), actions, |actions|).published == [1, 2]
  {
    actions := [Arrive(0, Browse, true), Arrive(1, Browse, true), ReadStatus(0), ReadStatus(1),
                Swap(0), FinishBuild(0, Built(b)), WriteSnapshot(0), Release(0),
                Swap(1), FinishBuild(1, Built(b)), WriteSnapshot(1), Release(1)];
    TwoReadersRebuildTwice(Deferred(now, note), actions, b);
  }
}

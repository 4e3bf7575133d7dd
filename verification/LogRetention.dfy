/** Retention of closed diagnostics run logs (src/diagnostics.rs).

    The source applies an age purge, a count cap and a byte cap one after the other. They are
    shown to be one rule: delete the shortest prefix, oldest first, after which every cap holds. */
module LogRetention {
  import opened Ordering
  import opened Text

  datatype Policy = Policy(maxFiles: nat, maxTotalBytes: nat, maxAge: int)

  datatype RunId = RunId(stamp: int, pid: nat)

  datatype Liveness = Alive | Dead | Unknown

  datatype Removal = Removed | AlreadyGone | Failed

  /** One directory entry; a name that is not Unicode is `None`. */
  datatype DirEntry = DirEntry(name: Option<string>, size: nat)

  datatype RunLog = RunLog(name: string, stamp: int, size: nat)

  datatype Outcome = Outcome(deleted: seq<string>, kept: nat)

  /** What the pass learns from its host: the clock, the active log's name, how a run-log name
      parses, whether a process lives, and how a removal ends. */
  datatype Host = Host(now: int, active: string, parse: string -> Option<RunId>,
                       probe: nat -> Liveness, remove: string -> Removal)

  datatype Class = Foreign | Protected | Closed(log: RunLog)

  function Classify(h: Host, p: Policy, e: DirEntry): Class {
    match e.name
    case None => Foreign
    case Some(name) =>
      if !StartsWith(name, "diagnostics-") || !EndsWith(name, ".log") then Foreign
      else if name == h.active then Protected
      else
        match h.parse(name)
        case None => Protected
        case Some(id) =>
          var closed := match h.probe(id.pid)
            case Alive => false
            case Dead => true
            case Unknown => h.now - id.stamp > p.maxAge;
          if closed then Closed(RunLog(name, id.stamp, e.size)) else Protected
  }

  predicate OlderFirst(a: RunLog, b: RunLog) {
    a.stamp < b.stamp || (a.stamp == b.stamp && LexLeq(a.name, b.name))
  }

  function IsClosed(h: Host, p: Policy): DirEntry -> bool { (e: DirEntry) => Classify(h, p, e).Closed? }

  function LogOf(h: Host, p: Policy): DirEntry -> RunLog {
    (e: DirEntry) => match Classify(h, p, e)
      case Closed(log) => log
      case _ => RunLog("", 0, 0)
  }

  function ProtectedUnits(h: Host, p: Policy): DirEntry -> nat {
    (e: DirEntry) => if Classify(h, p, e).Protected? then 1 else 0
  }

  function ProtectedSizes(h: Host, p: Policy): DirEntry -> nat {
    (e: DirEntry) => if Classify(h, p, e).Protected? then e.size else 0
  }

  function Candidates(h: Host, p: Policy, dir: seq<DirEntry>): seq<RunLog> {
    Map(LogOf(h, p), Filter(dir, IsClosed(h, p)))
  }

  /** Closed logs, oldest first. */
  function Queue(h: Host, p: Policy, dir: seq<DirEntry>): seq<RunLog> {
    SortBy(Candidates(h, p, dir), OlderFirst)
  }

  function ProtectedCount(h: Host, p: Policy, dir: seq<DirEntry>): nat {
    Sum(Map(ProtectedUnits(h, p), dir))
  }

  function ProtectedBytes(h: Host, p: Policy, dir: seq<DirEntry>): nat {
    Sum(Map(ProtectedSizes(h, p), dir))
  }

  function SizeOf(l: RunLog): nat { l.size }

  function Bytes(logs: seq<RunLog>): nat {
    Sum(Map(SizeOf, logs))
  }

  predicate Aged(h: Host, p: Policy, log: RunLog) { h.now - log.stamp > p.maxAge }

  /** All three caps hold with `rest` still on disk beside the protected logs. */
  ghost predicate Satisfied(h: Host, p: Policy, dir: seq<DirEntry>, rest: seq<RunLog>) {
    && (forall i :: 0 <= i < |rest| ==> !Aged(h, p, rest[i]))
    && ProtectedCount(h, p, dir) + |rest| <= p.maxFiles
    && ProtectedBytes(h, p, dir) + Bytes(rest) <= p.maxTotalBytes
  }

  /** `n` is the length of the shortest prefix of `queue` whose removal satisfies every cap, or the
      whole queue when no prefix does. */
  ghost predicate ShortestCut(h: Host, p: Policy, dir: seq<DirEntry>, queue: seq<RunLog>, n: nat) {
    && n <= |queue|
    && (n == |queue| || Satisfied(h, p, dir, queue[n..]))
    && (forall k :: 0 <= k < n ==> !Satisfied(h, p, dir, queue[k..]))
  }

  function Names(logs: seq<RunLog>): seq<string> {
    Map((l: RunLog) => l.name, logs)
  }

  /** Names a removal pass reports: every victim whose removal did not fail. */
  function Reported(h: Host, victims: seq<RunLog>): seq<string> {
    Filter(Names(victims), (name: string) => !h.remove(name).Failed?)
  }

  /** What a whole pass reports when it removes the first `n` queued logs. */
  function Report(h: Host, p: Policy, dir: seq<DirEntry>, n: nat): Outcome
    requires n <= |Queue(h, p, dir)|
  {
    Outcome(Reported(h, Queue(h, p, dir)[..n]),
            ProtectedCount(h, p, dir) + |Queue(h, p, dir)| - n)
  }

  lemma OlderFirstIsOrder()
    ensures TotalPreorder(OlderFirst)
  {
    forall x: RunLog, y: RunLog ensures OlderFirst(x, y) || OlderFirst(y, x) {
      LexTotal(x.name, y.name);
    }
    forall x: RunLog, y: RunLog, z: RunLog | OlderFirst(x, y) && OlderFirst(y, z) ensures OlderFirst(x, z) {
      if x.stamp == y.stamp == z.stamp { LexTransitive(x.name, y.name, z.name); }
    }
  }

  lemma ReportedSnoc(h: Host, victims: seq<RunLog>, log: RunLog)
    ensures Reported(h, victims + [log])
            == Reported(h, victims) + (if h.remove(log.name).Failed? then [] else [log.name])
  {
    var keep := (name: string) => !h.remove(name).Failed?;
    assert Names(victims + [log]) == Names(victims) + [log.name];
    FilterAppend(Names(victims), [log.name], keep);
  }

  lemma BytesHead(logs: seq<RunLog>)
    requires logs != []
    ensures Bytes(logs) == logs[0].size + Bytes(logs[1..])
  {
    var size := SizeOf;
    assert Map(size, logs)[1..] == Map(size, logs[1..]);
  }

  /** Removes one log and reports it unless the removal failed. */
  method Delete(h: Host, log: RunLog, deleted: seq<string>, ghost victims: seq<RunLog>) returns (r: seq<string>)
    requires deleted == Reported(h, victims)
    ensures r == Reported(h, victims + [log])
  {
    r := deleted;
    match h.remove(log.name) {
      case Removed => r := r + [log.name];
      case AlreadyGone => r := r + [log.name];
      case Failed =>
    }
    ReportedSnoc(h, victims, log);
  }

  /** Reads the directory once, separating what may go from what only counts toward the caps. */
  method Survey(h: Host, p: Policy, dir: seq<DirEntry>)
    returns (eligible: seq<RunLog>, protectedCount: nat, protectedBytes: nat)
    ensures eligible == Candidates(h, p, dir)
    ensures protectedCount == ProtectedCount(h, p, dir)
    ensures protectedBytes == ProtectedBytes(h, p, dir)
  {
    eligible, protectedCount, protectedBytes := [], 0, 0;
    for i := 0 to |dir|
      invariant eligible == Candidates(h, p, dir[..i])
      invariant protectedCount == ProtectedCount(h, p, dir[..i])
      invariant protectedBytes == ProtectedBytes(h, p, dir[..i])
    {
      SurveySnoc(h, p, dir[..i], dir[i]);
      assert dir[..i + 1] == dir[..i] + [dir[i]];
      match Classify(h, p, dir[i]) {
        case Foreign =>
        case Protected =>
          protectedCount, protectedBytes := protectedCount + 1, protectedBytes + dir[i].size;
        case Closed(log) =>
          eligible := eligible + [log];
      }
    }
    assert dir[..|dir|] == dir;
  }

  lemma SurveySnoc(h: Host, p: Policy, dir: seq<DirEntry>, e: DirEntry)
    ensures Candidates(h, p, dir + [e])
            == Candidates(h, p, dir) + (if Classify(h, p, e).Closed? then [Classify(h, p, e).log] else [])
    ensures ProtectedCount(h, p, dir + [e])
            == ProtectedCount(h, p, dir) + (if Classify(h, p, e).Protected? then 1 else 0)
    ensures ProtectedBytes(h, p, dir + [e])
            == ProtectedBytes(h, p, dir) + (if Classify(h, p, e).Protected? then e.size else 0)
  {
    FilterAppend(dir, [e], IsClosed(h, p));
    assert Filter([e], IsClosed(h, p)) == if Classify(h, p, e).Closed? then [e] else [];
    assert Candidates(h, p, dir + [e])
           == Candidates(h, p, dir) + Map(LogOf(h, p), Filter([e], IsClosed(h, p)));
    SumOfSnoc(ProtectedUnits(h, p), dir, e);
    SumOfSnoc(ProtectedSizes(h, p), dir, e);
  }

  lemma SumOfSnoc<T>(f: T -> nat, s: seq<T>, x: T)
    ensures Sum(Map(f, s + [x])) == Sum(Map(f, s)) + f(x)
  {
    assert Map(f, s + [x]) == Map(f, s) + [f(x)];
    SumAppend(Map(f, s), [f(x)]);
  }

  /** The first `n` queued logs have been tried; the others are still kept. */
  ghost predicate Progress(h: Host, queue: seq<RunLog>, n: nat, deleted: seq<string>, kept: seq<RunLog>) {
    n <= |queue| && deleted == Reported(h, queue[..n]) && kept == queue[n..]
  }

  method RemoveOldest(h: Host, queue: seq<RunLog>, ghost n: nat, deleted: seq<string>, kept: seq<RunLog>)
    returns (deleted': seq<string>, kept': seq<RunLog>)
    requires Progress(h, queue, n, deleted, kept) && kept != []
    ensures Progress(h, queue, n + 1, deleted', kept') && kept' == kept[1..]
  {
    deleted' := Delete(h, kept[0], deleted, queue[..n]);
    kept' := kept[1..];
    assert queue[..n] + [kept[0]] == queue[..n + 1];
  }

  /** Phase 1: every log past the age limit goes. On a sorted queue these are a prefix. */
  method PurgeAged(h: Host, p: Policy, queue: seq<RunLog>)
    returns (deleted: seq<string>, kept: seq<RunLog>, ghost n: nat)
    requires SortedBy(queue, OlderFirst)
    ensures Progress(h, queue, n, deleted, kept)
    ensures forall k :: 0 <= k < n ==> Aged(h, p, queue[k])
    ensures forall k :: 0 <= k < |kept| ==> !Aged(h, p, kept[k])
  {
    deleted, kept, n := [], [], 0;
    for i := 0 to |queue|
      invariant n <= i
      invariant deleted == Reported(h, queue[..n])
      invariant kept == queue[n..i]
      invariant forall k :: 0 <= k < n ==> Aged(h, p, queue[k])
      invariant forall k :: n <= k < i ==> !Aged(h, p, queue[k])
    {
      if h.now - queue[i].stamp > p.maxAge {
        assert n < i ==> OlderFirst(queue[n], queue[i]);
        deleted := Delete(h, queue[i], deleted, queue[..n]);
        assert queue[..n] + [queue[i]] == queue[..i + 1];
        n := n + 1;
      } else {
        kept := kept + [queue[i]];
      }
    }
  }

  /** Phase 2: oldest first until the count cap holds or nothing is left. */
  method CapCount(h: Host, p: Policy, protectedCount: nat, queue: seq<RunLog>,
                  deleted0: seq<string>, kept0: seq<RunLog>, ghost n0: nat)
    returns (deleted: seq<string>, kept: seq<RunLog>, ghost n: nat)
    requires Progress(h, queue, n0, deleted0, kept0)
    ensures Progress(h, queue, n, deleted, kept) && n0 <= n
    ensures kept == [] || protectedCount + |kept| <= p.maxFiles
    ensures forall k :: n0 <= k < n ==> protectedCount + |queue[k..]| > p.maxFiles
  {
    deleted, kept, n := deleted0, kept0, n0;
    while protectedCount + |kept| > p.maxFiles && kept != []
      invariant Progress(h, queue, n, deleted, kept) && n0 <= n
      invariant forall k :: n0 <= k < n ==> protectedCount + |queue[k..]| > p.maxFiles
      decreases |kept|
    {
      deleted, kept := RemoveOldest(h, queue, n, deleted, kept);
      n := n + 1;
    }
  }

  /** Phase 3: oldest first until the byte cap holds or nothing is left. */
  method CapBytes(h: Host, p: Policy, protectedBytes: nat, queue: seq<RunLog>,
                  deleted0: seq<string>, kept0: seq<RunLog>, ghost n0: nat)
    returns (deleted: seq<string>, kept: seq<RunLog>, ghost n: nat)
    requires Progress(h, queue, n0, deleted0, kept0)
    ensures Progress(h, queue, n, deleted, kept) && n0 <= n
    ensures kept == [] || protectedBytes + Bytes(kept) <= p.maxTotalBytes
    ensures forall k :: n0 <= k < n ==> protectedBytes + Bytes(queue[k..]) > p.maxTotalBytes
  {
    deleted, kept, n := deleted0, kept0, n0;
    var totalBytes := protectedBytes + Bytes(kept);
    while totalBytes > p.maxTotalBytes && kept != []
      invariant Progress(h, queue, n, deleted, kept) && n0 <= n
      invariant totalBytes == protectedBytes + Bytes(kept)
      invariant forall k :: n0 <= k < n ==> protectedBytes + Bytes(queue[k..]) > p.maxTotalBytes
      decreases |kept|
    {
      BytesHead(kept);
      // Saturating in the source; the running total always covers the entry.
      totalBytes := totalBytes - kept[0].size;
      deleted, kept := RemoveOldest(h, queue, n, deleted, kept);
      n := n + 1;
    }
  }

  /** One retention pass. `dir` is `None` when the directory cannot be read. The three phases leave
      exactly the shortest cut of the oldest-first queue, whatever the removals answer. */
  method EnforceRetention(h: Host, p: Policy, dir: Option<seq<DirEntry>>) returns (outcome: Outcome)
    ensures dir.None? ==> outcome == Outcome([], 0)
    ensures dir.Some? ==>
              exists n :: ShortestCut(h, p, dir.value, Queue(h, p, dir.value), n)
                          && outcome == Report(h, p, dir.value, n)
  {
    if dir.None? {
      return Outcome([], 0);
    }
    var eligible, protectedCount, protectedBytes := Survey(h, p, dir.value);
    var queue := SortBy(eligible, OlderFirst);
    OlderFirstIsOrder();
    SortBySorted(eligible, OlderFirst);
    var deleted1, kept1, n1 := PurgeAged(h, p, queue);
    var deleted2, kept2, n2 := CapCount(h, p, protectedCount, queue, deleted1, kept1, n1);
    var deleted3, kept3, n3 := CapBytes(h, p, protectedBytes, queue, deleted2, kept2, n2);
    PhasesCut(h, p, dir.value, queue, n1, n2, n3);
    outcome := Outcome(deleted3, protectedCount + |kept3|);
    assert queue == Queue(h, p, dir.value);
    assert outcome == Report(h, p, dir.value, n3);
  }

  /** The three phase boundaries together are one shortest cut. */
  lemma PhasesCut(h: Host, p: Policy, dir: seq<DirEntry>, queue: seq<RunLog>, n1: nat, n2: nat, n3: nat)
    requires n1 <= n2 <= n3 <= |queue|
    requires forall k :: 0 <= k < n1 ==> Aged(h, p, queue[k])
    requires forall k :: 0 <= k < |queue[n1..]| ==> !Aged(h, p, queue[n1..][k])
    requires queue[n2..] == [] || ProtectedCount(h, p, dir) + |queue[n2..]| <= p.maxFiles
    requires forall k :: n1 <= k < n2 ==> ProtectedCount(h, p, dir) + |queue[k..]| > p.maxFiles
    requires queue[n3..] == [] || ProtectedBytes(h, p, dir) + Bytes(queue[n3..]) <= p.maxTotalBytes
    requires forall k :: n2 <= k < n3 ==> ProtectedBytes(h, p, dir) + Bytes(queue[k..]) > p.maxTotalBytes
    ensures ShortestCut(h, p, dir, queue, n3)
  {
    forall k | 0 <= k < n1 ensures !Satisfied(h, p, dir, queue[k..]) {
      assert queue[k..][0] == queue[k];
    }
    if n3 < |queue| {
      forall i | 0 <= i < |queue[n3..]| ensures !Aged(h, p, queue[n3..][i]) {
        assert queue[n3..][i] == queue[n1..][n3 - n1 + i];
      }
    }
  }

  // ---- Which logs may go, said of names and processes

  /** A name of the form `diagnostics-....log`. */
  predicate RunLogName(e: DirEntry) {
    && e.name.Some? && "diagnostics-" <= e.name.value
    && |e.name.value| >= 4 && e.name.value[|e.name.value| - 4..] == ".log"
  }

  /** Such a log that is not the active one, whose name parses, and whose process is dead, or of unknown liveness with
      the log past the age limit. */
  predicate MayGo(h: Host, p: Policy, e: DirEntry) {
    && RunLogName(e) && e.name.value != h.active && h.parse(e.name.value).Some?
    && var id := h.parse(e.name.value).value;
       h.probe(id.pid) == Dead || (h.probe(id.pid) == Unknown && h.now - id.stamp > p.maxAge)
  }

  lemma ClassifyMeans(h: Host, p: Policy, e: DirEntry)
    ensures Classify(h, p, e).Foreign? <==> !RunLogName(e)
    ensures Classify(h, p, e).Closed? <==> MayGo(h, p, e)
    ensures MayGo(h, p, e) ==>
              Classify(h, p, e) == Closed(RunLog(e.name.value, h.parse(e.name.value).value.stamp, e.size))
  {
  }

  /** How many entries have such a name, and their sizes. */
  function RunLogs(dir: seq<DirEntry>): (nat, nat) {
    if dir == [] then (0, 0)
    else
      var (count, bytes) := RunLogs(dir[..|dir| - 1]);
      var last := dir[|dir| - 1];
      if RunLogName(last) then (count + 1, bytes + last.size) else (count, bytes)
  }

  /** Every run log is queued or protected, never both. */
  lemma {:induction false} AllAreCounted(h: Host, p: Policy, dir: seq<DirEntry>)
    ensures ProtectedCount(h, p, dir) + |Candidates(h, p, dir)| == RunLogs(dir).0
    ensures ProtectedBytes(h, p, dir) + Bytes(Candidates(h, p, dir)) == RunLogs(dir).1
    decreases |dir|
  {
    hide Classify, Candidates, RunLogName, MayGo, Bytes;
    if dir == [] {
      assert Candidates(h, p, dir) == [] by { NoCandidates(h, p); }
      assert Bytes([]) == 0 by { BytesOfNone(); }
    } else {
      var init, last := dir[..|dir| - 1], dir[|dir| - 1];
      assert dir == init + [last];
      AllAreCounted(h, p, init);
      SurveySnoc(h, p, init, last);
      ClassifyMeans(h, p, last);
      SizeOfClosed(h, p, last);
      if Classify(h, p, last).Closed? {
        BytesSnoc(Candidates(h, p, init), Classify(h, p, last).log);
      } else {
        assert Candidates(h, p, dir) == Candidates(h, p, init);
      }
    }
  }

  lemma SizeOfClosed(h: Host, p: Policy, e: DirEntry)
    ensures Classify(h, p, e).Closed? ==> Classify(h, p, e).log.size == e.size
  {
  }

  lemma NoCandidates(h: Host, p: Policy)
    ensures Candidates(h, p, []) == []
  {
  }

  lemma BytesOfNone()
    ensures Bytes([]) == 0
  {
  }

  lemma BytesSnoc(logs: seq<RunLog>, log: RunLog)
    ensures Bytes(logs + [log]) == Bytes(logs) + log.size
  {
    SumOfSnoc(SizeOf, logs, log);
  }

  /** The queue holds exactly the logs that may go, oldest first and, at one time, by name; the rest of the run logs
      are what the caps count as protected. */
  lemma QueueMeans(h: Host, p: Policy, dir: seq<DirEntry>)
    ensures forall log :: log in Queue(h, p, dir)
              <==> exists e :: e in dir && MayGo(h, p, e)
                               && log == RunLog(e.name.value, h.parse(e.name.value).value.stamp, e.size)
    ensures forall i, j :: 0 <= i < j < |Queue(h, p, dir)| ==>
              var a, b := Queue(h, p, dir)[i], Queue(h, p, dir)[j];
              a.stamp <= b.stamp && (a.stamp == b.stamp ==> LexLeq(a.name, b.name))
    ensures ProtectedCount(h, p, dir) + |Queue(h, p, dir)| == RunLogs(dir).0
    ensures ProtectedBytes(h, p, dir) + Bytes(Candidates(h, p, dir)) == RunLogs(dir).1
  {
    AllAreCounted(h, p, dir);
    hide Classify, RunLogs, Bytes, LexLeq;
    var all := Candidates(h, p, dir);
    OlderFirstIsOrder();
    SortBySorted(all, OlderFirst);
    SortByPermutes(all, OlderFirst);
    SameElements(Queue(h, p, dir), all);
    forall log
      ensures log in all <==> exists e :: e in dir && MayGo(h, p, e)
                                         && log == RunLog(e.name.value, h.parse(e.name.value).value.stamp, e.size)
    {
      CandidateIff(h, p, dir, log);
    }
  }

  lemma CandidateIff(h: Host, p: Policy, dir: seq<DirEntry>, log: RunLog)
    ensures log in Candidates(h, p, dir)
            <==> exists e :: e in dir && MayGo(h, p, e)
                             && log == RunLog(e.name.value, h.parse(e.name.value).value.stamp, e.size)
  {
    hide Classify;
    forall e { ClassifyMeans(h, p, e); }
    var closed := Filter(dir, IsClosed(h, p));
    FilterMembers(dir, IsClosed(h, p));
    if log in Candidates(h, p, dir) { CandidateEntry(h, p, dir, log); }
    if e :| e in dir && MayGo(h, p, e) && log == RunLog(e.name.value, h.parse(e.name.value).value.stamp, e.size) {
      assert IsClosed(h, p)(e) && e in closed;
      var j :| 0 <= j < |closed| && closed[j] == e;
      assert Candidates(h, p, dir)[j] == log;
    }
  }

  /** A name the pass reports is that of an entry that may go: a run log, not the active one, whose name parsed, whose
      process was not seen alive, and which is past the age limit unless the process was seen dead. Its removal did not
      fail. */
  lemma OnlyClosedLogsGo(h: Host, p: Policy, dir: seq<DirEntry>, n: nat, name: string)
    requires n <= |Queue(h, p, dir)| && name in Report(h, p, dir, n).deleted
    ensures exists e :: e in dir && e.name == Some(name) && RunLogName(e)
    ensures name != h.active && h.parse(name).Some? && !h.remove(name).Failed?
    ensures var id := h.parse(name).value;
            && h.probe(id.pid) != Alive
            && (h.probe(id.pid) == Unknown ==> h.now - id.stamp > p.maxAge)
  {
    var queue := Queue(h, p, dir);
    var names := Names(queue[..n]);
    FilterMembers(names, (name: string) => !h.remove(name).Failed?);
    assert name in names;
    var i :| 0 <= i < |names| && names[i] == name;
    assert queue[i] in queue;
    QueueMeans(h, p, dir);
    hide Queue, RunLogName;
  }

  lemma CandidateEntry(h: Host, p: Policy, dir: seq<DirEntry>, log: RunLog)
    requires log in Candidates(h, p, dir)
    ensures exists i :: 0 <= i < |dir| && dir[i].name == Some(log.name)
                        && Classify(h, p, dir[i]) == Closed(log)
  {
    var closed := Filter(dir, IsClosed(h, p));
    FilterMembers(dir, IsClosed(h, p));
    var j :| 0 <= j < |closed| && Candidates(h, p, dir)[j] == log;
    var i :| 0 <= i < |dir| && dir[i] == closed[j];
    assert IsClosed(h, p)(closed[j]);
  }

  /** Kept plus deleted accounts for every run log seen exactly when no removal failed. */
  lemma Conservation(h: Host, p: Policy, dir: seq<DirEntry>, n: nat)
    requires n <= |Queue(h, p, dir)|
    ensures var r := Report(h, p, dir, n);
            var seen := RunLogs(dir).0;
            && r.kept + |r.deleted| <= seen
            && (r.kept + |r.deleted| == seen
                <==> forall i :: 0 <= i < n ==> !h.remove(Queue(h, p, dir)[i].name).Failed?)
  {
    SortByPermutes(Candidates(h, p, dir), OlderFirst);
    AllAreCounted(h, p, dir);
    hide RunLogs;
    var names := Names(Queue(h, p, dir)[..n]);
    FilterLength(names, (name: string) => !h.remove(name).Failed?);
    assert forall i :: 0 <= i < n ==> names[i] == Queue(h, p, dir)[i].name;
  }

  lemma {:induction false} FilterLength<T>(s: seq<T>, keep: T -> bool)
    ensures |Filter(s, keep)| == |s| <==> forall i :: 0 <= i < |s| ==> keep(s[i])
  {
    if s != [] {
      FilterLength(s[1..], keep);
      assert s == [s[0]] + s[1..];
    }
  }

  ghost predicate DistinctNames(dir: seq<DirEntry>) {
    forall i, j :: 0 <= i < j < |dir| && dir[i].name.Some? ==> dir[i].name != dir[j].name
  }

  /** The pass is deterministic: the order in which the directory is read changes nothing. */
  lemma ReadOrderIrrelevant(h: Host, p: Policy, a: seq<DirEntry>, b: seq<DirEntry>)
    requires multiset(a) == multiset(b) && DistinctNames(a)
    ensures Queue(h, p, a) == Queue(h, p, b)
    ensures ProtectedCount(h, p, a) == ProtectedCount(h, p, b)
    ensures ProtectedBytes(h, p, a) == ProtectedBytes(h, p, b)
  {
    FilterPermutation(IsClosed(h, p), a, b);
    MapPermutation(LogOf(h, p), Filter(a, IsClosed(h, p)), Filter(b, IsClosed(h, p)));
    var ca, cb := Candidates(h, p, a), Candidates(h, p, b);
    OlderFirstIsOrder();
    SortBySorted(ca, OlderFirst);
    SortBySorted(cb, OlderFirst);
    SameElements(Queue(h, p, a), ca);
    forall x, y | x in Queue(h, p, a) && y in Queue(h, p, a) && OlderFirst(x, y) && OlderFirst(y, x)
      ensures x == y
    {
      LexAntisymmetric(x.name, y.name);
      CandidateEntry(h, p, a, x);
      CandidateEntry(h, p, a, y);
    }
    SortedUnique(Queue(h, p, a), Queue(h, p, b), OlderFirst);
    MapPermutation(ProtectedUnits(h, p), a, b);
    SumPermutation(Map(ProtectedUnits(h, p), a), Map(ProtectedUnits(h, p), b));
    MapPermutation(ProtectedSizes(h, p), a, b);
    SumPermutation(Map(ProtectedSizes(h, p), a), Map(ProtectedSizes(h, p), b));
  }
}
